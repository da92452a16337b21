/**
Emulation prevention (H.264 section 7.4.1): the stripper of protocol/sps.cpp
and the escaper a sender uses, which together with the Annex-B splitter carry
any list of RBSPs across the wire.
*/
module Rbsp {
  import opened Bytes
  import AnnexB

  /** Bytes left of `s` when `run` zero bytes were kept just before it. */
  function Strip(s: seq<byte>, run: nat): seq<byte> {
    if s == [] then []
    else if run >= 2 && s[0] == 3 then Strip(s[1..], 0)
    else [s[0]] + Strip(s[1..], if s[0] == 0 then run + 1 else 0)
  }

  method StripEmulationPrevention(nalu: seq<byte>) returns (out: seq<byte>)
    ensures out == if nalu == [] then [] else Strip(nalu[1..], 0)
  {
    out := [];
    var zeroRun := 0;
    var i := 1;
    while i < |nalu|
      invariant i >= 1 && zeroRun >= 0
      invariant nalu != [] ==> i <= |nalu| && out + Strip(nalu[i..], zeroRun) == Strip(nalu[1..], 0)
      invariant nalu == [] ==> out == []
    {
      var b := nalu[i];
      ghost var rest := nalu[i..];
      assert rest[0] == b && rest[1..] == nalu[i + 1..];
      if zeroRun >= 2 && b == 3 {
        zeroRun := 0;
      } else {
        ConcatAssoc(out, [b], Strip(nalu[i + 1..], if b == 0 then zeroRun + 1 else 0));
        out := out + [b];
        zeroRun := if b == 0 then zeroRun + 1 else 0;
      }
      i := i + 1;
    }
    assert out + [] == out;
  }

  /**
  The NAL unit payload for an RBSP: a 3 goes before every byte below 4 that
  follows two zero bytes, and behind an RBSP that ends in a zero word.
  */
  function Escape(r: seq<byte>, run: nat): seq<byte>
    requires run <= 2
  {
    if r == [] then (if run == 2 then [3] else [])
    else if run == 2 && r[0] <= 3 then [3] + ([r[0]] + Escape(r[1..], if r[0] == 0 then 1 else 0))
    else [r[0]] + Escape(r[1..], if r[0] == 0 then run + 1 else 0)
  }

  /** Stripping inverts escaping. */
  lemma {:induction false} StripEscape(r: seq<byte>, run: nat)
    requires run <= 2
    ensures Strip(Escape(r, run), run) == r
  {
    if r == [] {
      if run == 2 {
        assert [3][1..] == [];
      }
    } else {
      var b, u := r[0], r[1..];
      assert [b] + u == r;
      if run == 2 && b <= 3 {
        var next := if b == 0 then 1 else 0;
        StripEscape(u, next);
        StripStep(b, Escape(u, next), 0);
        StripDrop([b] + Escape(u, next), run);
      } else {
        var next := if b == 0 then run + 1 else 0;
        StripEscape(u, next);
        StripStep(b, Escape(u, next), run);
      }
    }
  }

  lemma StripDrop(t: seq<byte>, run: nat)
    requires run >= 2
    ensures Strip([3] + t, run) == Strip(t, 0)
  {
    assert ([3] + t)[1..] == t;
  }

  lemma StripStep(b: byte, t: seq<byte>, run: nat)
    requires run < 2 || b != 3
    ensures Strip([b] + t, run) == [b] + Strip(t, if b == 0 then run + 1 else 0)
  {
    assert ([b] + t)[1..] == t;
  }

  lemma {:induction false} EscapeGrows(r: seq<byte>, run: nat)
    requires run <= 2
    ensures |Escape(r, run)| >= |r|
  {
    if r != [] {
      var next := if run == 2 && r[0] <= 3 then (if r[0] == 0 then 1 else 0)
                  else if r[0] == 0 then run + 1 else 0;
      EscapeGrows(r[1..], next);
    }
  }

  /** No byte below 3 follows two zero bytes when `run` zeros come first. */
  predicate Safe(s: seq<byte>, run: nat) {
    s == [] || (!(run >= 2 && s[0] < 3) && Safe(s[1..], if s[0] == 0 then run + 1 else 0))
  }

  lemma SafeStep(b: byte, t: seq<byte>, run: nat)
    requires run < 2 || b >= 3
    requires Safe(t, if b == 0 then run + 1 else 0)
    ensures Safe([b] + t, run)
  {
    assert ([b] + t)[1..] == t;
  }

  lemma {:induction false} EscapeSafe(r: seq<byte>, run: nat)
    requires run <= 2
    ensures Safe(Escape(r, run), run)
  {
    if r == [] {
    } else if run == 2 && r[0] <= 3 {
      var next := if r[0] == 0 then 1 else 0;
      var t := Escape(r[1..], next);
      EscapeSafe(r[1..], next);
      SafeStep(r[0], t, 0);
      SafeStep(3, [r[0]] + t, run);
    } else {
      var next := if r[0] == 0 then run + 1 else 0;
      EscapeSafe(r[1..], next);
      SafeStep(r[0], Escape(r[1..], next), run);
    }
  }

  lemma {:induction false} SafeAt(s: seq<byte>, run: nat, k: nat)
    requires Safe(s, run) && k + 2 < |s| && s[k] == 0 && s[k + 1] == 0
    ensures s[k + 2] >= 3
    decreases k
  {
    var t := s[1..];
    if k > 0 {
      SafeAt(t, if s[0] == 0 then run + 1 else 0, k - 1);
    } else {
      var u := t[1..];
      assert t[0] == 0 && u[0] == s[2] && Safe(u, run + 2);
    }
  }

  /** A NAL unit as a sender builds it. */
  function Nalu(header: byte, rbsp: seq<byte>): seq<byte> {
    [header] + Escape(rbsp, 0)
  }

  /** An escaped NAL unit holds no start code, whatever its header and contents. */
  lemma NaluClean(header: byte, rbsp: seq<byte>)
    ensures AnnexB.Clean(Nalu(header, rbsp))
  {
    EscapeSafe(rbsp, 0);
    var e, n := Escape(rbsp, 0), Nalu(header, rbsp);
    forall i: nat
      ensures !AnnexB.StartCodeAt(n, i)
    {
      if AnnexB.StartCodeAt(n, i) {
        assert e[i] == n[i + 1] && e[i + 1] == n[i + 2] && e[i + 2] == n[i + 3];
        SafeAt(e, 0, i);
        assert false;
      }
    }
  }

  function Nalus(units: seq<(byte, seq<byte>)>): (v: seq<seq<byte>>)
    ensures |v| == |units|
  {
    seq(|units|, k requires 0 <= k < |units| => Nalu(units[k].0, units[k].1))
  }

  /** Escape, serialise, split and strip: every RBSP comes back, in order and alone. */
  lemma EscapeSplitStrip(prefix: seq<byte>, units: seq<(byte, seq<byte>)>)
    requires AnnexB.Clean(prefix)
    ensures AnnexB.Pieces(prefix + AnnexB.Serialize(Nalus(units)), 0) == [prefix] + Nalus(units)
    ensures forall k | 0 <= k < |units| ::
              Nalus(units)[k][0] == units[k].0 && Strip(Nalus(units)[k][1..], 0) == units[k].1
  {
    forall k | 0 <= k < |units|
      ensures AnnexB.Clean(Nalus(units)[k])
      ensures Nalus(units)[k][0] == units[k].0 && Strip(Nalus(units)[k][1..], 0) == units[k].1
    {
      NaluClean(units[k].0, units[k].1);
      StripEscape(units[k].1, 0);
      assert Nalus(units)[k][1..] == Escape(units[k].1, 0);
    }
    AnnexB.SplitJoin(prefix, Nalus(units));
  }

  /** More input never changes what was already stripped. */
  lemma {:induction false} StripExtends(s: seq<byte>, t: seq<byte>, run: nat) returns (more: seq<byte>)
    ensures Strip(s + t, run) == Strip(s, run) + more
  {
    if s == [] {
      assert s + t == t;
      more := Strip(t, run);
    } else {
      assert (s + t)[1..] == s[1..] + t;
      if run >= 2 && s[0] == 3 {
        more := StripExtends(s[1..], t, 0);
      } else {
        var next := if s[0] == 0 then run + 1 else 0;
        more := StripExtends(s[1..], t, next);
        ConcatAssoc([s[0]], Strip(s[1..], next), more);
      }
    }
  }
}
