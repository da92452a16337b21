/**
Length-prefixed wire framing (protocol/framing.h, protocol/framing.cpp).

`SplitStream` says which payloads a byte stream carries and `Wire` is what a
sender writes; the theorems relate the two under every cutting of the stream.
*/
module Framing {
  import opened Bytes

  const HEADER_SIZE := 4
  const MAX_FRAME_SIZE := 16 * 1024 * 1024

  // ----- Big-endian 32-bit integers ----------------------------------------

  /** The number whose base-256 digits are `p`, most significant first. */
  function FromBigEndian(p: seq<byte>): nat {
    if p == [] then 0 else FromBigEndian(p[..|p| - 1]) * 256 + p[|p| - 1]
  }

  /** The `n` low digits of `v`, most significant first. */
  function BigEndian(v: nat, n: nat): (p: seq<byte>)
    ensures |p| == n
  {
    if n == 0 then [] else BigEndian(v / 256, n - 1) + [v % 256]
  }

  function Pow256(n: nat): (p: nat)
    ensures p > 0
  {
    if n == 0 then 1 else 256 * Pow256(n - 1)
  }

  lemma {:induction false} BigEndianRead(v: nat, n: nat)
    requires v < Pow256(n)
    ensures FromBigEndian(BigEndian(v, n)) == v
  {
    if n > 0 {
      BigEndianRead(v / 256, n - 1);
      assert BigEndian(v, n)[..n - 1] == BigEndian(v / 256, n - 1);
    }
  }

  lemma {:induction false} BigEndianWritten(p: seq<byte>)
    ensures FromBigEndian(p) < Pow256(|p|)
    ensures BigEndian(FromBigEndian(p), |p|) == p
  {
    if p != [] {
      BigEndianWritten(p[..|p| - 1]);
    }
  }

  function ReadInt32BE(p: seq<byte>): nat
    requires |p| >= HEADER_SIZE
  {
    FromBigEndian(p[..HEADER_SIZE])
  }

  function Int32BE(v: nat): (p: seq<byte>)
    ensures |p| == HEADER_SIZE
  {
    BigEndian(v, HEADER_SIZE)
  }

  lemma Int32Bytes(v: nat)
    ensures Int32BE(v) == [v / 0x100_0000 % 256, v / 0x1_0000 % 256, v / 0x100 % 256, v % 256]
  {
    var a, b, c := v / 256, v / 256 / 256, v / 256 / 256 / 256;
    assert BigEndian(c, 1) == [c % 256];
    assert BigEndian(b, 2) == [c % 256, b % 256];
    assert BigEndian(a, 3) == [c % 256, b % 256, a % 256];
  }

  lemma Pow256Header()
    ensures Pow256(HEADER_SIZE) == 0x1_0000_0000
  {
    assert Pow256(2) == 0x1_0000;
  }

  /** Reading inverts writing, whatever follows. */
  lemma HeaderRead(n: nat, t: seq<byte>)
    requires n < 0x1_0000_0000
    ensures ReadInt32BE(Int32BE(n) + t) == n
  {
    Pow256Header();
    BigEndianRead(n, HEADER_SIZE);
    assert (Int32BE(n) + t)[..HEADER_SIZE] == Int32BE(n);
  }

  /** Writing inverts reading. */
  lemma HeaderWritten(p: seq<byte>)
    requires |p| >= HEADER_SIZE
    ensures Int32BE(ReadInt32BE(p)) == p[..HEADER_SIZE]
  {
    BigEndianWritten(p[..HEADER_SIZE]);
  }

  method WriteInt32BE(out: array<byte>, v: int)
    requires out.Length >= 4
    requires 0 <= v < 0x1_0000_0000
    modifies out
    ensures out[..4] == Int32BE(v)
    ensures out[4..] == old(out[4..])
  {
    Int32Bytes(v);
    out[0] := v / 0x100_0000;
    out[1] := v / 0x1_0000 % 256;
    out[2] := v / 0x100 % 256;
    out[3] := v % 256;
  }

  /** One frame on the wire; the length is truncated to 32 bits as in the cast. */
  function Encode(payload: seq<byte>): seq<byte> {
    Int32BE(|payload| % 0x1_0000_0000) + payload
  }

  method EncodeFrame(payload: seq<byte>) returns (out: array<byte>)
    ensures fresh(out)
    ensures out[..] == Encode(payload)
  {
    out := new byte[HEADER_SIZE + |payload|](_ => 0);
    WriteInt32BE(out, |payload| % 0x1_0000_0000);
    forall i | 0 <= i < |payload| {
      out[HEADER_SIZE + i] := payload[i];
    }
    assert out[..4] == Int32BE(|payload| % 0x1_0000_0000);
    assert out[4..] == payload;
    assert out[..] == out[..4] + out[4..];
  }

  // ----- What a stream carries ----------------------------------------------

  /** Payloads found, bytes left over, and whether no oversize prefix was met. */
  datatype Split = Split(frames: seq<seq<byte>>, rest: seq<byte>, valid: bool)

  function SplitStream(s: seq<byte>): Split
    decreases |s|
  {
    if |s| < HEADER_SIZE then Split([], s, true)
    else
      var n := ReadInt32BE(s);
      if n > MAX_FRAME_SIZE then Split([], s, false)
      else if |s| < HEADER_SIZE + n then Split([], s, true)
      else
        var r := SplitStream(s[HEADER_SIZE + n..]);
        Split([s[HEADER_SIZE..HEADER_SIZE + n]] + r.frames, r.rest, r.valid)
  }

  /** The bytes a sender puts on the wire for these payloads. */
  function Wire(payloads: seq<seq<byte>>): seq<byte> {
    if payloads == [] then [] else Encode(payloads[0]) + Wire(payloads[1..])
  }

  ghost predicate Sendable(payloads: seq<seq<byte>>) {
    forall k | 0 <= k < |payloads| :: |payloads[k]| <= MAX_FRAME_SIZE
  }

  lemma {:induction false} WireAppend(a: seq<seq<byte>>, b: seq<seq<byte>>)
    ensures Wire(a + b) == Wire(a) + Wire(b)
  {
    if a == [] {
      assert a + b == b;
    } else {
      assert (a + b)[1..] == a[1..] + b;
      WireAppend(a[1..], b);
    }
  }

  lemma WireSnoc(a: seq<seq<byte>>, p: seq<byte>)
    ensures Wire(a + [p]) == Wire(a) + Encode(p)
  {
    WireAppend(a, [p]);
    assert [p][1..] == [];
  }

  lemma FrameParts(p: seq<byte>, t: seq<byte>)
    requires |p| <= MAX_FRAME_SIZE
    ensures var s := Encode(p) + t;
            && ReadInt32BE(s) == |p|
            && s[HEADER_SIZE..HEADER_SIZE + |p|] == p
            && s[HEADER_SIZE + |p|..] == t
  {
    ConcatAssoc(Int32BE(|p|), p, t);
    HeaderRead(|p|, p + t);
  }

  lemma {:induction false} SplitStep(s: seq<byte>, n: nat)
    requires HEADER_SIZE + n <= |s| && n <= MAX_FRAME_SIZE && n == ReadInt32BE(s)
    ensures var r := SplitStream(s[HEADER_SIZE + n..]);
            SplitStream(s) == Split([s[HEADER_SIZE..HEADER_SIZE + n]] + r.frames, r.rest, r.valid)
  {
    var r := SplitStream(s[HEADER_SIZE + n..]);
    assert SplitStream(s).valid == r.valid;
    assert SplitStream(s).rest == r.rest;
  }

  lemma SplitFirst(p: seq<byte>, t: seq<byte>)
    requires |p| <= MAX_FRAME_SIZE
    ensures var r := SplitStream(t);
            SplitStream(Encode(p) + t) == Split([p] + r.frames, r.rest, r.valid)
  {
    FrameParts(p, t);
    SplitStep(Encode(p) + t, |p|);
  }

  /** Splitting inverts framing, whatever follows on the wire. */
  lemma {:induction false} SplitInvertsWire(payloads: seq<seq<byte>>, tail: seq<byte>)
    requires Sendable(payloads)
    ensures var r := SplitStream(tail);
            SplitStream(Wire(payloads) + tail) == Split(payloads + r.frames, r.rest, r.valid)
  {
    var r := SplitStream(tail);
    if payloads == [] {
      assert Wire(payloads) + tail == tail;
      assert payloads + r.frames == r.frames;
    } else {
      var p, ps := payloads[0], payloads[1..];
      ConcatAssoc(Encode(p), Wire(ps), tail);
      SplitFirst(p, Wire(ps) + tail);
      SplitInvertsWire(ps, tail);
      assert [p] + ps == payloads;
      ConcatAssoc([p], ps, r.frames);
    }
  }

  lemma FirstFrameBytes(s: seq<byte>)
    requires |s| >= HEADER_SIZE
    requires ReadInt32BE(s) <= MAX_FRAME_SIZE
    requires |s| >= HEADER_SIZE + ReadInt32BE(s)
    ensures var n := ReadInt32BE(s);
            s == Encode(s[HEADER_SIZE..HEADER_SIZE + n]) + s[HEADER_SIZE + n..]
  {
    HeaderWritten(s);
  }

  /** Framing inverts splitting: frames and leftover tile the stream, and the leftover holds no frame. */
  lemma {:induction false} WireInvertsSplit(s: seq<byte>)
    ensures var r := SplitStream(s);
            && s == Wire(r.frames) + r.rest
            && Sendable(r.frames)
            && SplitStream(r.rest) == Split([], r.rest, r.valid)
    decreases |s|
  {
    var r := SplitStream(s);
    if r.frames != [] {
      var n := ReadInt32BE(s);
      var f, t := s[HEADER_SIZE..HEADER_SIZE + n], s[HEADER_SIZE + n..];
      var q := SplitStream(t);
      WireInvertsSplit(t);
      FirstFrameBytes(s);
      assert r.frames[1..] == q.frames;
      ConcatAssoc(Encode(f), Wire(q.frames), q.rest);
    }
  }

  lemma OversizeStays(t: seq<byte>, b: seq<byte>)
    requires SplitStream(t) == Split([], t, false)
    ensures SplitStream(t + b) == Split([], t + b, false)
  {
    assert (t + b)[..HEADER_SIZE] == t[..HEADER_SIZE];
  }

  /** What was already split stays split when more bytes arrive. */
  lemma SplitExtends(a: seq<byte>, b: seq<byte>)
    ensures var r := SplitStream(a);
            var q := SplitStream(r.rest + b);
            SplitStream(a + b) == Split(r.frames + q.frames, q.rest, q.valid)
    ensures !SplitStream(a).valid ==>
              SplitStream(a + b) == Split(SplitStream(a).frames, SplitStream(a).rest + b, false)
  {
    var r := SplitStream(a);
    WireInvertsSplit(a);
    ConcatAssoc(Wire(r.frames), r.rest, b);
    SplitInvertsWire(r.frames, r.rest + b);
    if !r.valid {
      OversizeStays(r.rest, b);
      assert r.frames + [] == r.frames;
    }
  }

  // ----- Chunking ------------------------------------------------------------

  /** Feeding chunks one by one into a buffer that already holds `rest`. */
  function FeedAll(rest: seq<byte>, chunks: seq<seq<byte>>): Split
    decreases |chunks|
  {
    if chunks == [] then Split([], rest, SplitStream(rest).valid)
    else
      var r := SplitStream(rest + chunks[0]);
      var q := FeedAll(r.rest, chunks[1..]);
      Split(r.frames + q.frames, q.rest, q.valid)
  }

  /** Frames, leftover and validity depend on the stream alone, not on how it was cut. */
  lemma {:induction false} ChunkingIrrelevant(rest: seq<byte>, chunks: seq<seq<byte>>)
    requires SplitStream(rest).frames == []
    ensures FeedAll(rest, chunks) == SplitStream(rest + Flatten(chunks))
    decreases |chunks|
  {
    if chunks == [] {
      assert rest + Flatten(chunks) == rest;
      WireInvertsSplit(rest);
      assert Wire([]) + SplitStream(rest).rest == SplitStream(rest).rest;
    } else {
      var c, cs := chunks[0], chunks[1..];
      WireInvertsSplit(rest + c);
      ChunkingIrrelevant(SplitStream(rest + c).rest, cs);
      SplitExtends(rest + c, Flatten(cs));
      ConcatAssoc(rest, c, Flatten(cs));
    }
  }

  /** Any cutting of framed payloads comes back as exactly those payloads with nothing buffered. */
  lemma FramedStreamRoundTrip(payloads: seq<seq<byte>>, chunks: seq<seq<byte>>)
    requires Sendable(payloads)
    requires Flatten(chunks) == Wire(payloads)
    ensures FeedAll([], chunks) == Split(payloads, [], true)
  {
    ChunkingIrrelevant([], chunks);
    SplitInvertsWire(payloads, []);
    assert [] + Flatten(chunks) == Wire(payloads) == Wire(payloads) + [];
    assert payloads + [] == payloads;
  }

  /**
  The stream fails at one byte, the last byte of the oversize prefix: every
  prefix of the stream that contains it is rejected and no shorter one is.
  */
  lemma FailurePoint(s: seq<byte>, n: nat)
    requires !SplitStream(s).valid
    requires n <= |s|
    ensures !SplitStream(s[..n]).valid <==> n >= |s| - |SplitStream(s).rest| + HEADER_SIZE
  {
    var r := SplitStream(s);
    WireInvertsSplit(s);
    var m := |Wire(r.frames)|;
    var a, b := s[..n], s[n..];
    assert a + b == s;
    if n >= m + HEADER_SIZE {
      BadPrefixKept(r, a, b);
    } else if !SplitStream(a).valid {
      BadPrefixLength(a, b);
    }
  }

  lemma BadPrefixLength(a: seq<byte>, b: seq<byte>)
    requires !SplitStream(a).valid
    ensures |a| >= |a + b| - |SplitStream(a + b).rest| + HEADER_SIZE
  {
    SplitExtends(a, b);
    WireInvertsSplit(a);
  }

  lemma {:induction false} BadPrefixKept(r: Split, a: seq<byte>, b: seq<byte>)
    requires !r.valid && Sendable(r.frames) && SplitStream(r.rest) == Split([], r.rest, false)
    requires a + b == Wire(r.frames) + r.rest
    requires |a| >= |Wire(r.frames)| + HEADER_SIZE
    ensures !SplitStream(a).valid
  {
    var m := |Wire(r.frames)|;
    var t := a[m..];
    assert a[..m] == (a + b)[..m] == Wire(r.frames);
    assert a == Wire(r.frames) + t;
    assert r.rest == (a + b)[m..] == t + b;
    assert t[..HEADER_SIZE] == r.rest[..HEADER_SIZE];
    SplitInvertsWire(r.frames, t);
  }

  /** A rejected buffer rejects everything that follows. */
  lemma RejectionIsFinal(rest: seq<byte>, chunks: seq<seq<byte>>, k: nat)
    requires SplitStream(rest) == Split([], rest, false)
    requires k <= |chunks|
    ensures FeedAll(rest, chunks[..k]) == Split([], rest + Flatten(chunks[..k]), false)
  {
    ChunkingIrrelevant(rest, chunks[..k]);
    SplitExtends(rest, Flatten(chunks[..k]));
  }

  /** After a valid feed less than one maximal frame is left. */
  lemma {:induction false} LeftoverBound(s: seq<byte>)
    requires SplitStream(s).valid
    ensures |SplitStream(s).rest| < HEADER_SIZE + MAX_FRAME_SIZE
  {
    WireInvertsSplit(s);
  }

  /** A stream is rejected at its first frame exactly when the length its four bytes spell is above 16 MiB. */
  lemma RejectedIff(s: seq<byte>)
    requires |s| >= 4
    ensures SplitStream(s) == Split([], s, false) <==>
            0x100_0000 * (s[0] as int) + 0x1_0000 * (s[1] as int) + 0x100 * (s[2] as int) + s[3] as int > 16_777_216
  {
    LengthSpelled(s);
    if ReadInt32BE(s) <= MAX_FRAME_SIZE && |s| >= HEADER_SIZE + ReadInt32BE(s) {
      assert SplitStream(s).frames != [];
    }
  }

  lemma LengthSpelled(s: seq<byte>)
    requires |s| >= 4
    ensures ReadInt32BE(s) ==
            0x100_0000 * (s[0] as int) + 0x1_0000 * (s[1] as int) + 0x100 * (s[2] as int) + s[3] as int
  {
    assert s[..4] == (([s[0]] + [s[1]]) + [s[2]]) + [s[3]];
    NextDigit([], s[0]);
    assert [] + [s[0]] == [s[0]];
    NextDigit([s[0]], s[1]);
    NextDigit([s[0]] + [s[1]], s[2]);
    NextDigit(([s[0]] + [s[1]]) + [s[2]], s[3]);
  }

  lemma NextDigit(p: seq<byte>, x: byte)
    ensures FromBigEndian(p + [x]) == FromBigEndian(p) * 256 + x
  {
    assert (p + [x])[..|p|] == p;
  }
}
