/**
Annex-B access units (protocol/annexb.h, protocol/annexb.cpp): splitting a
payload at four-byte start codes and sorting its NAL units.
*/
module AnnexB {
  import opened Bytes
  import SliceHeader
  import Telemetry

  // ----- Start codes ----------------------------------------------------------

  const START_CODE: seq<byte> := [0, 0, 0, 1]

  predicate StartCodeAt(s: seq<byte>, i: nat) {
    i + 4 <= |s| && s[i] == 0 && s[i + 1] == 0 && s[i + 2] == 0 && s[i + 3] == 1
  }

  ghost predicate Clean(s: seq<byte>) {
    forall i: nat :: !StartCodeAt(s, i)
  }

  /** The first start code at or after `i`; |s| when there is none. */
  function First(s: seq<byte>, i: nat): (p: nat)
    requires i <= |s|
    ensures i <= p <= |s|
    ensures p < |s| ==> StartCodeAt(s, p)
    ensures forall j: nat | i <= j < p :: !StartCodeAt(s, j)
    decreases |s| - i
  {
    if i + 4 > |s| then |s| else if StartCodeAt(s, i) then i else First(s, i + 1)
  }

  lemma FirstUnique(s: seq<byte>, i: nat, p: nat)
    requires i <= p && StartCodeAt(s, p)
    requires forall j: nat | i <= j < p :: !StartCodeAt(s, j)
    ensures First(s, i) == p
  {
  }

  /** Where NAL units begin, skipping each start code that was found. */
  function StartsFrom(s: seq<byte>, i: nat): seq<nat>
    requires i <= |s|
    decreases |s| - i
  {
    var p := First(s, i);
    if p == |s| then [] else [p + 4] + StartsFrom(s, p + 4)
  }

  /** Only start codes are listed, in increasing order and never overlapping. */
  lemma {:induction false} StartsSound(s: seq<byte>, i: nat, k: nat)
    requires i <= |s| && k < |StartsFrom(s, i)|
    ensures var v := StartsFrom(s, i);
            && i + 4 <= v[k] <= |s|
            && StartCodeAt(s, v[k] - 4)
            && (k > 0 ==> v[k - 1] + 4 <= v[k])
    decreases k
  {
    var p := First(s, i);
    if k > 0 {
      StartsSound(s, p + 4, k - 1);
      assert StartsFrom(s, i) == [p + 4] + StartsFrom(s, p + 4);
    }
  }

  /** The jump over a match loses nothing: every start code from `i` on is listed. */
  lemma {:induction false} StartsComplete(s: seq<byte>, i: nat, j: nat) returns (k: nat)
    requires i <= j && StartCodeAt(s, j)
    ensures k < |StartsFrom(s, i)| && StartsFrom(s, i)[k] == j + 4
    decreases j - i
  {
    var p := First(s, i);
    if j == p {
      k := 0;
    } else {
      assert j >= p + 4;
      var m := StartsComplete(s, p + 4, j);
      k := m + 1;
    }
  }

  // ----- Pieces ---------------------------------------------------------------

  /** What lies before, between and after the start codes from `i` on. */
  function Pieces(s: seq<byte>, i: nat): (v: seq<seq<byte>>)
    requires i <= |s|
    ensures |v| > 0
    decreases |s| - i
  {
    var p := First(s, i);
    if p == |s| then [s[i..]] else [s[i..p]] + Pieces(s, p + 4)
  }

  /** NAL units, each behind its start code. */
  function Serialize(nalus: seq<seq<byte>>): seq<byte> {
    if nalus == [] then [] else START_CODE + nalus[0] + Serialize(nalus[1..])
  }

  lemma {:induction false} SerializeAppend(a: seq<seq<byte>>, b: seq<seq<byte>>)
    ensures Serialize(a + b) == Serialize(a) + Serialize(b)
  {
    if a == [] {
      assert a + b == b;
    } else {
      assert (a + b)[1..] == a[1..] + b;
      SerializeAppend(a[1..], b);
      ConcatAssoc(START_CODE + a[0], Serialize(a[1..]), Serialize(b));
    }
  }

  ghost predicate AllClean(v: seq<seq<byte>>) {
    forall k | 0 <= k < |v| :: Clean(v[k])
  }

  /** The pieces tile the payload. */
  lemma {:induction false} PiecesTile(s: seq<byte>, i: nat)
    requires i <= |s|
    ensures var v := Pieces(s, i);
            s[i..] == v[0] + Serialize(v[1..])
    decreases |s| - i
  {
    var p := First(s, i);
    if p == |s| {
      assert [s[i..]][1..] == [];
      assert s[i..] + Serialize([]) == s[i..];
    } else {
      var w := Pieces(s, p + 4);
      PiecesTile(s, p + 4);
      CutAtCode(s, i, p);
      assert Pieces(s, i)[1..] == w;
      ConcatAssoc(START_CODE, w[0], Serialize(w[1..]));
    }
  }

  /** No piece holds a start code. */
  lemma {:induction false} PiecesClean(s: seq<byte>, i: nat)
    requires i <= |s|
    ensures AllClean(Pieces(s, i))
    decreases |s| - i
  {
    var p := First(s, i);
    SliceClean(s, i, p);
    if p == |s| {
      assert s[i..p] == s[i..];
    } else {
      PiecesClean(s, p + 4);
    }
  }

  lemma CutAtCode(s: seq<byte>, i: nat, p: nat)
    requires i <= p && StartCodeAt(s, p)
    ensures s[i..] == s[i..p] + (START_CODE + s[p + 4..])
  {
    assert s[p..p + 4] == START_CODE;
    assert s[p..] == s[p..p + 4] + s[p + 4..];
  }

  lemma SliceClean(s: seq<byte>, i: nat, p: nat)
    requires i <= p <= |s|
    requires forall j: nat | i <= j < p :: !StartCodeAt(s, j)
    ensures Clean(s[i..p])
  {
    forall j: nat
      ensures !StartCodeAt(s[i..p], j)
    {
      assert !StartCodeAt(s, i + j) || i + j >= p;
    }
  }

  /** A start code cannot begin inside a clean piece and end in the start code behind it. */
  lemma NoStraddle(a: seq<byte>, x: seq<byte>, y: seq<byte>)
    requires Clean(x)
    ensures First(a + x + START_CODE + y, |a|) == |a| + |x|
  {
    var s := a + x + START_CODE + y;
    var p := |a| + |x|;
    assert StartCodeAt(s, p);
    forall j: nat | |a| <= j < p
      ensures !StartCodeAt(s, j)
    {
      assert !StartCodeAt(x, j - |a|);
      if j + 4 > p {
        assert s[j + 3] == START_CODE[j + 3 - p] == 0;
      }
    }
    FirstUnique(s, |a|, p);
  }

  lemma FirstPiece(a: seq<byte>, x: seq<byte>, y: seq<byte>)
    requires Clean(x)
    ensures var b := a + x + START_CODE;
            Pieces(b + y, |a|) == [x] + Pieces(b + y, |b|)
  {
    var s, p := a + x + START_CODE + y, |a| + |x|;
    NoStraddle(a, x, y);
    assert s[|a|..p] == x;
    PieceUpTo(s, |a|, p);
  }

  lemma PieceUpTo(s: seq<byte>, i: nat, p: nat)
    requires i <= |s| && First(s, i) == p < |s|
    ensures Pieces(s, i) == [s[i..p]] + Pieces(s, p + 4)
  {
  }

  lemma {:induction false} LastPiece(a: seq<byte>, x: seq<byte>)
    requires Clean(x)
    ensures Pieces(a + x, |a|) == [x]
  {
    var s := a + x;
    forall j: nat | |a| <= j < |s|
      ensures !StartCodeAt(s, j)
    {
      assert !StartCodeAt(x, j - |a|);
    }
    assert First(s, |a|) == |s|;
    assert s[|a|..] == x;
  }

  /** Splitting inverts serialising for every list of clean pieces. */
  lemma {:induction false} PiecesInvertSerialize(a: seq<byte>, x: seq<byte>, v: seq<seq<byte>>)
    requires Clean(x) && AllClean(v)
    ensures Pieces(a + x + Serialize(v), |a|) == [x] + v
    decreases |v|
  {
    if v == [] {
      LastPiece(a, x);
      assert a + x + Serialize(v) == a + x;
      assert [x] + v == [x];
    } else {
      var y, w := v[0], v[1..];
      var b, t := a + x + START_CODE, Serialize(w);
      ConcatAssoc(START_CODE, y, t);
      ConcatAssoc(a + x, START_CODE, y + t);
      FirstPiece(a, x, y + t);
      PiecesInvertSerialize(b, y, w);
      ConcatAssoc(b, y, t);
      assert [y] + w == v;
    }
  }

  /** A payload is a prefix without start code followed by NAL units in exactly one way. */
  lemma SplitJoin(prefix: seq<byte>, nalus: seq<seq<byte>>)
    requires Clean(prefix) && AllClean(nalus)
    ensures Pieces(prefix + Serialize(nalus), 0) == [prefix] + nalus
  {
    PiecesInvertSerialize([], prefix, nalus);
    assert [] + prefix == prefix;
  }

  lemma {:induction false} PieceCount(s: seq<byte>, i: nat)
    requires i <= |s|
    ensures |Pieces(s, i)| == |StartsFrom(s, i)| + 1
    decreases |s| - i
  {
    var p := First(s, i);
    if p < |s| {
      PieceCount(s, p + 4);
      OnePieceOn(s, i, p);
    }
  }

  lemma OnePieceOn(s: seq<byte>, i: nat, p: nat)
    requires i <= |s| && First(s, i) == p < |s|
    ensures |Pieces(s, i)| == 1 + |Pieces(s, p + 4)| && |StartsFrom(s, i)| == 1 + |StartsFrom(s, p + 4)|
  {
  }

  /** Piece k lies between start codes k - 1 and k. */
  lemma {:induction false} PieceBounds(s: seq<byte>, i: nat, k: nat)
    requires i <= |s| && k <= |StartsFrom(s, i)|
    ensures var v := StartsFrom(s, i);
            var b := if k == 0 then i else v[k - 1];
            var e := if k < |v| then v[k] - 4 else |s|;
            && |Pieces(s, i)| == |v| + 1
            && i <= b <= e <= |s|
            && Pieces(s, i)[k] == s[b..e]
    decreases k
  {
    var p := First(s, i);
    PieceCount(s, i);
    if p < |s| && k > 0 {
      PieceBounds(s, p + 4, k - 1);
      assert StartsFrom(s, i) == [p + 4] + StartsFrom(s, p + 4);
    }
  }

  // ----- NAL units ------------------------------------------------------------

  function NaluType(nalu: seq<byte>): int {
    if nalu == [] then -1 else nalu[0] % 32
  }

  /** What the receiver does with a NAL unit; SEI and empty units are dropped. */
  datatype Kind = Sps | Pps | Dropped | Slice

  function KindOf(nalu: seq<byte>): Kind {
    if nalu == [] || NaluType(nalu) == 6 then Dropped
    else if NaluType(nalu) == 7 then Sps
    else if NaluType(nalu) == 8 then Pps
    else Slice
  }

  function Select(nalus: seq<seq<byte>>, kind: Kind): seq<seq<byte>> {
    if nalus == [] then []
    else (if KindOf(nalus[0]) == kind then [nalus[0]] else []) + Select(nalus[1..], kind)
  }

  lemma {:induction false} SelectAppend(a: seq<seq<byte>>, b: seq<seq<byte>>, kind: Kind)
    ensures Select(a + b, kind) == Select(a, kind) + Select(b, kind)
  {
    if a == [] {
      assert a + b == b;
    } else {
      assert (a + b)[1..] == a[1..] + b;
      SelectAppend(a[1..], b, kind);
      ConcatAssoc(if KindOf(a[0]) == kind then [a[0]] else [], Select(a[1..], kind), Select(b, kind));
    }
  }

  lemma SelectSnoc(a: seq<seq<byte>>, x: seq<byte>, kind: Kind)
    ensures Select(a + [x], kind) == if KindOf(x) == kind then Select(a, kind) + [x] else Select(a, kind)
  {
    SelectAppend(a, [x], kind);
    assert [x][1..] == [];
  }

  lemma {:induction false} SelectSound(nalus: seq<seq<byte>>, kind: Kind, k: nat)
    requires k < |Select(nalus, kind)|
    ensures KindOf(Select(nalus, kind)[k]) == kind
    ensures AllClean(nalus) ==> Clean(Select(nalus, kind)[k])
    decreases nalus
  {
    var head := if KindOf(nalus[0]) == kind then [nalus[0]] else [];
    if k >= |head| {
      SelectSound(nalus[1..], kind, k - |head|);
    }
  }

  lemma {:induction false} SelectUniform(nalus: seq<seq<byte>>, kind: Kind, wanted: Kind)
    requires forall k | 0 <= k < |nalus| :: KindOf(nalus[k]) == kind
    ensures Select(nalus, wanted) == if kind == wanted then nalus else []
  {
    if nalus != [] {
      SelectUniform(nalus[1..], kind, wanted);
      assert nalus == [nalus[0]] + nalus[1..];
    }
  }

  /** The last unit, empty when there is none. */
  function Last(v: seq<seq<byte>>): seq<byte> {
    if v == [] then [] else v[|v| - 1]
  }

  /** One picture as the receiver keeps it. */
  datatype VideoFrame = VideoFrame(prefix: seq<byte>, sps: seq<byte>, pps: seq<byte>,
                                   slices: seq<seq<byte>>, captureMs: int, sendMs: int)
  {
    predicate IsEmpty() { slices == [] && sps == [] }

    predicate IsKeyframe() {
      sps != [] && exists k | 0 <= k < |slices| :: KeySlice(slices[k])
    }
  }

  predicate KeySlice(nalu: seq<byte>) {
    NaluType(nalu) == 5 || (NaluType(nalu) == 1 && SliceHeader.SliceTypeOf(nalu) == 7)
  }

  const NO_FRAME := VideoFrame([], [], [], [], -1, -1)

  function FrameOf(prefix: seq<byte>, nalus: seq<seq<byte>>): VideoFrame {
    var t := Telemetry.Times(prefix);
    VideoFrame(prefix, Last(Select(nalus, Sps)), Last(Select(nalus, Pps)), Select(nalus, Slice), t.0, t.1)
  }

  /** Parsing as one definition: the prefix and the units between the start codes. */
  function Parse(payload: seq<byte>): VideoFrame {
    var v := Pieces(payload, 0);
    if |v| == 1 then NO_FRAME else FrameOf(v[0], v[1..])
  }

  method FindStarts(payload: seq<byte>) returns (starts: seq<nat>)
    ensures starts == StartsFrom(payload, 0)
  {
    starts := [];
    var i := 0;
    while i + 4 <= |payload|
      invariant i <= |payload|
      invariant starts + StartsFrom(payload, i) == StartsFrom(payload, 0)
    {
      if payload[i] == 0 && payload[i + 1] == 0 && payload[i + 2] == 0 && payload[i + 3] == 1 {
        ConcatAssoc(starts, [i + 4], StartsFrom(payload, i + 4));
        starts := starts + [i + 4];
        i := i + 4;
      } else {
        i := i + 1;
      }
    }
    assert starts + [] == starts;
  }

  method ParseAnnexB(payload: seq<byte>) returns (frame: VideoFrame)
    ensures frame == Parse(payload)
  {
    frame := NO_FRAME;
    var starts := FindStarts(payload);
    ghost var v := Pieces(payload, 0);
    PieceCount(payload, 0);
    if |starts| == 0 {
      return;
    }
    PieceBounds(payload, 0, 0);
    if starts[0] > 4 {
      var prefix := payload[..starts[0] - 4];
      var captureMs, sendMs := Telemetry.ParseTelemetry(prefix);
      frame := frame.(prefix := prefix, captureMs := captureMs, sendMs := sendMs);
    }
    var k := 0;
    while k < |starts|
      invariant 0 <= k <= |starts|
      invariant frame == FrameOf(v[0], v[1..k + 1])
    {
      ghost var before := frame;
      PieceBounds(payload, 0, k + 1);
      var naluBegin := starts[k];
      var naluEnd := if k + 1 < |starts| then starts[k + 1] - 4 else |payload|;
      var nalu := payload[naluBegin..naluEnd];
      assert nalu == v[k + 1];
      FrameNext(v, k + 1);
      if naluBegin < naluEnd {
        match NaluType(nalu) {
          case 7 => frame := frame.(sps := nalu);
          case 8 => frame := frame.(pps := nalu);
          case 6 =>
          case _ => frame := frame.(slices := frame.slices + [nalu]);
        }
      }
      assert frame == WithUnit(before, nalu);
      k := k + 1;
    }
    assert v[1..|starts| + 1] == v[1..];
  }

  lemma FrameNext(v: seq<seq<byte>>, k: nat)
    requires 1 <= k < |v|
    ensures FrameOf(v[0], v[1..k + 1]) == WithUnit(FrameOf(v[0], v[1..k]), v[k])
  {
    assert v[1..k + 1] == v[1..k] + [v[k]];
    FrameSnoc(v[0], v[1..k], v[k]);
  }

  /** A frame once one more NAL unit is read. */
  function WithUnit(f: VideoFrame, x: seq<byte>): VideoFrame {
    match KindOf(x)
    case Sps => f.(sps := x)
    case Pps => f.(pps := x)
    case Dropped => f
    case Slice => f.(slices := f.slices + [x])
  }

  lemma FrameSnoc(prefix: seq<byte>, nalus: seq<seq<byte>>, x: seq<byte>)
    ensures FrameOf(prefix, nalus + [x]) == WithUnit(FrameOf(prefix, nalus), x)
  {
    SelectSnoc(nalus, x, Sps);
    SelectSnoc(nalus, x, Pps);
    SelectSnoc(nalus, x, Slice);
  }

  method IsKeyframe(frame: VideoFrame) returns (key: bool)
    ensures key == frame.IsKeyframe()
  {
    if frame.sps == [] || frame.slices == [] {
      return false;
    }
    var i := 0;
    while i < |frame.slices|
      invariant 0 <= i <= |frame.slices|
      invariant forall k | 0 <= k < i :: !KeySlice(frame.slices[k])
    {
      var n := frame.slices[i];
      var t := NaluType(n);
      if t == 5 {
        return true;
      }
      if t == 1 {
        var sliceType := SliceHeader.SliceType(n);
        if sliceType == 7 {
          return true;
        }
      }
      i := i + 1;
    }
    return false;
  }

  // ----- Re-serialising ---------------------------------------------------------

  function IfPresent(nalu: seq<byte>): seq<seq<byte>> {
    if nalu == [] then [] else [nalu]
  }

  /** The units of a frame in the order the session hands them on. */
  function Ordered(f: VideoFrame): seq<seq<byte>> {
    IfPresent(f.sps) + IfPresent(f.pps) + f.slices
  }

  /** The shape of every parsed frame: units of the right kind without start codes. */
  ghost predicate WellSorted(f: VideoFrame) {
    && (f.sps == [] || (KindOf(f.sps) == Sps && Clean(f.sps)))
    && (f.pps == [] || (KindOf(f.pps) == Pps && Clean(f.pps)))
    && (forall k | 0 <= k < |f.slices| :: KindOf(f.slices[k]) == Slice && Clean(f.slices[k]))
  }

  lemma FrameWellSorted(prefix: seq<byte>, nalus: seq<seq<byte>>)
    requires AllClean(nalus)
    ensures WellSorted(FrameOf(prefix, nalus))
  {
    var f := FrameOf(prefix, nalus);
    if f.sps != [] {
      SelectSound(nalus, Sps, |Select(nalus, Sps)| - 1);
    }
    if f.pps != [] {
      SelectSound(nalus, Pps, |Select(nalus, Pps)| - 1);
    }
    forall k | 0 <= k < |f.slices|
      ensures KindOf(f.slices[k]) == Slice && Clean(f.slices[k])
    {
      SelectSound(nalus, Slice, k);
    }
  }

  lemma ParseWellSorted(payload: seq<byte>)
    ensures WellSorted(Parse(payload))
  {
    PiecesClean(payload, 0);
    var v := Pieces(payload, 0);
    FrameWellSorted(v[0], v[1..]);
  }

  lemma SelectIfPresent(nalu: seq<byte>, kind: Kind, wanted: Kind)
    requires nalu == [] || KindOf(nalu) == kind
    ensures Select(IfPresent(nalu), wanted) == if kind == wanted then IfPresent(nalu) else []
  {
    SelectUniform(IfPresent(nalu), kind, wanted);
  }

  lemma SelectOrdered(f: VideoFrame)
    requires WellSorted(f)
    ensures Select(Ordered(f), Sps) == IfPresent(f.sps)
    ensures Select(Ordered(f), Pps) == IfPresent(f.pps)
    ensures Select(Ordered(f), Slice) == f.slices
  {
    var a, b, c := IfPresent(f.sps), IfPresent(f.pps), f.slices;
    forall wanted: Kind
      ensures Select(Ordered(f), wanted) == Select(a, wanted) + Select(b, wanted) + Select(c, wanted)
    {
      SelectAppend(a + b, c, wanted);
      SelectAppend(a, b, wanted);
    }
    forall wanted: Kind
      ensures Select(a, wanted) == if wanted == Sps then a else []
      ensures Select(b, wanted) == if wanted == Pps then b else []
      ensures Select(c, wanted) == if wanted == Slice then c else []
    {
      SelectIfPresent(f.sps, Sps, wanted);
      SelectIfPresent(f.pps, Pps, wanted);
      SelectUniform(c, Slice, wanted);
    }
  }

  lemma OrderedClean(f: VideoFrame)
    requires WellSorted(f)
    ensures AllClean(Ordered(f))
  {
  }

  /**
  Parsing the re-serialised bytes of any parsed payload gives the same SPS,
  PPS, slices and keyframe flag; only the telemetry is gone.
  */
  lemma NormalForm(payload: seq<byte>)
    ensures var f := Parse(payload);
            var g := Parse(Serialize(Ordered(f)));
            && g == f.(prefix := [], captureMs := -1, sendMs := -1)
            && g.IsKeyframe() == f.IsKeyframe()
  {
    var f := Parse(payload);
    ParseWellSorted(payload);
    SelectOrdered(f);
    OrderedClean(f);
    SplitJoin([], Ordered(f));
    var s := Serialize(Ordered(f));
    assert [] + s == s;
    var v := Pieces(s, 0);
    assert v[1..] == Ordered(f);
    Telemetry.NoPrefixNoTimes();
  }

  // ----- The documented keyframe test -------------------------------------------------

  /** "Carries SPS and an IDR slice" (protocol/annexb.h). */
  predicate SpsAndIdr(f: VideoFrame) {
    f.sps != [] && exists k | 0 <= k < |f.slices| :: NaluType(f.slices[k]) == 5
  }

  /** A slice of type 1 with forbidden bit 0 and nal_ref_idc 0. */
  predicate HeaderOne(nalu: seq<byte>) { nalu != [] && nalu[0] == 1 }

  /** Without a slice behind header 0x01 a keyframe is exactly an SPS with an IDR slice. */
  lemma KeyframeIsSpsAndIdr(frame: VideoFrame)
    requires forall k | 0 <= k < |frame.slices| :: !HeaderOne(frame.slices[k])
    ensures frame.IsKeyframe() <==> SpsAndIdr(frame)
  {
    forall k | 0 <= k < |frame.slices|
      ensures KeySlice(frame.slices[k]) <==> NaluType(frame.slices[k]) == 5
    {
      if NaluType(frame.slices[k]) == 1 {
        assert !HeaderOne(frame.slices[k]);
        SliceHeader.OtherHeaderNeverSeven(frame.slices[k]);
      }
    }
  }

  /** An IDR slice, or no SPS, settles the answer whatever the other slices hold. */
  lemma KeyframeSettled(frame: VideoFrame)
    requires frame.sps == [] || SpsAndIdr(frame)
    ensures frame.IsKeyframe() <==> SpsAndIdr(frame)
  {
    if frame.sps != [] {
      var k :| 0 <= k < |frame.slices| && NaluType(frame.slices[k]) == 5;
      assert KeySlice(frame.slices[k]);
    }
  }

  /** Two pictures with the same SPS whose slices have the same header bytes. */
  ghost predicate SameHeaders(f: VideoFrame, g: VideoFrame) {
    && f.sps == g.sps
    && |f.slices| == |g.slices|
    && forall k | 0 <= k < |f.slices| :: f.slices[k] != [] && g.slices[k] != [] && f.slices[k][0] == g.slices[k][0]
  }

  lemma SameHeadersSameTest(f: VideoFrame, g: VideoFrame)
    requires SameHeaders(f, g)
    ensures SpsAndIdr(f) <==> SpsAndIdr(g)
    ensures forall k | 0 <= k < |f.slices| :: HeaderOne(f.slices[k]) <==> HeaderOne(g.slices[k])
  {
    forall k | 0 <= k < |f.slices|
      ensures NaluType(f.slices[k]) == NaluType(g.slices[k])
    {
    }
  }

  /** Three bytes behind which the slice type is read as 7. */
  const MISLEADING: seq<byte> := [0x01, 0x00, 0x20]

  lemma Misleading() returns (x: seq<byte>)
    ensures x == MISLEADING && HeaderOne(x) && Clean(x) && KindOf(x) == Slice && KeySlice(x) && NaluType(x) == 1
  {
    x := MISLEADING;
    SliceHeader.NonReferenceSliceCanBeSeven();
  }

  /** Behind a header 0x01 some content makes a picture without IDR slice a keyframe. */
  lemma HeaderOneMisleads(f: VideoFrame, k: nat) returns (g: VideoFrame)
    requires WellSorted(f) && f.sps != [] && !SpsAndIdr(f)
    requires k < |f.slices| && HeaderOne(f.slices[k])
    ensures SameHeaders(f, g) && WellSorted(g) && g.IsKeyframe() && !SpsAndIdr(g)
  {
    var x := Misleading();
    g := f.(slices := f.slices[k := x]);
    assert KeySlice(g.slices[k]);
    SameHeadersSameTest(f, g);
  }

  /**
  The keyframe flag means what its documentation says, for every content behind
  the given headers, if and only if there is no SPS, or an IDR slice, or no
  slice behind header 0x01.
  */
  lemma DocumentedKeyframeIff(f: VideoFrame)
    requires WellSorted(f)
    ensures (forall g | SameHeaders(f, g) && WellSorted(g) :: g.IsKeyframe() <==> SpsAndIdr(g)) <==>
            f.sps == [] || SpsAndIdr(f) || forall k | 0 <= k < |f.slices| :: !HeaderOne(f.slices[k])
  {
    if f.sps == [] || SpsAndIdr(f) || forall k | 0 <= k < |f.slices| :: !HeaderOne(f.slices[k]) {
      forall g | SameHeaders(f, g) && WellSorted(g)
        ensures g.IsKeyframe() <==> SpsAndIdr(g)
      {
        SameHeadersSameTest(f, g);
        if f.sps == [] || SpsAndIdr(f) {
          KeyframeSettled(g);
        } else {
          KeyframeIsSpsAndIdr(g);
        }
      }
    } else {
      var k: nat :| k < |f.slices| && HeaderOne(f.slices[k]);
      var g := HeaderOneMisleads(f, k);
    }
  }

  lemma SpsAndSlice(sps: seq<byte>, x: seq<byte>)
    requires KindOf(sps) == Sps && KindOf(x) == Slice && Clean(sps) && Clean(x)
    ensures var f := Parse(Serialize([sps, x])); f.sps == sps && f.slices == [x]
  {
    var nalus := [sps, x];
    SplitJoin([], nalus);
    assert [] + Serialize(nalus) == Serialize(nalus);
    assert Pieces(Serialize(nalus), 0)[1..] == nalus;
    SelectTwo(sps, x, Sps);
    SelectTwo(sps, x, Slice);
  }

  lemma SelectTwo(x: seq<byte>, y: seq<byte>, kind: Kind)
    ensures Select([x, y], kind) ==
            (if KindOf(x) == kind then [x] else []) + (if KindOf(y) == kind then [y] else [])
  {
    assert [x] + [y] == [x, y] && [] + [x] == [x];
    SelectSnoc([], x, kind);
    SelectSnoc([x], y, kind);
  }

  /** Any SPS and one non-reference slice of three bytes: a keyframe without an IDR slice. */
  lemma KeyframeWithoutIdr(sps: seq<byte>)
    requires KindOf(sps) == Sps && Clean(sps)
    ensures var f := Parse(Serialize([sps, MISLEADING]));
            f.sps == sps && f.slices == [MISLEADING] && f.IsKeyframe() && !SpsAndIdr(f)
  {
    var x := Misleading();
    SpsAndSlice(sps, x);
    var f := Parse(Serialize([sps, x]));
    assert KeySlice(f.slices[0]);
  }

  /** One such payload: twelve bytes. */
  lemma KeyframeExample()
    ensures var f := Parse([0, 0, 0, 1, 0x67, 0, 0, 0, 1, 0x01, 0x00, 0x20]);
            f.slices == [[0x01, 0x00, 0x20]] && f.IsKeyframe() && !SpsAndIdr(f)
  {
    SerializeTwo([0x67], MISLEADING);
    assert START_CODE + [0x67] + START_CODE + MISLEADING == [0, 0, 0, 1, 0x67, 0, 0, 0, 1, 0x01, 0x00, 0x20];
    KeyframeWithoutIdr([0x67]);
  }

  lemma SerializeTwo(x: seq<byte>, y: seq<byte>)
    ensures Serialize([x, y]) == START_CODE + x + START_CODE + y
  {
    assert [x, y][1..] == [y] && [y][1..] == [];
    assert Serialize([y]) == START_CODE + y + [] == START_CODE + y;
    ConcatAssoc(START_CODE + x, START_CODE, y);
  }

  function Kept(nalus: seq<seq<byte>>): seq<seq<byte>> {
    if nalus == [] then []
    else (if KindOf(nalus[0]) == Dropped then [] else [nalus[0]]) + Kept(nalus[1..])
  }

  function Rank(nalu: seq<byte>): int {
    match KindOf(nalu)
    case Sps => 0
    case Pps => 1
    case _ => 2
  }

  /** At most one SPS, then at most one PPS, then everything else. */
  ghost predicate InOrder(nalus: seq<seq<byte>>) {
    forall i, j | 0 <= i < j < |nalus| :: Rank(nalus[i]) < Rank(nalus[j]) || Rank(nalus[i]) == Rank(nalus[j]) == 2
  }

  lemma {:induction false} KeptSelect(nalus: seq<seq<byte>>, kind: Kind)
    requires kind != Dropped
    ensures Select(Kept(nalus), kind) == Select(nalus, kind)
    ensures forall k | 0 <= k < |Kept(nalus)| :: KindOf(Kept(nalus)[k]) != Dropped
    ensures AllClean(nalus) ==> AllClean(Kept(nalus))
  {
    if nalus != [] {
      KeptSelect(nalus[1..], kind);
      var head := if KindOf(nalus[0]) == Dropped then [] else [nalus[0]];
      SelectAppend(head, Kept(nalus[1..]), kind);
      if head != [] {
        SelectUniform(head, KindOf(nalus[0]), kind);
      }
    }
  }

  lemma NoSpsBehind(u: seq<seq<byte>>, k: nat)
    requires InOrder(u) && 0 < k < |u|
    ensures KindOf(u[k]) != Sps
  {
    assert Rank(u[0]) < Rank(u[k]) || Rank(u[0]) == Rank(u[k]) == 2;
  }

  lemma NoPpsBehind(u: seq<seq<byte>>, j: nat, k: nat)
    requires InOrder(u) && j < k < |u| && KindOf(u[j]) != Sps
    ensures KindOf(u[k]) != Pps
  {
    assert Rank(u[j]) < Rank(u[k]) || Rank(u[j]) == Rank(u[k]) == 2;
  }

  /** Units in order are an optional SPS, an optional PPS and slices. */
  lemma InOrderShape(u: seq<seq<byte>>) returns (f: VideoFrame)
    requires AllClean(u) && InOrder(u)
    requires forall k | 0 <= k < |u| :: KindOf(u[k]) != Dropped
    ensures WellSorted(f) && Ordered(f) == u
  {
    var sps := if |u| > 0 && KindOf(u[0]) == Sps then u[0] else [];
    var m := |IfPresent(sps)|;
    var pps := if |u| > m && KindOf(u[m]) == Pps then u[m] else [];
    var n := m + |IfPresent(pps)|;
    f := VideoFrame([], sps, pps, u[n..], -1, -1);
    assert IfPresent(sps) + IfPresent(pps) == u[..n];
    forall k | n <= k < |u|
      ensures KindOf(u[k]) == Slice
    {
      if k > 0 {
        NoSpsBehind(u, k);
      }
      if k > m {
        if m > 0 {
          NoSpsBehind(u, m);
        }
        NoPpsBehind(u, m, k);
      }
    }
  }

  lemma SameBytesSameUnits(a: seq<seq<byte>>, b: seq<seq<byte>>)
    requires AllClean(a) && AllClean(b) && Serialize(a) == Serialize(b)
    ensures a == b
  {
    SplitJoin([], a);
    SplitJoin([], b);
    assert ([[]] + a)[1..] == a && ([[]] + b)[1..] == b;
  }

  lemma KeptInOrder(prefix: seq<byte>, nalus: seq<seq<byte>>)
    requires AllClean(nalus) && InOrder(Kept(nalus))
    ensures Ordered(FrameOf(prefix, nalus)) == Kept(nalus)
  {
    KeptSelect(nalus, Sps);
    KeptSelect(nalus, Pps);
    KeptSelect(nalus, Slice);
    var g := InOrderShape(Kept(nalus));
    SelectOrdered(g);
    var f := FrameOf(prefix, nalus);
    assert f.sps == g.sps && f.pps == g.pps && f.slices == g.slices;
  }

  /**
  The re-serialised bytes are the payload's own units without telemetry, SEI
  and empty units exactly when the sender put the parameter sets first.
  */
  lemma WireOrderKeptIff(payload: seq<byte>)
    requires |Pieces(payload, 0)| > 1
    ensures var kept := Kept(Pieces(payload, 0)[1..]);
            Serialize(Ordered(Parse(payload))) == Serialize(kept) <==> InOrder(kept)
  {
    var v := Pieces(payload, 0);
    var kept, f := Kept(v[1..]), Parse(payload);
    PiecesClean(payload, 0);
    if InOrder(kept) {
      KeptInOrder(v[0], v[1..]);
    }
    if Serialize(Ordered(f)) == Serialize(kept) {
      ParseWellSorted(payload);
      OrderedClean(f);
      KeptSelect(v[1..], Slice);
      SameBytesSameUnits(Ordered(f), kept);
      OrderedInOrder(f);
    }
  }

  /** A slice followed by an SPS leaves in the other order. */
  lemma SpsHoisted(x: seq<byte>, sps: seq<byte>)
    requires KindOf(x) == Slice && KindOf(sps) == Sps && Clean(x) && Clean(sps)
    ensures Ordered(Parse(Serialize([x, sps]))) == [sps, x]
  {
    var nalus := [x, sps];
    SplitJoin([], nalus);
    assert [] + Serialize(nalus) == Serialize(nalus);
    assert Pieces(Serialize(nalus), 0)[1..] == nalus;
    SelectTwo(x, sps, Sps);
    SelectTwo(x, sps, Pps);
    SelectTwo(x, sps, Slice);
  }

  /** Ten bytes that the session hands on as ten other ones. */
  lemma HoistedExample()
    ensures var payload: seq<byte> := [0, 0, 0, 1, 0x65, 0, 0, 0, 1, 0x67];
            Serialize(Ordered(Parse(payload))) == [0, 0, 0, 1, 0x67, 0, 0, 0, 1, 0x65] != payload
  {
    SerializeTwo([0x65], [0x67]);
    SerializeTwo([0x67], [0x65]);
    assert START_CODE + [0x65] + START_CODE + [0x67] == [0, 0, 0, 1, 0x65, 0, 0, 0, 1, 0x67];
    assert START_CODE + [0x67] + START_CODE + [0x65] == [0, 0, 0, 1, 0x67, 0, 0, 0, 1, 0x65];
    OneByteUnits();
    SpsHoisted([0x65], [0x67]);
  }

  lemma OneByteUnits()
    ensures KindOf([0x65]) == Slice && KindOf([0x67]) == Sps && Clean([0x65]) && Clean([0x67])
  {
  }

  lemma OrderedInOrder(f: VideoFrame)
    requires WellSorted(f)
    ensures InOrder(Ordered(f))
  {
  }
}
