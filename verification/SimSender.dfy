/**
The sender half (tools/sim_sender.py): splitting an Annex-B file, grouping its
NAL units into access units, and sending each behind its telemetry.
*/
module SimSender {
  import opened Bytes
  import opened AnnexB
  import FrameRuns
  import Framing
  import Session
  import Telemetry
  import Text
  import WireDelivery

  /** Offsets of a NAL unit in the file, its start code excluded. */
  datatype Range = Range(start: nat, end: nat)

  ghost predicate Within(data: seq<byte>, r: Range) { 4 <= r.start < r.end <= |data| }

  function Content(data: seq<byte>, r: Range): seq<byte> {
    if r.start <= r.end <= |data| then data[r.start..r.end] else []
  }

  function Starts(data: seq<byte>): seq<nat> { StartsFrom(data, 0) }

  /** The unit behind start code k reaches to the next start code or the end of the file. */
  function RangeAt(data: seq<byte>, k: nat): (r: Range)
    requires k < |Starts(data)|
    ensures 4 <= r.start <= r.end <= |data|
    ensures |Pieces(data, 0)| == |Starts(data)| + 1 && Content(data, r) == Pieces(data, 0)[k + 1]
  {
    PieceBounds(data, 0, k + 1);
    StartsSound(data, 0, k);
    var v := Starts(data);
    Range(v[k], if k + 1 < |v| then v[k + 1] - 4 else |data|)
  }

  /** The non-empty units behind start codes i to k - 1. */
  function Ranges(data: seq<byte>, i: nat, k: nat): (v: seq<Range>)
    requires i <= k <= |Starts(data)|
    ensures forall j | 0 <= j < |v| :: Within(data, v[j])
    decreases k
  {
    if i == k then []
    else
      var r := RangeAt(data, k - 1);
      Ranges(data, i, k - 1) + (if r.end > r.start then [r] else [])
  }

  method SplitNalus(data: seq<byte>) returns (nalus: seq<Range>)
    ensures nalus == Ranges(data, 0, |Starts(data)|)
  {
    var starts := FindStarts(data);
    nalus := [];
    var k := 0;
    while k < |starts|
      invariant 0 <= k <= |starts|
      invariant nalus == Ranges(data, 0, k)
    {
      ghost var r := RangeAt(data, k);
      var s := starts[k];
      var e := if k + 1 < |starts| then starts[k + 1] - 4 else |data|;
      if e > s {
        nalus := nalus + [Range(s, e)];
      }
      k := k + 1;
    }
  }

  // ----- Access units -----------------------------------------------------------------

  const VCL_TYPES := {1, 4, 5, 19, 20}

  predicate IsVcl(nalu: seq<byte>) { NaluType(nalu) in VCL_TYPES }

  predicate VclRange(data: seq<byte>, r: Range) { IsVcl(Content(data, r)) }

  datatype Grouped = Grouped(units: seq<seq<Range>>, pending: seq<Range>)

  function Group(data: seq<byte>, nalus: seq<Range>): Grouped {
    if nalus == [] then Grouped([], [])
    else
      var g, r := Group(data, nalus[..|nalus| - 1]), nalus[|nalus| - 1];
      if VclRange(data, r) then Grouped(g.units + [g.pending + [r]], [])
      else g.(pending := g.pending + [r])
  }

  method BuildAccessUnits(data: seq<byte>) returns (aus: seq<seq<Range>>)
    ensures aus == Group(data, Ranges(data, 0, |Starts(data)|)).units
  {
    var nalus := SplitNalus(data);
    var pending := [];
    aus := [];
    var i := 0;
    while i < |nalus|
      invariant 0 <= i <= |nalus|
      invariant Group(data, nalus[..i]) == Grouped(aus, pending)
    {
      GroupNext(data, nalus, i);
      assert Within(data, nalus[i]);
      var t := data[nalus[i].start] % 32;
      if t in VCL_TYPES {
        aus := aus + [pending + [nalus[i]]];
        pending := [];
      } else {
        pending := pending + [nalus[i]];
      }
      i := i + 1;
    }
    assert nalus[..i] == nalus;
  }

  lemma GroupNext(data: seq<byte>, nalus: seq<Range>, i: nat)
    requires i < |nalus|
    ensures var g, r := Group(data, nalus[..i]), nalus[i];
            Group(data, nalus[..i + 1]) ==
            if VclRange(data, r) then Grouped(g.units + [g.pending + [r]], []) else g.(pending := g.pending + [r])
  {
    assert nalus[..i + 1] == nalus[..i] + [nalus[i]];
    GroupSnoc(data, nalus[..i], nalus[i]);
  }

  /** The header byte says one of the five slice types. */
  predicate CodedSlice(x: seq<byte>) {
    x != [] && (x[0] % 32 == 1 || x[0] % 32 == 4 || x[0] % 32 == 5 || x[0] % 32 == 19 || x[0] % 32 == 20)
  }

  lemma VclIsCoded(nalu: seq<byte>)
    ensures IsVcl(nalu) <==> CodedSlice(nalu)
  {
  }

  /** A unit whose last NAL unit is its only coded slice. */
  ghost predicate EndsInOnlyVcl(data: seq<byte>, au: seq<Range>) {
    && au != []
    && (forall j | 0 <= j < |au| :: CodedSlice(Content(data, au[j])) <==> j == |au| - 1)
  }

  ghost predicate NoVcl(data: seq<byte>, nalus: seq<Range>) {
    forall j | 0 <= j < |nalus| :: !CodedSlice(Content(data, nalus[j]))
  }

  lemma GroupSnoc(data: seq<byte>, nalus: seq<Range>, r: Range)
    ensures var g := Group(data, nalus);
            Group(data, nalus + [r]) ==
            if VclRange(data, r) then Grouped(g.units + [g.pending + [r]], []) else g.(pending := g.pending + [r])
  {
    assert (nalus + [r])[..|nalus|] == nalus;
  }

  /** What grouping keeps. */
  ghost predicate Partitions(data: seq<byte>, g: Grouped, nalus: seq<Range>) {
    && Flatten(g.units) + g.pending == nalus
    && NoVcl(data, g.pending)
    && forall k | 0 <= k < |g.units| :: EndsInOnlyVcl(data, g.units[k])
  }

  lemma AddSlice(data: seq<byte>, g: Grouped, nalus: seq<Range>, r: Range)
    requires Partitions(data, g, nalus) && VclRange(data, r)
    ensures Partitions(data, Grouped(g.units + [g.pending + [r]], []), nalus + [r])
  {
    var au := g.pending + [r];
    ConcatAssoc(Flatten(g.units), g.pending, [r]);
    FlattenAppend(g.units, [au]);
    FlattenSingle(au);
    assert Flatten(g.units + [au]) + [] == nalus + [r];
    SliceEnds(data, g.pending, r);
    forall k | 0 <= k < |g.units + [au]|
      ensures EndsInOnlyVcl(data, (g.units + [au])[k])
    {
      assert (g.units + [au])[k] == if k < |g.units| then g.units[k] else au;
    }
  }

  lemma SliceEnds(data: seq<byte>, pending: seq<Range>, r: Range)
    requires NoVcl(data, pending) && VclRange(data, r)
    ensures EndsInOnlyVcl(data, pending + [r])
  {
    var au := pending + [r];
    VclIsCoded(Content(data, r));
    forall j | 0 <= j < |au|
      ensures CodedSlice(Content(data, au[j])) <==> j == |au| - 1
    {
      assert au[j] == if j < |pending| then pending[j] else r;
    }
  }

  lemma AddOther(data: seq<byte>, g: Grouped, nalus: seq<Range>, r: Range)
    requires Partitions(data, g, nalus) && !VclRange(data, r)
    ensures Partitions(data, g.(pending := g.pending + [r]), nalus + [r])
  {
    ConcatAssoc(Flatten(g.units), g.pending, [r]);
  }

  /** The access units, each ending in its only slice, are the file's NAL units up to its last slice. */
  lemma {:induction false} UnitsPartition(data: seq<byte>, nalus: seq<Range>)
    ensures Partitions(data, Group(data, nalus), nalus)
  {
    if nalus != [] {
      var before, r := nalus[..|nalus| - 1], nalus[|nalus| - 1];
      assert nalus == before + [r];
      UnitsPartition(data, before);
      GroupSnoc(data, before, r);
      if VclRange(data, r) {
        AddSlice(data, Group(data, before), before, r);
      } else {
        AddOther(data, Group(data, before), before, r);
      }
    }
  }

  // ----- What a unit's bytes are ----------------------------------------------------------

  function Contents(data: seq<byte>, nalus: seq<Range>): seq<seq<byte>> {
    seq(|nalus|, j requires 0 <= j < |nalus| => Content(data, nalus[j]))
  }

  function NonEmpty(v: seq<seq<byte>>): seq<seq<byte>> {
    if v == [] then []
    else NonEmpty(v[..|v| - 1]) + (if v[|v| - 1] == [] then [] else [v[|v| - 1]])
  }

  lemma NonEmptySnoc(v: seq<seq<byte>>, x: seq<byte>)
    ensures NonEmpty(v + [x]) == if x == [] then NonEmpty(v) else NonEmpty(v) + [x]
  {
    assert (v + [x])[..|v|] == v;
    assert NonEmpty(v) + [] == NonEmpty(v);
  }

  /** The slices among some pieces do not depend on the empty ones. */
  lemma {:induction false} SelectNonEmpty(v: seq<seq<byte>>, kind: Kind)
    requires kind != Dropped
    ensures Select(v, kind) == Select(NonEmpty(v), kind)
  {
    if v != [] {
      var before, x := v[..|v| - 1], v[|v| - 1];
      assert v == before + [x];
      SelectNonEmpty(before, kind);
      NonEmptySnoc(before, x);
      SelectSnoc(before, x, kind);
      SelectSnoc(NonEmpty(before), x, kind);
    }
  }

  /** One more range adds its content unless it is empty. */
  lemma ContentsSnoc(data: seq<byte>, before: seq<Range>, r: Range, v: seq<seq<byte>>)
    requires Contents(data, before) == NonEmpty(v) && r.start <= r.end <= |data|
    ensures Contents(data, before + (if r.end > r.start then [r] else [])) == NonEmpty(v + [Content(data, r)])
  {
    NonEmptySnoc(v, Content(data, r));
    if r.end > r.start {
      assert Contents(data, before + [r]) == Contents(data, before) + [Content(data, r)];
    } else {
      assert before + [] == before;
    }
  }

  /** The non-empty pieces of a stretch of the file are the contents of its ranges. */
  lemma {:induction false} RangesContents(data: seq<byte>, i: nat, k: nat)
    requires i <= k <= |Starts(data)| == |Pieces(data, 0)| - 1
    ensures Contents(data, Ranges(data, i, k)) == NonEmpty(Pieces(data, 0)[i + 1..k + 1])
    decreases k
  {
    if i < k {
      var v, r := Pieces(data, 0), RangeAt(data, k - 1);
      RangesContents(data, i, k - 1);
      ContentsSnoc(data, Ranges(data, i, k - 1), r, v[i + 1..k]);
      ManyAndLast(v, i + 1, k);
    }
  }

  lemma ManyAndLast(v: seq<seq<byte>>, i: nat, k: nat)
    requires i <= k < |v|
    ensures v[i..k + 1] == v[i..k] + [v[k]]
  {
  }

  lemma {:induction false} RangesSplit(data: seq<byte>, i: nat, j: nat, k: nat)
    requires i <= j <= k <= |Starts(data)|
    ensures Ranges(data, i, k) == Ranges(data, i, j) + Ranges(data, j, k)
    decreases k
  {
    if j < k {
      RangesSplit(data, i, j, k - 1);
    }
  }

  /** The bytes from start code i to the end of unit k - 1 are these units, serialised. */
  ghost predicate IsSegment(data: seq<byte>, i: nat, k: nat, w: seq<seq<byte>>)
    requires i < k <= |Starts(data)|
  {
    Holds(data, RangeAt(data, i).start - 4, RangeAt(data, k - 1).end, w)
  }

  ghost predicate Holds(data: seq<byte>, s: nat, e: nat, w: seq<seq<byte>>) {
    s <= e <= |data| && data[s..e] == Serialize(w)
  }

  /** From start code i to the end of unit k - 1 the file is exactly those units, serialised. */
  lemma {:induction false} Segment(data: seq<byte>, i: nat, k: nat)
    requires i < k <= |Starts(data)| == |Pieces(data, 0)| - 1
    ensures IsSegment(data, i, k, Pieces(data, 0)[i + 1..k + 1])
    decreases k - i
  {
    if i + 1 == k {
      LastSegment(data, i);
    } else {
      Segment(data, i + 1, k);
      LongerSegment(data, i, k, Pieces(data, 0));
    }
  }

  lemma LastSegment(data: seq<byte>, i: nat)
    requires i < |Starts(data)| == |Pieces(data, 0)| - 1
    ensures IsSegment(data, i, i + 1, Pieces(data, 0)[i + 1..i + 2])
  {
    var v := Pieces(data, 0);
    AtStartCode(data, i);
    OneSegment(data, RangeAt(data, i), v[i + 1]);
    assert v[i + 1..i + 2] == [v[i + 1]];
  }

  lemma LongerSegment(data: seq<byte>, i: nat, k: nat, v: seq<seq<byte>>)
    requires i + 1 < k <= |Starts(data)| == |v| - 1 && v == Pieces(data, 0)
    requires IsSegment(data, i + 1, k, v[i + 2..k + 1])
    ensures IsSegment(data, i, k, v[i + 1..k + 1])
  {
    var r := RangeAt(data, i);
    AtStartCode(data, i);
    OneSegment(data, r, v[i + 1]);
    SegmentStep(data, r, RangeAt(data, k - 1).end, v, i + 1, k + 1);
  }

  /** A unit follows its start code and ends where the next start code begins. */
  lemma AtStartCode(data: seq<byte>, i: nat)
    requires i < |Starts(data)|
    ensures StartCodeAt(data, RangeAt(data, i).start - 4)
    ensures i + 1 < |Starts(data)| ==> RangeAt(data, i + 1).start - 4 == RangeAt(data, i).end
  {
    StartsSound(data, 0, i);
  }

  lemma SegmentStep(data: seq<byte>, r: Range, e: nat, v: seq<seq<byte>>, i: nat, k: nat)
    requires i < k <= |v| && 4 <= r.start <= r.end <= |data|
    requires data[r.start - 4..r.end] == START_CODE + v[i]
    requires Holds(data, r.end, e, v[i + 1..k])
    ensures Holds(data, r.start - 4, e, v[i..k])
  {
    assert v[i..k][0] == v[i] && v[i..k][1..] == v[i + 1..k];
    assert data[r.start - 4..e] == data[r.start - 4..r.end] + data[r.end..e];
  }

  lemma OneSegment(data: seq<byte>, r: Range, x: seq<byte>)
    requires 4 <= r.start <= r.end <= |data| && StartCodeAt(data, r.start - 4)
    requires x == Content(data, r)
    ensures data[r.start - 4..r.end] == START_CODE + x == Serialize([x])
  {
    assert data[r.start - 4..r.start] == START_CODE;
    assert data[r.start - 4..r.end] == data[r.start - 4..r.start] + data[r.start..r.end];
    assert [x][1..] == [];
  }

  lemma SliceFront<T>(a: seq<T>, b: seq<T>, i: nat, j: nat)
    requires i <= j <= |a|
    ensures (a + b)[i..j] == a[i..j] && (a + b)[..j] == a[..j]
  {
  }

  lemma SliceBehind<T>(a: seq<T>, b: seq<T>, i: nat, j: nat)
    requires i <= j <= |b|
    ensures (a + b)[|a| + i..|a| + j] == b[i..j]
  {
  }

  /** Unit a of the first n start codes' units is the one behind start code i. */
  ghost predicate LocatedAt(data: seq<byte>, n: nat, a: nat, i: nat)
    requires n <= |Starts(data)| && a < |Ranges(data, 0, n)|
  {
    && i < n && RangeAt(data, i) == Ranges(data, 0, n)[a]
    && Ranges(data, 0, i) == Ranges(data, 0, n)[..a]
    && Ranges(data, 0, i + 1) == Ranges(data, 0, n)[..a + 1]
  }

  /** Where the a-th unit of the file begins among all its pieces. */
  lemma {:induction false} Locate(data: seq<byte>, n: nat, a: nat) returns (i: nat)
    requires n <= |Starts(data)| && a < |Ranges(data, 0, n)|
    ensures LocatedAt(data, n, a, i)
    decreases n
  {
    RangesLast(data, n);
    if a < |Ranges(data, 0, n - 1)| {
      i := Locate(data, n - 1, a);
      LocatedBefore(data, n, a, i);
    } else {
      i := n - 1;
      LocatedLast(data, n, a);
    }
  }

  function LastOf(data: seq<byte>, n: nat): seq<Range>
    requires 0 < n <= |Starts(data)|
  {
    var r := RangeAt(data, n - 1);
    if r.end > r.start then [r] else []
  }

  lemma RangesLast(data: seq<byte>, n: nat)
    requires n <= |Starts(data)| && Ranges(data, 0, n) != []
    ensures n > 0 && Ranges(data, 0, n) == Ranges(data, 0, n - 1) + LastOf(data, n)
  {
  }

  lemma LocatedBefore(data: seq<byte>, n: nat, a: nat, i: nat)
    requires 0 < n <= |Starts(data)| && a < |Ranges(data, 0, n - 1)| && LocatedAt(data, n - 1, a, i)
    requires Ranges(data, 0, n) == Ranges(data, 0, n - 1) + LastOf(data, n)
    ensures a < |Ranges(data, 0, n)| && LocatedAt(data, n, a, i)
  {
    SliceFront(Ranges(data, 0, n - 1), LastOf(data, n), 0, a);
    SliceFront(Ranges(data, 0, n - 1), LastOf(data, n), 0, a + 1);
  }

  lemma LocatedLast(data: seq<byte>, n: nat, a: nat)
    requires 0 < n <= |Starts(data)| && |Ranges(data, 0, n - 1)| <= a < |Ranges(data, 0, n)|
    requires Ranges(data, 0, n) == Ranges(data, 0, n - 1) + LastOf(data, n)
    ensures LocatedAt(data, n, a, n - 1)
  {
    var before, r := Ranges(data, 0, n - 1), RangeAt(data, n - 1);
    assert LastOf(data, n) == [r];
    EndOf(before, r);
  }

  lemma EndOf(before: seq<Range>, r: Range)
    ensures (before + [r])[..|before|] == before && (before + [r])[..|before| + 1] == before + [r]
  {
  }

  function Nalus(data: seq<byte>): seq<Range> { Ranges(data, 0, |Starts(data)|) }

  /** Consecutive units are consecutive pieces of the file, with empty ones between them. */
  lemma Stretch(data: seq<byte>, a: nat, b: nat) returns (i: nat, k: nat)
    requires a < b <= |Nalus(data)|
    ensures i < k <= |Starts(data)|
    ensures Ranges(data, i, k) == Nalus(data)[a..b]
    ensures RangeAt(data, i) == Nalus(data)[a] && RangeAt(data, k - 1) == Nalus(data)[b - 1]
  {
    var n := |Starts(data)|;
    i := Locate(data, n, a);
    var j := Locate(data, n, b - 1);
    k := j + 1;
    ShorterEarlier(data, i, k);
    RangesSplit(data, 0, i, k);
    MiddleOf(Nalus(data), a, b, Ranges(data, i, k));
  }

  lemma ShorterEarlier(data: seq<byte>, i: nat, k: nat)
    requires i <= |Starts(data)| && k <= |Starts(data)|
    requires |Ranges(data, 0, i)| < |Ranges(data, 0, k)|
    ensures i < k
  {
    if k <= i {
      RangesSplit(data, 0, k, i);
    }
  }

  lemma MiddleOf(v: seq<Range>, a: nat, b: nat, m: seq<Range>)
    requires a <= b <= |v| && v[..b] == v[..a] + m
    ensures m == v[a..b]
  {
    assert v[..b][a..] == m;
  }

  /** The bytes sent for a unit: from its first start code to the end of its last NAL unit. */
  function Blob(data: seq<byte>, au: seq<Range>): seq<byte> {
    if au != [] && 4 <= au[0].start <= au[|au| - 1].end <= |data| then data[au[0].start - 4..au[|au| - 1].end] else []
  }

  method SendVideo(data: seq<byte>, au: seq<Range>, telemetry: seq<byte>) returns (payload: seq<byte>)
    requires au != [] && 4 <= au[0].start <= au[|au| - 1].end <= |data|
    ensures payload == telemetry + Blob(data, au)
  {
    var s := au[0].start - 4;
    var e := au[|au| - 1].end;
    payload := telemetry + data[s..e];
  }

  /** What is sent for consecutive units is those units, serialised, give or take empty ones. */
  lemma BlobUnits(data: seq<byte>, a: nat, au: seq<Range>) returns (w: seq<seq<byte>>)
    requires au != [] && a + |au| <= |Nalus(data)| && au == Nalus(data)[a..a + |au|]
    ensures Blob(data, au) == Serialize(w) && AllClean(w) && NonEmpty(w) == Contents(data, au)
  {
    var i, k := Stretch(data, a, a + |au|);
    assert au[0] == RangeAt(data, i) && au[|au| - 1] == RangeAt(data, k - 1);
    w := Pieces(data, 0)[i + 1..k + 1];
    PiecesClean(data, 0);
    Segment(data, i, k);
    RangesContents(data, i, k);
  }

  /** Unit k is a stretch of the flattened list. */
  lemma {:induction false} UnitStretch(units: seq<seq<Range>>, k: nat) returns (a: nat)
    requires k < |units|
    ensures a + |units[k]| <= |Flatten(units)|
    ensures Flatten(units)[a..a + |units[k]|] == units[k]
    decreases |units|
  {
    if k == 0 {
      a := 0;
    } else {
      var m := UnitStretch(units[1..], k - 1);
      a := |units[0]| + m;
      SliceBehind(units[0], Flatten(units[1..]), m, m + |units[k]|);
    }
  }

  function Units(data: seq<byte>): seq<seq<Range>> { Group(data, Nalus(data)).units }

  lemma UnitIn(data: seq<byte>, k: nat, au: seq<Range>) returns (a: nat)
    requires k < |Units(data)| && au == Units(data)[k]
    ensures EndsInOnlyVcl(data, au)
    ensures a + |au| <= |Nalus(data)| && au == Nalus(data)[a..a + |au|]
  {
    UnitsPartition(data, Nalus(data));
    var g := Group(data, Nalus(data));
    a := UnitStretch(g.units, k);
    SliceFront(Flatten(g.units), g.pending, a, a + |au|);
  }

  lemma {:induction false} UnitBlob(data: seq<byte>, k: nat, au: seq<Range>) returns (w: seq<seq<byte>>)
    requires k < |Units(data)| && au == Units(data)[k]
    ensures Blob(data, au) == Serialize(w) && AllClean(w) && NonEmpty(w) == Contents(data, au)
  {
    var a := UnitIn(data, k, au);
    w := BlobUnits(data, a, au);
  }

  /**
  The receiver gets an access unit behind any telemetry as a picture with
  exactly the unit's slices and times.
  */
  lemma {:induction false} UnitReceived(data: seq<byte>, k: nat, telemetry: seq<byte>)
    requires k < |Units(data)| && Clean(telemetry)
    ensures var au := Units(data)[k];
            var f := Parse(telemetry + Blob(data, au));
            && f.slices == Select(Contents(data, au), AnnexB.Slice)
            && (f.captureMs, f.sendMs) == Telemetry.Times(telemetry)
            && !f.IsEmpty()
  {
    var au := Units(data)[k];
    var w := UnitBlob(data, k, au);
    SplitJoin(telemetry, w);
    assert ([telemetry] + w)[1..] == w;
    SelectNonEmpty(w, AnnexB.Slice);
    var a := UnitIn(data, k, au);
    LastIsSlice(Contents(data, au));
    assert w != [];
  }

  lemma LastIsSlice(v: seq<seq<byte>>)
    requires v != [] && IsVcl(v[|v| - 1])
    ensures Select(v, AnnexB.Slice) != []
  {
    var before, x := v[..|v| - 1], v[|v| - 1];
    assert v == before + [x];
    SelectSnoc(before, x, AnnexB.Slice);
  }

  /** All slices the receiver gets when unit k travels behind telemetry[k]. */
  function ReceivedSlices(data: seq<byte>, units: seq<seq<Range>>, telemetry: seq<seq<byte>>): seq<seq<byte>>
    requires |units| == |telemetry|
    decreases |units|
  {
    if units == [] then []
    else Parse(telemetry[0] + Blob(data, units[0])).slices + ReceivedSlices(data, units[1..], telemetry[1..])
  }

  lemma ContentsAppend(data: seq<byte>, a: seq<Range>, b: seq<Range>)
    ensures Contents(data, a + b) == Contents(data, a) + Contents(data, b)
  {
  }

  lemma {:induction false} UnitsReceived(data: seq<byte>, k: nat, telemetry: seq<seq<byte>>)
    requires k <= |Units(data)| && |telemetry| == |Units(data)| - k && AllClean(telemetry)
    ensures ReceivedSlices(data, Units(data)[k..], telemetry) ==
            Select(Contents(data, Flatten(Units(data)[k..])), AnnexB.Slice)
    decreases |telemetry|
  {
    if telemetry != [] {
      var units := Units(data)[k..];
      assert units[1..] == Units(data)[k + 1..];
      UnitsReceived(data, k + 1, telemetry[1..]);
      UnitReceived(data, k, telemetry[0]);
      SlicesSplit(data, units[0], Flatten(units[1..]));
    }
  }

  /**
  Sending every unit of a file delivers exactly the file's NAL units that are
  neither SEI, SPS nor PPS, in order, up to those behind its last slice.
  */
  lemma {:induction false} FileReceived(data: seq<byte>, telemetry: seq<seq<byte>>)
    requires |telemetry| == |Units(data)| && AllClean(telemetry)
    ensures var pending := Group(data, Nalus(data)).pending;
            && NoVcl(data, pending)
            && ReceivedSlices(data, Units(data), telemetry) + Select(Contents(data, pending), AnnexB.Slice) ==
               Select(Pieces(data, 0)[1..], AnnexB.Slice)
  {
    var g := Group(data, Nalus(data));
    UnitsPartition(data, Nalus(data));
    assert Units(data)[0..] == Units(data);
    UnitsReceived(data, 0, telemetry);
    SlicesSplit(data, Flatten(g.units), g.pending);
    SlicesOfFile(data);
  }

  lemma SlicesSplit(data: seq<byte>, a: seq<Range>, b: seq<Range>)
    ensures Select(Contents(data, a + b), AnnexB.Slice) ==
            Select(Contents(data, a), AnnexB.Slice) + Select(Contents(data, b), AnnexB.Slice)
  {
    ContentsAppend(data, a, b);
    SelectAppend(Contents(data, a), Contents(data, b), AnnexB.Slice);
  }

  lemma AllContents(data: seq<byte>)
    ensures Contents(data, Nalus(data)) == NonEmpty(Pieces(data, 0)[1..])
  {
    var n := |Starts(data)|;
    PieceCount(data, 0);
    RangesContents(data, 0, n);
    ToTheEnd(Pieces(data, 0), n);
  }

  lemma ToTheEnd(v: seq<seq<byte>>, n: nat)
    requires |v| == n + 1
    ensures v[0 + 1..n + 1] == v[1..]
  {
  }

  lemma SlicesOfFile(data: seq<byte>)
    ensures Select(Contents(data, Nalus(data)), AnnexB.Slice) == Select(Pieces(data, 0)[1..], AnnexB.Slice)
  {
    AllContents(data);
    SelectNonEmpty(Pieces(data, 0)[1..], AnnexB.Slice);
  }

  /** The telemetry a sender writes holds no start code. */
  lemma TelemetryClean(captureMs: int, sendMs: int)
    requires Telemetry.IsInt64(captureMs) && Telemetry.IsInt64(sendMs)
    ensures Text.IsByteText(Telemetry.TelemetryText(captureMs, sendMs))
    ensures var prefix := Text.AsBytes(Telemetry.TelemetryText(captureMs, sendMs));
            Clean(prefix) && Telemetry.Times(prefix) == (captureMs, sendMs)
  {
    Telemetry.TelemetryReadBack(captureMs, sendMs);
    var prefix := Text.AsBytes(Telemetry.TelemetryText(captureMs, sendMs));
    assert forall i | 0 <= i < |prefix| :: prefix[i] != 0;
  }

  /** The wire item that sends a unit: its telemetry and the NAL units in its bytes. */
  function UnitItem(data: seq<byte>, au: seq<Range>, telemetry: seq<byte>): WireDelivery.Item {
    WireDelivery.VideoItem(telemetry, Pieces(Blob(data, au), 0)[1..])
  }

  /** A unit behind clean telemetry is an item the wire delivers, whatever the cutting, as the receiver parses it. */
  lemma {:induction false} UnitDeliverable(data: seq<byte>, k: nat, telemetry: seq<byte>)
    requires k < |Units(data)| && Clean(telemetry)
    requires |telemetry| + |Blob(data, Units(data)[k])| <= Framing.MAX_FRAME_SIZE
    ensures var item, payload := UnitItem(data, Units(data)[k], telemetry), telemetry + Blob(data, Units(data)[k]);
            && WireDelivery.Payload(item) == payload
            && WireDelivery.Deliverable(item)
            && WireDelivery.Expected(item) == Session.OnVideo(Session.SampleOf(Parse(payload), 0))
  {
    var au := Units(data)[k];
    var w := UnitBlob(data, k, au);
    UnitPieces(Blob(data, au), w);
    var a := UnitIn(data, k, au);
    SelectNonEmpty(w, AnnexB.Slice);
    LastIsSlice(Contents(data, au));
    ParsedUnit(telemetry, w);
  }

  lemma UnitPieces(blob: seq<byte>, w: seq<seq<byte>>)
    requires blob == Serialize(w) && AllClean(w)
    ensures Pieces(blob, 0)[1..] == w
  {
    SplitJoin([], w);
    assert [] + blob == blob;
  }

  lemma ParsedUnit(telemetry: seq<byte>, w: seq<seq<byte>>)
    requires Clean(telemetry) && AllClean(w) && w != []
    ensures Parse(telemetry + Serialize(w)) == FrameOf(telemetry, w)
  {
    SplitJoin(telemetry, w);
    assert ([telemetry] + w)[1..] == w;
  }

  /** Every unit of the file in order, unit k behind telemetry[k]. */
  function FileItems(data: seq<byte>, telemetry: seq<seq<byte>>): (items: seq<WireDelivery.Item>)
    requires |telemetry| == |Units(data)|
    ensures |items| == |telemetry|
  {
    seq(|telemetry|, k requires 0 <= k < |telemetry| => UnitItem(data, Units(data)[k], telemetry[k]))
  }

  ghost predicate Sendable(data: seq<byte>, telemetry: seq<seq<byte>>)
    requires |telemetry| == |Units(data)|
  {
    AllClean(telemetry) &&
    forall k | 0 <= k < |telemetry| :: |telemetry[k]| + |Blob(data, Units(data)[k])| <= Framing.MAX_FRAME_SIZE
  }

  /**
  A file through the whole receiver: however the units' frames are cut into
  reads, if no read exposes a payload, the session's callbacks are one picture
  per unit, each as the receiver parses it, in file order and nothing else.
  */
  lemma FileDelivered(data: seq<byte>, telemetry: seq<seq<byte>>, now: int, turns: seq<Session.Turn>)
    requires |telemetry| == |Units(data)| && Sendable(data, telemetry)
    requires var taken := WireDelivery.Reads(Session.State([], now, now), turns);
             && Flatten(taken) == Framing.Wire(WireDelivery.Payloads(FileItems(data, telemetry)))
             && FrameRuns.CleanReads([], taken)
    ensures var events := WireDelivery.Callbacks(Session.Run(Session.State([], now, now), turns));
            && |events| == |Units(data)|
            && forall k | 0 <= k < |events| ::
                 events[k] ==
                 Session.OnVideo(Session.SampleOf(Parse(telemetry[k] + Blob(data, Units(data)[k])), 0))
  {
    var items := FileItems(data, telemetry);
    forall k | 0 <= k < |items|
      ensures WireDelivery.Deliverable(items[k])
      ensures WireDelivery.Expected(items[k]) ==
              Session.OnVideo(Session.SampleOf(Parse(telemetry[k] + Blob(data, Units(data)[k])), 0))
    {
      UnitDeliverable(data, k, telemetry[k]);
    }
    var wire := Framing.Wire(WireDelivery.Payloads(items));
    assert wire + [] == wire;
    WireDelivery.LoopDeliversItems(now, turns, items, []);
  }
}
