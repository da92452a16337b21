/**
What becomes of a payload, told by the header bytes of its NAL units alone: the
parsed picture, the sample handed to the video callback, its keyframe flag and
its clock (protocol/annexb.cpp, net/session.cpp).
*/
module Payloads {
  import opened Bytes
  import opened AnnexB
  import opened Session
  import Control
  import Demux
  import Telemetry
  import Text
  import WireDelivery

  /** nal_unit_type, the low five bits of the header byte. */
  predicate HasType(nalu: seq<byte>, t: int) { nalu != [] && nalu[0] % 32 == t }

  ghost predicate HasUnit(nalus: seq<seq<byte>>, t: int) {
    exists k | 0 <= k < |nalus| :: HasType(nalus[k], t)
  }

  /** The last unit of a type, empty when there is none. */
  function LastOf(nalus: seq<seq<byte>>, t: int): seq<byte> {
    if nalus == [] then []
    else
      var x := nalus[|nalus| - 1];
      if HasType(x, t) then x else LastOf(nalus[..|nalus| - 1], t)
  }

  /** Neither empty nor SEI (6), SPS (7) or PPS (8). */
  predicate Other(x: seq<byte>) { x != [] && x[0] % 32 != 6 && x[0] % 32 != 7 && x[0] % 32 != 8 }

  /** The non-empty units that are neither SEI (6), SPS (7) nor PPS (8). */
  function Others(nalus: seq<seq<byte>>): seq<seq<byte>> {
    if nalus == [] then []
    else
      var x := nalus[|nalus| - 1];
      var before := Others(nalus[..|nalus| - 1]);
      if Other(x) then before + [x] else before
  }

  lemma {:induction false} SelectedByType(nalus: seq<seq<byte>>)
    ensures Last(Select(nalus, AnnexB.Sps)) == LastOf(nalus, 7)
    ensures Last(Select(nalus, AnnexB.Pps)) == LastOf(nalus, 8)
    ensures Select(nalus, AnnexB.Slice) == Others(nalus)
    decreases |nalus|
  {
    if nalus != [] {
      var before, x := nalus[..|nalus| - 1], nalus[|nalus| - 1];
      assert nalus == before + [x];
      SelectedByType(before);
      SelectSnoc(before, x, AnnexB.Sps);
      SelectSnoc(before, x, AnnexB.Pps);
      SelectSnoc(before, x, AnnexB.Slice);
    }
  }

  /** Capture and send time of a prefix: its cap and snd numbers, -1 without a prefix. */
  predicate TimesAre(prefix: seq<byte>, captureMs: int, sendMs: int) {
    if prefix == [] then captureMs == -1 && sendMs == -1
    else captureMs == Telemetry.FindNumber(Text.AsText(prefix), "cap") &&
         sendMs == Telemetry.FindNumber(Text.AsText(prefix), "snd")
  }

  /** A payload of units behind a prefix is parsed to its last SPS, its last PPS and all other units but SEI. */
  lemma ParsedByType(prefix: seq<byte>, nalus: seq<seq<byte>>)
    requires Clean(prefix) && AllClean(nalus) && nalus != []
    ensures var f := Parse(prefix + Serialize(nalus));
            && f.prefix == prefix && TimesAre(prefix, f.captureMs, f.sendMs)
            && f.sps == LastOf(nalus, 7) && f.pps == LastOf(nalus, 8) && f.slices == Others(nalus)
  {
    SplitJoin(prefix, nalus);
    assert ([prefix] + nalus)[1..] == nalus;
    SelectedByType(nalus);
  }

  // ----- The keyframe flag --------------------------------------------------------------------

  lemma {:induction false} LastOfFound(nalus: seq<seq<byte>>, t: int)
    ensures LastOf(nalus, t) != [] ==> HasUnit(nalus, t)
    ensures LastOf(nalus, t) == [] ==> forall k | 0 <= k < |nalus| :: !HasType(nalus[k], t)
    decreases |nalus|
  {
    if nalus != [] {
      var before, x := nalus[..|nalus| - 1], nalus[|nalus| - 1];
      LastOfFound(before, t);
      forall k | 0 <= k < |nalus| && LastOf(nalus, t) == []
        ensures !HasType(nalus[k], t)
      {
        assert k < |before| ==> nalus[k] == before[k];
      }
      if HasUnit(before, t) {
        var k :| 0 <= k < |before| && HasType(before[k], t);
        assert HasType(nalus[k], t);
      }
    }
  }

  lemma {:induction false} OthersFound(nalus: seq<seq<byte>>, x: seq<byte>)
    ensures x in Others(nalus) <==> x in nalus && Other(x)
    decreases |nalus|
  {
    if nalus != [] {
      OthersFound(nalus[..|nalus| - 1], x);
      assert nalus == nalus[..|nalus| - 1] + [nalus[|nalus| - 1]];
    }
  }

  lemma IdrAmongOthers(nalus: seq<seq<byte>>)
    ensures HasUnit(Others(nalus), 5) <==> HasUnit(nalus, 5)
  {
    forall x: seq<byte>
      ensures x in Others(nalus) <==> x in nalus && Other(x)
    {
      OthersFound(nalus, x);
    }
    HasUnitIn(nalus, 5);
    HasUnitIn(Others(nalus), 5);
  }

  lemma HasUnitIn(v: seq<seq<byte>>, t: int)
    ensures HasUnit(v, t) <==> exists x :: x in v && HasType(x, t)
  {
    if exists x :: x in v && HasType(x, t) {
      var x :| x in v && HasType(x, t);
      var k :| 0 <= k < |v| && v[k] == x;
      assert HasType(v[k], t);
    }
  }

  /** No unit has the header byte 0x01, whose contents can mislead the test. */
  ghost predicate NoneMisleads(nalus: seq<seq<byte>>) {
    forall k | 0 <= k < |nalus| && nalus[k] != [] :: nalus[k][0] != 0x01
  }

  /** The flag is set exactly when there is an SPS and an IDR slice. */
  lemma FlaggedByType(prefix: seq<byte>, nalus: seq<seq<byte>>)
    requires Clean(prefix) && AllClean(nalus) && nalus != [] && NoneMisleads(nalus)
    ensures Parse(prefix + Serialize(nalus)).IsKeyframe() <==> HasUnit(nalus, 7) && HasUnit(nalus, 5)
  {
    var f := Parse(prefix + Serialize(nalus));
    ParsedByType(prefix, nalus);
    LastOfFound(nalus, 7);
    IdrAmongOthers(nalus);
    forall k | 0 <= k < |f.slices|
      ensures !HeaderOne(f.slices[k])
    {
      OthersFound(nalus, f.slices[k]);
      var j :| 0 <= j < |nalus| && nalus[j] == f.slices[k];
      assert nalus[j][0] != 0x01;
    }
    KeyframeIsSpsAndIdr(f);
    IdrSlice(f.slices);
  }

  lemma IdrSlice(v: seq<seq<byte>>)
    ensures HasUnit(v, 5) <==> exists k | 0 <= k < |v| :: NaluType(v[k]) == 5
  {
    if HasUnit(v, 5) {
      var k :| 0 <= k < |v| && HasType(v[k], 5);
      assert NaluType(v[k]) == 5;
    }
    if exists k | 0 <= k < |v| :: NaluType(v[k]) == 5 {
      var k :| 0 <= k < |v| && NaluType(v[k]) == 5;
      assert HasType(v[k], 5);
    }
  }

  // ----- The sample handed on -------------------------------------------------------------------

  /** The units in the order they are handed on: SPS, PPS and the others. */
  function HandedUnits(nalus: seq<seq<byte>>): seq<seq<byte>> {
    (if LastOf(nalus, 7) == [] then [] else [LastOf(nalus, 7)]) +
    (if LastOf(nalus, 8) == [] then [] else [LastOf(nalus, 8)]) + Others(nalus)
  }

  /** What the sample of these units is, field by field. */
  ghost predicate SampleOfUnits(s: VideoSample, prefix: seq<byte>, nalus: seq<seq<byte>>, arrivalMs: int) {
    && s.annexb == Serialize(HandedUnits(nalus))
    && s.sps == LastOf(nalus, 7) && s.pps == LastOf(nalus, 8)
    && TimesAre(prefix, s.captureMs, s.sendMs)
    && s.arrivalMs == arrivalMs
    && (NoneMisleads(nalus) ==> (s.isKeyframe <==> HasUnit(nalus, 7) && HasUnit(nalus, 5)))
  }

  /** A picture with an SPS or a slice causes one video callback, with the sample of its units and the clock. */
  lemma PictureHandedOn(prefix: seq<byte>, nalus: seq<seq<byte>>, arrivalMs: int)
    requires Clean(prefix) && AllClean(nalus) && (LastOf(nalus, 7) != [] || Others(nalus) != [])
    ensures var events := Dispatch(prefix + Serialize(nalus), arrivalMs);
            |events| == 1 && events[0].OnVideo? && SampleOfUnits(events[0].sample, prefix, nalus, arrivalMs)
  {
    ParsedByType(prefix, nalus);
    var payload := prefix + Serialize(nalus);
    var f := Parse(payload);
    assert !f.IsEmpty();
    Demux.VideoIsNeverControl(payload);
    assert Serialize(Ordered(f)) == Serialize(HandedUnits(nalus));
    if NoneMisleads(nalus) {
      FlaggedByType(prefix, nalus);
    }
  }

  /** A picture with neither causes none. */
  lemma EmptyPictureDropped(prefix: seq<byte>, nalus: seq<seq<byte>>, arrivalMs: int)
    requires Clean(prefix) && AllClean(nalus) && LastOf(nalus, 7) == [] && Others(nalus) == []
    requires prefix == [] || prefix[0] != '{' as int
    ensures Dispatch(prefix + Serialize(nalus), arrivalMs) == []
  {
    var payload := prefix + Serialize(nalus);
    if nalus == [] {
      SplitJoin(prefix, []);
      assert [prefix] + [] == [prefix];
    } else {
      ParsedByType(prefix, nalus);
    }
    if payload != [] {
      assert payload[0] != '{' as int;
    }
  }

  /** Short JSON without NUL bytes causes one control callback, with the message as parsed. */
  lemma ControlHandedOn(p: seq<byte>, arrivalMs: int)
    requires 0 < |p| < 32768 && p[0] == 0x7b && forall i | 0 <= i < |p| :: p[i] != 0
    ensures Dispatch(p, arrivalMs) ==
            match Control.ParseControlMessage(p)
            case Some(msg) => [OnControl(msg)]
            case None => []
  {
  }

  /** Anything else is never control: a NUL byte, another first byte, or 32768 bytes and more. */
  lemma OthersAreVideo(p: seq<byte>, arrivalMs: int)
    requires |p| >= 32768 || p == [] || p[0] != 0x7b || exists i | 0 <= i < |p| :: p[i] == 0
    ensures forall k | 0 <= k < |Dispatch(p, arrivalMs)| :: Dispatch(p, arrivalMs)[k].OnVideo?
  {
  }

  // ----- The clock of each frame ------------------------------------------------------------------

  /** The one event of an item handed on at this clock. */
  ghost predicate EventOf(e: Event, item: WireDelivery.Item, arrivalMs: int) {
    match item
    case ControlItem(p) => e.OnControl? && Some(e.msg) == Control.ParseControlMessage(p)
    case VideoItem(prefix, nalus) => e.OnVideo? && SampleOfUnits(e.sample, prefix, nalus, arrivalMs)
  }

  lemma ItemHandedOn(item: WireDelivery.Item, arrivalMs: int)
    requires WireDelivery.Deliverable(item)
    ensures var events := Dispatch(WireDelivery.Payload(item), arrivalMs);
            |events| == 1 && EventOf(events[0], item, arrivalMs)
  {
    match item
    case ControlItem(p) =>
    case VideoItem(prefix, nalus) =>
      SelectedByType(nalus);
      if Select(nalus, AnnexB.Sps) != [] {
        SelectSound(nalus, AnnexB.Sps, |Select(nalus, AnnexB.Sps)| - 1);
      }
      PictureHandedOn(prefix, nalus, arrivalMs);
  }

  /** One event for each item, with the reading of the clock for it. */
  ghost predicate Matching(events: seq<Event>, items: seq<WireDelivery.Item>, clock: nat -> int) {
    && |events| == |items|
    && forall i: nat | i < |items| :: EventOf(events[i], items[i], clock(i))
  }

  /** Of the items handed on in one read the i-th causes one event, with the i-th reading of the clock. */
  lemma {:induction false} EachAtItsClock(items: seq<WireDelivery.Item>, clock: nat -> int)
    requires forall k | 0 <= k < |items| :: WireDelivery.Deliverable(items[k])
    ensures Matching(HandedOn(WireDelivery.Payloads(items), clock), items, clock)
    decreases |items|
  {
    if items != [] {
      var n := |items| - 1;
      EachAtItsClock(items[..n], clock);
      ItemHandedOn(items[n], clock(n));
      LastHandedOn(items, clock);
      OneMoreEvent(items, clock, HandedOn(WireDelivery.Payloads(items[..n]), clock),
                   Dispatch(WireDelivery.Payload(items[n]), clock(n)));
    }
  }

  lemma OneMoreEvent(items: seq<WireDelivery.Item>, clock: nat -> int, before: seq<Event>, last: seq<Event>)
    requires items != [] && Matching(before, items[..|items| - 1], clock)
    requires |last| == 1 && EventOf(last[0], items[|items| - 1], clock(|items| - 1))
    ensures Matching(before + last, items, clock)
  {
    var n := |items| - 1;
    forall i: nat | i < |items|
      ensures EventOf((before + last)[i], items[i], clock(i))
    {
      assert i < n ==> items[i] == items[..n][i];
    }
  }

  lemma LastHandedOn(items: seq<WireDelivery.Item>, clock: nat -> int)
    requires items != []
    ensures var n, payloads := |items| - 1, WireDelivery.Payloads(items);
            HandedOn(payloads, clock) ==
            HandedOn(WireDelivery.Payloads(items[..n]), clock) + Dispatch(WireDelivery.Payload(items[n]), clock(n))
  {
    var n, payloads := |items| - 1, WireDelivery.Payloads(items);
    assert payloads[..n] == WireDelivery.Payloads(items[..n]);
  }

  // ----- On to the decoder -----------------------------------------------------------------------

  lemma HandedNotEmpty(nalus: seq<seq<byte>>)
    requires HasUnit(nalus, 7)
    ensures Serialize(HandedUnits(nalus)) != []
  {
    LastOfFound(nalus, 7);
    assert HandedUnits(nalus)[0] == LastOf(nalus, 7);
  }
}
