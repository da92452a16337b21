/**
Sequence parameter sets as H.264 section 7.3.2.1.1 writes them, and the proof
that the receiver's parser reads back the size section 7.4.2.1.1 defines.
Every printer takes the bits that follow (`rest`), so VUI data and trailing
bits are arbitrary.
*/
module SpsSyntax {
  import opened Bytes
  import opened Bits
  import opened ExpGolomb
  import opened Sps
  import Rbsp

  // ----- Syntax elements ------------------------------------------------------------

  /** matrix holds one entry per scaling list; None stands for a clear presence flag. */
  datatype Chroma = Chroma(idc: nat, separatePlanes: bool, lumaDepth: nat, chromaDepth: nat,
                           bypass: bool, matrix: Option<seq<Option<seq<int>>>>)

  datatype PicOrder =
    | Lsb(log2MaxLsb: nat)
    | Cycle(always: bool, nonRef: int, bottom: int, offsets: seq<int>)
    | OutputOrder

  datatype SeqParams = SeqParams(
    profileIdc: nat, flags: nat, level: nat, id: nat, chroma: Chroma,
    log2MaxFrameNum: nat, picOrder: PicOrder, refFrames: nat, gaps: bool,
    widthInMbsMinus1: nat, heightInMapUnitsMinus1: nat,
    frameMbsOnly: bool, adaptive: bool, direct: bool, crop: Option<(nat, nat, nat, nat)>)

  /** Values whose ue(v) code has at most 30 leading zeros. */
  predicate Codable(v: nat) { v + 1 < 0x8000_0000 }

  predicate SignedCodable(v: int) { -0x3fff_ffff <= v <= 0x3fff_ffff }

  /** The profiles that write chroma_format_idc and what follows it, section 7.3.2.1.1. */
  predicate HighProfile(idc: nat) {
    || idc == 100 || idc == 110 || idc == 122 || idc == 244 || idc == 44 || idc == 83 || idc == 86
    || idc == 118 || idc == 128 || idc == 138 || idc == 139 || idc == 134 || idc == 135
  }

  function ListSize(i: nat): nat { if i < 6 then 16 else 64 }

  function ListCount(idc: nat): nat { if idc != 3 then 8 else 12 }

  predicate DeltasOk(deltas: seq<int>) {
    forall k | 0 <= k < |deltas| :: -128 <= deltas[k] <= 127
  }

  predicate ChromaOk(c: Chroma) {
    && c.idc <= 3
    && (c.separatePlanes ==> c.idc == 3)
    && Codable(c.lumaDepth) && Codable(c.chromaDepth)
    && (c.matrix.Some? ==>
          && |c.matrix.value| == ListCount(c.idc)
          && forall i | 0 <= i < |c.matrix.value| :: ListOk(c.matrix.value[i], i))
  }

  predicate ListOk(list: Option<seq<int>>, i: nat) {
    list.Some? ==> |list.value| == ListSize(i) && DeltasOk(list.value)
  }

  predicate PicOrderOk(o: PicOrder) {
    match o
    case Lsb(n) => Codable(n)
    case Cycle(_, nonRef, bottom, offsets) =>
      && SignedCodable(nonRef) && SignedCodable(bottom) && Codable(|offsets|)
      && forall k | 0 <= k < |offsets| :: SignedCodable(offsets[k])
    case OutputOrder => true
  }

  // ----- The cropped size of section 7.4.2.1.1 --------------------------------------

  function ChromaFormat(p: SeqParams): nat {
    if HighProfile(p.profileIdc) then p.chroma.idc else 1
  }

  /** ChromaArrayType: planes coded separately count as monochrome. */
  function ChromaArrayType(p: SeqParams): nat {
    if HighProfile(p.profileIdc) && p.chroma.separatePlanes then 0 else ChromaFormat(p)
  }

  /** (SubWidthC, SubHeightC) of Table 6-1. */
  function Subsampling(idc: nat): (nat, nat) {
    if idc == 1 then (2, 2) else if idc == 2 then (2, 1) else (1, 1)
  }

  function FieldFactor(p: SeqParams): nat { if p.frameMbsOnly then 1 else 2 }

  function CropUnits(p: SeqParams): (nat, nat) {
    var (w, h) := Subsampling(ChromaFormat(p));
    if ChromaArrayType(p) == 0 then (1, FieldFactor(p)) else (w, h * FieldFactor(p))
  }

  function CodedSize(p: SeqParams): Dimensions {
    Dimensions((p.widthInMbsMinus1 + 1) * 16, FieldFactor(p) * (p.heightInMapUnitsMinus1 + 1) * 16)
  }

  /** Samples cut off horizontally and vertically. */
  function Cropped(p: SeqParams): (nat, nat) {
    match p.crop
    case None => (0, 0)
    case Some((l, r, t, b)) => (CropUnits(p).0 * (l + r), CropUnits(p).1 * (t + b))
  }

  function CroppedSize(p: SeqParams): Dimensions {
    Dimensions(CodedSize(p).width - Cropped(p).0, CodedSize(p).height - Cropped(p).1)
  }

  /** Conforming values that 32-bit arithmetic can hold. */
  predicate WellFormed(p: SeqParams) {
    && p.profileIdc < 256 && p.flags < 256 && p.level < 256 && Codable(p.id)
    && ChromaOk(p.chroma) && Codable(p.log2MaxFrameNum) && PicOrderOk(p.picOrder) && Codable(p.refFrames)
    && CodedSize(p).width < 0x8000_0000 && CodedSize(p).height < 0x8000_0000
    && (p.crop.Some? ==>
          var (l, r, t, b) := p.crop.value;
          Codable(l) && Codable(r) && Codable(t) && Codable(b) && Codable(l + r) && Codable(t + b))
    && Cropped(p).0 < CodedSize(p).width
    && Cropped(p).1 < CodedSize(p).height
  }

  // ----- The printer ------------------------------------------------------------------

  /** Section 7.3.2.1.1.1: deltas are written until the next scale becomes 0. */
  function ListBits(deltas: seq<int>, last: int, next: int, rest: seq<bool>): seq<bool>
    decreases |deltas|
  {
    if deltas == [] then rest
    else if next == 0 then ListBits(deltas[1..], last, next, rest)
    else
      var scale := (last + deltas[0] + 256) % 256;
      SeBits(deltas[0]) + ListBits(deltas[1..], if scale == 0 then last else scale, scale, rest)
  }

  function ListsBits(lists: seq<Option<seq<int>>>, rest: seq<bool>): seq<bool> {
    if lists == [] then rest
    else
      var more := ListsBits(lists[1..], rest);
      [lists[0].Some?] + if lists[0].Some? then ListBits(lists[0].value, 8, 8, more) else more
  }

  function MatrixBits(c: Chroma, rest: seq<bool>): seq<bool> {
    [c.matrix.Some?] + if c.matrix.Some? then ListsBits(c.matrix.value, rest) else rest
  }

  function DepthsBits(c: Chroma, rest: seq<bool>): seq<bool> {
    UeBits(c.lumaDepth) + ChromaDepthBits(c, rest)
  }

  function ChromaDepthBits(c: Chroma, rest: seq<bool>): seq<bool> {
    UeBits(c.chromaDepth) + ([c.bypass] + MatrixBits(c, rest))
  }

  function ChromaBits(c: Chroma, rest: seq<bool>): seq<bool> {
    var depths := DepthsBits(c, rest);
    UeBits(c.idc) + if c.idc == 3 then [c.separatePlanes] + depths else depths
  }

  function OffsetsBits(offsets: seq<int>, rest: seq<bool>): seq<bool> {
    if offsets == [] then rest else SeBits(offsets[0]) + OffsetsBits(offsets[1..], rest)
  }

  function CycleBits(always: bool, nonRef: int, bottom: int, offsets: seq<int>, rest: seq<bool>): seq<bool> {
    [always] + (SeBits(nonRef) + (SeBits(bottom) + (UeBits(|offsets|) + OffsetsBits(offsets, rest))))
  }

  function PicOrderBits(o: PicOrder, rest: seq<bool>): seq<bool> {
    match o
    case Lsb(n) => UeBits(0) + (UeBits(n) + rest)
    case Cycle(always, nonRef, bottom, offsets) =>
      UeBits(1) + CycleBits(always, nonRef, bottom, offsets, rest)
    case OutputOrder => UeBits(2) + rest
  }

  function CropBits(crop: Option<(nat, nat, nat, nat)>, rest: seq<bool>): seq<bool> {
    match crop
    case None => [false] + rest
    case Some((l, r, t, b)) => [true] + (UeBits(l) + (UeBits(r) + (UeBits(t) + (UeBits(b) + rest))))
  }

  function FieldsBits(p: SeqParams, rest: seq<bool>): seq<bool> {
    var tail := [p.direct] + CropBits(p.crop, rest);
    [p.frameMbsOnly] + if p.frameMbsOnly then tail else [p.adaptive] + tail
  }

  function MbsBits(p: SeqParams, rest: seq<bool>): seq<bool> {
    UeBits(p.widthInMbsMinus1) + (UeBits(p.heightInMapUnitsMinus1) + FieldsBits(p, rest))
  }

  function PictureBits(p: SeqParams, rest: seq<bool>): seq<bool> {
    UeBits(p.refFrames) + ([p.gaps] + MbsBits(p, rest))
  }

  function BodyBits(p: SeqParams, rest: seq<bool>): seq<bool> {
    var picture := UeBits(p.log2MaxFrameNum) + PicOrderBits(p.picOrder, PictureBits(p, rest));
    if HighProfile(p.profileIdc) then ChromaBits(p.chroma, picture) else picture
  }

  function SpsBits(p: SeqParams, rest: seq<bool>): seq<bool> {
    UBits(p.profileIdc, 8) + (UBits(p.flags, 8) + (UBits(p.level, 8) + (UeBits(p.id) + BodyBits(p, rest))))
  }

  /** The parser expects chroma fields in exactly the profiles that write them. */
  lemma ProfilesAgree(idc: nat)
    ensures HasChromaInfo(idc) <==> HighProfile(idc)
  {
  }

  // ----- Reading each part ------------------------------------------------------------

  lemma UePart(s: seq<bool>, pos: nat, v: nat, rest: seq<bool>) returns (end: nat)
    requires Codable(v) && At(s, pos, UeBits(v) + rest)
    ensures Ue(s, pos) == Some((v, end)) && At(s, end, rest)
  {
    AtSplit(s, pos, UeBits(v), rest);
    UeRoundTrip(s, pos, v);
    end := pos + |UeBits(v)|;
  }

  lemma SePart(s: seq<bool>, pos: nat, v: int, rest: seq<bool>) returns (end: nat)
    requires SignedCodable(v) && At(s, pos, SeBits(v) + rest)
    ensures Se(s, pos) == Some((v, end)) && At(s, end, rest)
  {
    AtSplit(s, pos, SeBits(v), rest);
    SeRoundTrip(s, pos, v);
    end := pos + |SeBits(v)|;
  }

  lemma BytePart(s: seq<bool>, pos: nat, v: nat, rest: seq<bool>)
    requires v < 256 && At(s, pos, UBits(v, 8) + rest)
    ensures U(s, pos, 8) == Some((v, pos + 8)) && At(s, pos + 8, rest)
  {
    AtSplit(s, pos, UBits(v, 8), rest);
    Pow2Table();
    assert Pow2(8) == 256;
    URoundTrip(s, pos, v, 8);
  }

  lemma FlagPart(s: seq<bool>, pos: nat, b: bool, rest: seq<bool>)
    requires At(s, pos, [b] + rest)
    ensures U(s, pos, 1) == Some((BitOf(b), pos + 1)) && At(s, pos + 1, rest)
  {
    AtSplit(s, pos, [b], rest);
    assert s[pos] == s[pos..pos + 1][0];
    assert BitsFrom(s, pos + 1, 0, BitOf(b)) == Some((BitOf(b), pos + 1));
  }

  lemma ScaleInRange(last: int, delta: int)
    requires 1 <= last <= 255 && -128 <= delta <= 127
    ensures NextScale(last, delta) == (last + delta + 256) % 256
    ensures 0 <= (last + delta + 256) % 256 <= 255
  {
  }

  lemma {:induction false} ListPart(s: seq<bool>, pos: nat, deltas: seq<int>, last: int, next: int, rest: seq<bool>)
    returns (end: nat)
    requires 1 <= last <= 255 && DeltasOk(deltas)
    requires At(s, pos, ListBits(deltas, last, next, rest))
    ensures ScalingListEnd(s, pos, |deltas|, last, next) == Some(end) && At(s, end, rest)
    decreases |deltas|
  {
    if deltas == [] {
      end := pos;
    } else if next == 0 {
      assert DeltasOk(deltas[1..]);
      end := ListPart(s, pos, deltas[1..], last, next, rest);
    } else {
      ScaleInRange(last, deltas[0]);
      var scale := (last + deltas[0] + 256) % 256;
      var l := if scale == 0 then last else scale;
      ScalingListStep(s, pos, |deltas|, last, next);
      var p := SePart(s, pos, deltas[0], ListBits(deltas[1..], l, scale, rest));
      end := ListPart(s, p, deltas[1..], l, scale, rest);
    }
  }

  lemma {:induction false} ListsPart(s: seq<bool>, pos: nat, lists: seq<Option<seq<int>>>, i: nat, rest: seq<bool>)
    returns (end: nat)
    requires i <= |lists| && forall k | i <= k < |lists| :: ListOk(lists[k], k)
    requires At(s, pos, ListsBits(lists[i..], rest))
    ensures ScalingListsEnd(s, pos, i, |lists|) == Some(end) && At(s, end, rest)
    decreases |lists| - i
  {
    if i == |lists| {
      end := pos;
    } else {
      var list := lists[i];
      assert lists[i..][0] == list && lists[i..][1..] == lists[i + 1..];
      var more := ListsBits(lists[i + 1..], rest);
      FlagPart(s, pos, list.Some?, if list.Some? then ListBits(list.value, 8, 8, more) else more);
      var p := pos + 1;
      if list.Some? {
        assert ListOk(lists[i], i);
        p := ListPart(s, p, list.value, 8, 8, more);
      }
      end := ListsPart(s, p, lists, i + 1, rest);
    }
  }

  lemma {:induction false} ChromaPart(s: seq<bool>, pos: nat, c: Chroma, rest: seq<bool>) returns (end: nat)
    requires ChromaOk(c) && At(s, pos, ChromaBits(c, rest))
    ensures ChromaFrom(s, pos) == Some((c.idc, end)) && At(s, end, rest)
  {
    var depths := DepthsBits(c, rest);
    var p := UePart(s, pos, c.idc, if c.idc == 3 then [c.separatePlanes] + depths else depths);
    var q := SeparatePart(s, p, c, depths);
    end := DepthsPart(s, q, c, rest);
  }

  lemma SeparatePart(s: seq<bool>, pos: nat, c: Chroma, rest: seq<bool>) returns (end: nat)
    requires At(s, pos, if c.idc == 3 then [c.separatePlanes] + rest else rest)
    ensures var r := if c.idc == 3 then U(s, pos, 1) else Some((0, pos)); r.Some? && r.value.1 == end
    ensures At(s, end, rest)
  {
    end := pos;
    if c.idc == 3 {
      FlagPart(s, pos, c.separatePlanes, rest);
      end := pos + 1;
    }
  }

  lemma DepthsPart(s: seq<bool>, pos: nat, c: Chroma, rest: seq<bool>) returns (end: nat)
    requires ChromaOk(c) && At(s, pos, DepthsBits(c, rest))
    ensures DepthsFrom(s, pos, c.idc) == Some((c.idc, end)) && At(s, end, rest)
  {
    var p := UePart(s, pos, c.lumaDepth, ChromaDepthBits(c, rest));
    end := ChromaDepthPart(s, p, c, rest);
  }

  lemma ChromaDepthPart(s: seq<bool>, pos: nat, c: Chroma, rest: seq<bool>) returns (end: nat)
    requires ChromaOk(c) && At(s, pos, ChromaDepthBits(c, rest))
    ensures ChromaDepthFrom(s, pos, c.idc) == Some((c.idc, end)) && At(s, end, rest)
  {
    var matrix := MatrixBits(c, rest);
    var p := UePart(s, pos, c.chromaDepth, [c.bypass] + matrix);
    FlagPart(s, p, c.bypass, matrix);
    end := MatrixPart(s, p + 1, c, rest);
  }

  lemma MatrixPart(s: seq<bool>, pos: nat, c: Chroma, rest: seq<bool>) returns (end: nat)
    requires ChromaOk(c) && At(s, pos, MatrixBits(c, rest))
    ensures MatrixFrom(s, pos, c.idc) == Some((c.idc, end)) && At(s, end, rest)
  {
    FlagPart(s, pos, c.matrix.Some?, if c.matrix.Some? then ListsBits(c.matrix.value, rest) else rest);
    end := pos + 1;
    if c.matrix.Some? {
      assert c.matrix.value[0..] == c.matrix.value;
      end := ListsPart(s, end, c.matrix.value, 0, rest);
    }
  }

  lemma {:induction false} OffsetsPart(s: seq<bool>, pos: nat, offsets: seq<int>, rest: seq<bool>) returns (end: nat)
    requires forall k | 0 <= k < |offsets| :: SignedCodable(offsets[k])
    requires At(s, pos, OffsetsBits(offsets, rest))
    ensures OffsetsEnd(s, pos, |offsets|) == Some(end) && At(s, end, rest)
    decreases |offsets|
  {
    if offsets == [] {
      end := pos;
    } else {
      var p := SePart(s, pos, offsets[0], OffsetsBits(offsets[1..], rest));
      end := OffsetsPart(s, p, offsets[1..], rest);
    }
  }

  lemma {:induction false} CyclePart(s: seq<bool>, pos: nat, o: PicOrder, rest: seq<bool>) returns (end: nat)
    requires o.Cycle? && PicOrderOk(o)
    requires At(s, pos, CycleBits(o.always, o.nonRef, o.bottom, o.offsets, rest))
    ensures CycleEnd(s, pos) == Some(end) && At(s, end, rest)
  {
    var tail := UeBits(|o.offsets|) + OffsetsBits(o.offsets, rest);
    FlagPart(s, pos, o.always, SeBits(o.nonRef) + (SeBits(o.bottom) + tail));
    var p1 := SePart(s, pos + 1, o.nonRef, SeBits(o.bottom) + tail);
    var p2 := SePart(s, p1, o.bottom, tail);
    var p3 := UePart(s, p2, |o.offsets|, OffsetsBits(o.offsets, rest));
    end := OffsetsPart(s, p3, o.offsets, rest);
  }

  lemma PicOrderPart(s: seq<bool>, pos: nat, o: PicOrder, rest: seq<bool>) returns (end: nat)
    requires PicOrderOk(o) && At(s, pos, PicOrderBits(o, rest))
    ensures PicOrderEnd(s, pos) == Some(end) && At(s, end, rest)
  {
    match o
    case Lsb(n) =>
      var p := UePart(s, pos, 0, UeBits(n) + rest);
      end := UePart(s, p, n, rest);
    case Cycle(always, nonRef, bottom, offsets) =>
      var p := UePart(s, pos, 1, CycleBits(always, nonRef, bottom, offsets, rest));
      end := CyclePart(s, p, o, rest);
    case OutputOrder =>
      end := UePart(s, pos, 2, rest);
  }

  function CropOf(p: SeqParams): Crop {
    match p.crop
    case None => Crop(0, 0, 0, 0)
    case Some((l, r, t, b)) => Crop(l, r, t, b)
  }

  function PictureOf(p: SeqParams): Picture {
    Picture(p.widthInMbsMinus1, p.heightInMapUnitsMinus1, BitOf(p.frameMbsOnly), CropOf(p))
  }

  lemma {:induction false} CropPart(s: seq<bool>, pos: nat, p: SeqParams, rest: seq<bool>)
    requires WellFormed(p) && At(s, pos, CropBits(p.crop, rest))
    ensures CropFrom(s, pos) == Some(CropOf(p))
  {
    match p.crop
    case None =>
      FlagPart(s, pos, false, rest);
    case Some((l, r, t, b)) =>
      FlagPart(s, pos, true, UeBits(l) + (UeBits(r) + (UeBits(t) + (UeBits(b) + rest))));
      var p1 := UePart(s, pos + 1, l, UeBits(r) + (UeBits(t) + (UeBits(b) + rest)));
      var p2 := UePart(s, p1, r, UeBits(t) + (UeBits(b) + rest));
      var p3 := UePart(s, p2, t, UeBits(b) + rest);
      var p4 := UePart(s, p3, b, rest);
  }

  lemma {:induction false} FieldsPart(s: seq<bool>, pos: nat, p: SeqParams, rest: seq<bool>)
    requires WellFormed(p) && At(s, pos, FieldsBits(p, rest))
    ensures FieldsFrom(s, pos) == Some((BitOf(p.frameMbsOnly), CropOf(p)))
  {
    var crop := CropBits(p.crop, rest);
    var tail := [p.direct] + crop;
    FlagPart(s, pos, p.frameMbsOnly, if p.frameMbsOnly then tail else [p.adaptive] + tail);
    var p4 := pos + 1;
    if !p.frameMbsOnly {
      FlagPart(s, p4, p.adaptive, tail);
      p4 := p4 + 1;
    }
    FlagPart(s, p4, p.direct, crop);
    CropPart(s, p4 + 1, p, rest);
  }

  lemma MbsPart(s: seq<bool>, pos: nat, p: SeqParams, rest: seq<bool>)
    requires WellFormed(p) && At(s, pos, MbsBits(p, rest))
    ensures MbsFrom(s, pos) == Some(PictureOf(p))
  {
    var fields := FieldsBits(p, rest);
    var p2 := UePart(s, pos, p.widthInMbsMinus1, UeBits(p.heightInMapUnitsMinus1) + fields);
    var p3 := UePart(s, p2, p.heightInMapUnitsMinus1, fields);
    FieldsPart(s, p3, p, rest);
  }

  lemma PicturePart(s: seq<bool>, pos: nat, p: SeqParams, rest: seq<bool>)
    requires WellFormed(p) && At(s, pos, PictureBits(p, rest))
    ensures PictureFrom(s, pos) == Some(PictureOf(p))
  {
    var size := MbsBits(p, rest);
    var p1 := UePart(s, pos, p.refFrames, [p.gaps] + size);
    FlagPart(s, p1, p.gaps, size);
    MbsPart(s, p1 + 1, p, rest);
  }

  lemma HeaderPart(s: seq<bool>, p: SeqParams, rest: seq<bool>) returns (end: nat)
    requires WellFormed(p) && s == SpsBits(p, rest)
    ensures HeaderFrom(s) == Some((p.profileIdc, end)) && At(s, end, BodyBits(p, rest))
  {
    end := HeaderFields(s, p.profileIdc, p.flags, p.level, p.id, BodyBits(p, rest));
  }

  lemma HeaderFields(s: seq<bool>, profileIdc: nat, flags: nat, level: nat, id: nat, body: seq<bool>)
    returns (end: nat)
    requires profileIdc < 256 && flags < 256 && level < 256 && Codable(id)
    requires s == UBits(profileIdc, 8) + (UBits(flags, 8) + (UBits(level, 8) + (UeBits(id) + body)))
    ensures HeaderFrom(s) == Some((profileIdc, end)) && At(s, end, body)
  {
    assert At(s, 0, s) by { assert s[0..0 + |s|] == s; }
    BytePart(s, 0, profileIdc, UBits(flags, 8) + (UBits(level, 8) + (UeBits(id) + body)));
    BytePart(s, 8, flags, UBits(level, 8) + (UeBits(id) + body));
    BytePart(s, 16, level, UeBits(id) + body);
    end := UePart(s, 24, id, body);
  }

  /** Within 32 bits the code's arithmetic is the standard's. */
  lemma SizeIsCropped(p: SeqParams)
    requires WellFormed(p)
    ensures SizeOf(ChromaFormat(p), PictureOf(p)) == Some(CroppedSize(p))
  {
  }

  lemma {:induction false} SizeFromPrintedBits(s: seq<bool>, p: SeqParams, rest: seq<bool>)
    requires WellFormed(p) && s == SpsBits(p, rest)
    ensures SizeFromBits(s) == Some(CroppedSize(p))
  {
    var p4 := HeaderPart(s, p, rest);
    var picture := PicOrderBits(p.picOrder, PictureBits(p, rest));
    ProfilesAgree(p.profileIdc);
    if HighProfile(p.profileIdc) {
      p4 := ChromaPart(s, p4, p.chroma, UeBits(p.log2MaxFrameNum) + picture);
    }
    var p5 := UePart(s, p4, p.log2MaxFrameNum, picture);
    var p6 := PicOrderPart(s, p5, p.picOrder, PictureBits(p, rest));
    PicturePart(s, p6, p, rest);
    SizeIsCropped(p);
  }

  /**
  A printed, byte-aligned and escaped parameter set behind any NAL header is
  parsed to exactly the cropped size, whatever VUI data and trailing bits follow.
  */
  lemma SpsRoundTrip(p: SeqParams, header: byte, rest: seq<bool>)
    requires WellFormed(p)
    requires |SpsBits(p, rest)| % 8 == 0
    ensures SpsSize(Rbsp.Nalu(header, Pack(SpsBits(p, rest)))) == Some(CroppedSize(p))
  {
    var bits := SpsBits(p, rest);
    var rbsp := Pack(bits);
    var nalu := Rbsp.Nalu(header, rbsp);
    PackBits(bits);
    Rbsp.StripEscape(rbsp, 0);
    Rbsp.EscapeGrows(rbsp, 0);
    assert nalu[1..] == Rbsp.Escape(rbsp, 0);
    SizeFromPrintedBits(bits, p, rest);
  }

  /** What is accepted has at least four bytes and announces a picture with samples. */
  lemma AcceptedSize(sps: seq<byte>)
    requires SpsSize(sps).Some?
    ensures |sps| >= 4 && SpsSize(sps).value.width > 0 && SpsSize(sps).value.height > 0
  {
  }
}
