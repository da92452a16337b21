/**
Picture size from a sequence parameter set (protocol/sps.cpp), against the
syntax of H.264 sections 7.3.2.1.1 and 7.3.2.1.1.1 and the cropped size of
section 7.4.2.1.1.
*/
module Sps {
  import opened Bytes
  import opened Bits
  import opened ExpGolomb
  import Rbsp

  datatype Dimensions = Dimensions(width: int, height: int)

  // ----- The parser ---------------------------------------------------------------

  predicate HasChromaInfo(profileIdc: int) {
    profileIdc in {100, 110, 122, 244, 44, 83, 86, 118, 128, 138, 139, 134, 135}
  }

  function NextScale(last: int, delta: int): int {
    CMod(Wrap32(last + delta + 256), 256)
  }

  /** Cursor behind the remaining `n` entries of a scaling list. */
  function ScalingListEnd(s: seq<bool>, pos: nat, n: nat, last: int, next: int): (r: Option<nat>)
    ensures r.Some? ==> pos <= r.value && (r.value == pos || r.value <= |s|)
    decreases n
  {
    if n == 0 then Some(pos)
    else if next == 0 then ScalingListEnd(s, pos, n - 1, last, next)
    else
      var (delta, p) :- Se(s, pos);
      var scale := NextScale(last, delta);
      ScalingListEnd(s, p, n - 1, if scale != 0 then scale else last, scale)
  }

  lemma ScalingListStep(s: seq<bool>, pos: nat, n: nat, last: int, next: int)
    requires n > 0 && next != 0
    ensures ScalingListEnd(s, pos, n, last, next) ==
            match Se(s, pos)
            case None => None
            case Some((delta, p)) =>
              var scale := NextScale(last, delta);
              ScalingListEnd(s, p, n - 1, if scale != 0 then scale else last, scale)
  {
  }

  /** Cursor behind the scaling lists `i` to `count` - 1, each behind its presence flag. */
  function ScalingListsEnd(s: seq<bool>, pos: nat, i: nat, count: nat): (r: Option<nat>)
    requires i <= count
    ensures r.Some? ==> pos + (count - i) <= r.value && (r.value == pos || r.value <= |s|)
    decreases count - i
  {
    if i == count then Some(pos)
    else
      var (present, p) :- U(s, pos, 1);
      var q :- if present == 1 then ScalingListEnd(s, p, if i < 6 then 16 else 64, 8, 8) else Some(p);
      ScalingListsEnd(s, q, i + 1, count)
  }

  /** chroma_format_idc and the cursor behind the chroma and scaling fields. */
  function ChromaFrom(s: seq<bool>, pos: nat): Read {
    var (idc, p0) :- Ue(s, pos);
    var (separate, p1) :- if idc == 3 then U(s, p0, 1) else Some((0, p0));
    DepthsFrom(s, p1, idc)
  }

  /** The chroma fields behind separate_colour_plane_flag. */
  function DepthsFrom(s: seq<bool>, pos: nat, idc: int): Read {
    var (luma, p2) :- Ue(s, pos);
    ChromaDepthFrom(s, p2, idc)
  }

  function ChromaDepthFrom(s: seq<bool>, pos: nat, idc: int): Read {
    var (chroma, p3) :- Ue(s, pos);
    var (bypass, p4) :- U(s, p3, 1);
    MatrixFrom(s, p4, idc)
  }

  /** seq_scaling_matrix_present_flag and the scaling lists. */
  function MatrixFrom(s: seq<bool>, pos: nat, idc: int): Read {
    var (matrix, p5) :- U(s, pos, 1);
    if matrix == 1 then
      var p6 :- ScalingListsEnd(s, p5, 0, if idc != 3 then 8 else 12);
      Some((idc, p6))
    else Some((idc, p5))
  }

  /** Cursor behind `n` (possibly negative) se(v) codes. */
  function OffsetsEnd(s: seq<bool>, pos: nat, n: int): (r: Option<nat>)
    ensures r.Some? ==> pos + n <= r.value && (r.value == pos || r.value <= |s|)
    decreases n
  {
    if n <= 0 then Some(pos)
    else
      var (offset, p) :- Se(s, pos);
      OffsetsEnd(s, p, n - 1)
  }

  function PicOrderEnd(s: seq<bool>, pos: nat): Option<nat> {
    var (kind, p0) :- Ue(s, pos);
    if kind == 0 then
      var (lsb, p1) :- Ue(s, p0);
      Some(p1)
    else if kind == 1 then CycleEnd(s, p0)
    else Some(p0)
  }

  /** The fields of pic_order_cnt_type 1. */
  function CycleEnd(s: seq<bool>, pos: nat): Option<nat> {
    var (always, p1) :- U(s, pos, 1);
    var (nonRef, p2) :- Se(s, p1);
    var (bottom, p3) :- Se(s, p2);
    var (n, p4) :- Ue(s, p3);
    OffsetsEnd(s, p4, n)
  }

  datatype Crop = Crop(left: int, right: int, top: int, bottom: int)

  datatype Picture = Picture(widthInMbsMinus1: int, heightInMapUnitsMinus1: int, frameMbsOnly: int, crop: Crop)

  function CropFrom(s: seq<bool>, pos: nat): Option<Crop> {
    var (cropping, p0) :- U(s, pos, 1);
    if cropping == 1 then
      var (left, p1) :- Ue(s, p0);
      var (right, p2) :- Ue(s, p1);
      var (top, p3) :- Ue(s, p2);
      var (bottom, p4) :- Ue(s, p3);
      Some(Crop(left, right, top, bottom))
    else Some(Crop(0, 0, 0, 0))
  }

  function PictureFrom(s: seq<bool>, pos: nat): Option<Picture> {
    var (refFrames, p0) :- Ue(s, pos);
    var (gaps, p1) :- U(s, p0, 1);
    MbsFrom(s, p1)
  }

  /** Size in macroblocks and what follows. */
  function MbsFrom(s: seq<bool>, pos: nat): Option<Picture> {
    var (width, p2) :- Ue(s, pos);
    var (height, p3) :- Ue(s, p2);
    var (frameMbsOnly, crop) :- FieldsFrom(s, p3);
    Some(Picture(width, height, frameMbsOnly, crop))
  }

  /** frame_mbs_only_flag and the cropping offsets. */
  function FieldsFrom(s: seq<bool>, pos: nat): Option<(int, Crop)> {
    var (frameMbsOnly, p4) :- U(s, pos, 1);
    var (adaptive, p5) :- if frameMbsOnly == 0 then U(s, p4, 1) else Some((0, p4));
    var (direct, p6) :- U(s, p5, 1);
    var crop :- CropFrom(s, p6);
    Some((frameMbsOnly, crop))
  }

  /** Width and height as computed in 32-bit `int`; None unless both are positive. */
  function SizeOf(chromaFormatIdc: int, pic: Picture): Option<Dimensions> {
    var subWidthC := if chromaFormatIdc == 1 || chromaFormatIdc == 2 then 2 else 1;
    var subHeightC := if chromaFormatIdc == 1 then 2 else 1;
    var cropUnitX := if chromaFormatIdc == 0 then 1 else subWidthC;
    var fields := 2 - pic.frameMbsOnly;
    var cropUnitY := if chromaFormatIdc == 0 then fields else subHeightC * fields;
    var width := Wrap32(Wrap32(Wrap32(pic.widthInMbsMinus1 + 1) * 16) -
                        Wrap32(cropUnitX * Wrap32(pic.crop.left + pic.crop.right)));
    var height := Wrap32(Wrap32(Wrap32(fields * Wrap32(pic.heightInMapUnitsMinus1 + 1)) * 16) -
                         Wrap32(cropUnitY * Wrap32(pic.crop.top + pic.crop.bottom)));
    if width <= 0 || height <= 0 then None else Some(Dimensions(width, height))
  }

  /** profile_idc and the cursor behind seq_parameter_set_id. */
  function HeaderFrom(s: seq<bool>): Read {
    var (profileIdc, p0) :- U(s, 0, 8);
    var (flags, p1) :- U(s, p0, 8);
    var (level, p2) :- U(s, p1, 8);
    var (id, p3) :- Ue(s, p2);
    Some((profileIdc, p3))
  }

  function SizeFromBits(s: seq<bool>): Option<Dimensions> {
    var (profileIdc, p3) :- HeaderFrom(s);
    var (idc, p4) :- if HasChromaInfo(profileIdc) then ChromaFrom(s, p3) else Some((1, p3));
    var (log2MaxFrameNum, p5) :- Ue(s, p4);
    var p6 :- PicOrderEnd(s, p5);
    var pic :- PictureFrom(s, p6);
    SizeOf(idc, pic)
  }

  /** The size a SPS NAL unit announces. */
  function SpsSize(sps: seq<byte>): Option<Dimensions> {
    if |sps| < 4 then None else SizeFromBits(BitsOf(Rbsp.Strip(sps[1..], 0)))
  }

  ghost predicate AgreesAt(spec: Option<nat>, done: bool, pos: nat) {
    done == spec.Some? && (done ==> pos == spec.value)
  }

  method SkipScalingList(r: BitReader, size: nat) returns (done: Option<()>)
    requires r.Valid()
    modifies r
    ensures r.Valid() && AgreesAt(ScalingListEnd(r.bits, old(r.pos), size, 8, 8), done.Some?, r.pos)
  {
    var lastScale, nextScale := 8, 8;
    for i := 0 to size
      invariant r.Valid()
      invariant ScalingListEnd(r.bits, r.pos, size - i, lastScale, nextScale) ==
                ScalingListEnd(r.bits, old(r.pos), size, 8, 8)
    {
      if nextScale != 0 {
        var delta :- r.ReadSe();
        nextScale := NextScale(lastScale, delta);
      }
      if nextScale != 0 {
        lastScale := nextScale;
      }
    }
    done := Some(());
  }

  method ReadChroma(r: BitReader) returns (chromaFormatIdc: Option<int>)
    requires r.Valid()
    modifies r
    ensures r.Valid() && Agrees(ChromaFrom(r.bits, old(r.pos)), chromaFormatIdc, r.pos)
  {
    var idc :- r.ReadUe();
    if idc == 3 {
      var separate :- r.ReadU(1);
    }
    var luma :- r.ReadUe();
    var chroma :- r.ReadUe();
    var bypass :- r.ReadU(1);
    var matrix :- r.ReadU(1);
    if matrix == 1 {
      var count := if idc != 3 then 8 else 12;
      ghost var start := r.pos;
      for i := 0 to count
        invariant r.Valid()
        invariant ScalingListsEnd(r.bits, r.pos, i, count) == ScalingListsEnd(r.bits, start, 0, count)
      {
        var present :- r.ReadU(1);
        if present == 1 {
          var done :- SkipScalingList(r, if i < 6 then 16 else 64);
        }
      }
    }
    chromaFormatIdc := Some(idc);
  }

  lemma OffsetsStep(s: seq<bool>, pos: nat, n: int, end: Option<nat>)
    requires n > 0 && OffsetsEnd(s, pos, n) == end
    ensures Se(s, pos).None? ==> end == None
    ensures Se(s, pos).Some? ==> OffsetsEnd(s, Se(s, pos).value.1, n - 1) == end
  {
  }

  /** `n` comes from the stream; the loop's measure is the number of unread bits. */
  method SkipOffsets(r: BitReader, n: int) returns (done: Option<()>)
    requires r.Valid() && r.pos <= |r.bits|
    modifies r
    ensures r.Valid() && AgreesAt(OffsetsEnd(r.bits, old(r.pos), n), done.Some?, r.pos)
  {
    var i := 0;
    ghost var left, end := n, OffsetsEnd(r.bits, r.pos, n);
    while i < n
      invariant r.Valid() && r.pos <= |r.bits| && left == n - i
      invariant OffsetsEnd(r.bits, r.pos, left) == end
      decreases |r.bits| - r.pos
    {
      OffsetsStep(r.bits, r.pos, left, end);
      left := left - 1;
      var offset :- r.ReadSe();
      i := i + 1;
    }
    done := Some(());
  }

  method SkipPicOrder(r: BitReader) returns (done: Option<()>)
    requires r.Valid()
    modifies r
    ensures r.Valid() && AgreesAt(PicOrderEnd(r.bits, old(r.pos)), done.Some?, r.pos)
  {
    var kind :- r.ReadUe();
    if kind == 0 {
      var lsb :- r.ReadUe();
    } else if kind == 1 {
      var always :- r.ReadU(1);
      var nonRef :- r.ReadSe();
      var bottom :- r.ReadSe();
      var n :- r.ReadUe();
      done := SkipOffsets(r, n);
      return;
    }
    done := Some(());
  }

  method ReadPicture(r: BitReader) returns (pic: Option<Picture>)
    requires r.Valid()
    modifies r
    ensures r.Valid() && pic == PictureFrom(r.bits, old(r.pos))
  {
    var refFrames :- r.ReadUe();
    var gaps :- r.ReadU(1);
    var width :- r.ReadUe();
    var height :- r.ReadUe();
    var frameMbsOnly :- r.ReadU(1);
    if frameMbsOnly == 0 {
      var adaptive :- r.ReadU(1);
    }
    var direct :- r.ReadU(1);
    var left, right, top, bottom := 0, 0, 0, 0;
    var cropping :- r.ReadU(1);
    if cropping == 1 {
      left :- r.ReadUe();
      right :- r.ReadUe();
      top :- r.ReadUe();
      bottom :- r.ReadUe();
    }
    pic := Some(Picture(width, height, frameMbsOnly, Crop(left, right, top, bottom)));
  }

  method ParseSpsDimensions(sps: seq<byte>) returns (size: Option<Dimensions>)
    ensures size == SpsSize(sps)
  {
    if |sps| < 4 {
      return None;
    }
    var bits := Rbsp.StripEmulationPrevention(sps);
    var r := new BitReader(bits);
    var profileIdc :- r.ReadU(8);
    var flags :- r.ReadU(8);
    var level :- r.ReadU(8);
    var id :- r.ReadUe();
    var chromaFormatIdc := 1;
    if HasChromaInfo(profileIdc) {
      chromaFormatIdc :- ReadChroma(r);
    }
    var log2MaxFrameNum :- r.ReadUe();
    var skipped :- SkipPicOrder(r);
    var pic :- ReadPicture(r);
    size := SizeOf(chromaFormatIdc, pic);
  }
}
