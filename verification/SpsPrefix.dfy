/**
The SPS parser reads left to right and no further than it must: bytes appended
to an accepted SPS change nothing, and the work is bounded by the bits present.
*/
module SpsPrefix {
  import opened Bytes
  import opened Bits
  import opened ExpGolomb
  import opened Sps
  import Rbsp

  lemma UKept(s: seq<bool>, t: seq<bool>, pos: nat, n: nat)
    requires U(s, pos, n).Some?
    ensures U(s + t, pos, n) == U(s, pos, n)
  {
    BitsKept(s, t, pos, n, 0);
  }

  lemma SeKept(s: seq<bool>, t: seq<bool>, pos: nat)
    requires Se(s, pos).Some?
    ensures Se(s + t, pos) == Se(s, pos)
  {
    UeKept(s, t, pos);
  }

  lemma {:induction false} ScalingListKept(s: seq<bool>, t: seq<bool>, pos: nat, n: nat, last: int, next: int)
    requires ScalingListEnd(s, pos, n, last, next).Some?
    ensures ScalingListEnd(s + t, pos, n, last, next) == ScalingListEnd(s, pos, n, last, next)
    decreases n
  {
    if n > 0 {
      if next == 0 {
        ScalingListKept(s, t, pos, n - 1, last, next);
      } else {
        ScalingListStep(s, pos, n, last, next);
        SeKept(s, t, pos);
        ScalingListStep(s + t, pos, n, last, next);
        var (delta, p) := Se(s, pos).value;
        var scale := NextScale(last, delta);
        ScalingListKept(s, t, p, n - 1, if scale != 0 then scale else last, scale);
      }
    }
  }

  lemma {:induction false} ScalingListsKept(s: seq<bool>, t: seq<bool>, pos: nat, i: nat, count: nat)
    requires i <= count
    requires ScalingListsEnd(s, pos, i, count).Some?
    ensures ScalingListsEnd(s + t, pos, i, count) == ScalingListsEnd(s, pos, i, count)
    decreases count - i
  {
    if i < count {
      UKept(s, t, pos, 1);
      var (present, p) := U(s, pos, 1).value;
      var size := if i < 6 then 16 else 64;
      if present == 1 {
        ScalingListKept(s, t, p, size, 8, 8);
        p := ScalingListEnd(s, p, size, 8, 8).value;
      }
      ScalingListsKept(s, t, p, i + 1, count);
    }
  }

  lemma MatrixKept(s: seq<bool>, t: seq<bool>, pos: nat, idc: int)
    requires MatrixFrom(s, pos, idc).Some?
    ensures MatrixFrom(s + t, pos, idc) == MatrixFrom(s, pos, idc)
  {
    UKept(s, t, pos, 1);
    var (matrix, p) := U(s, pos, 1).value;
    if matrix == 1 {
      ScalingListsKept(s, t, p, 0, if idc != 3 then 8 else 12);
    }
  }

  lemma DepthsKept(s: seq<bool>, t: seq<bool>, pos: nat, idc: int)
    requires DepthsFrom(s, pos, idc).Some?
    ensures DepthsFrom(s + t, pos, idc) == DepthsFrom(s, pos, idc)
  {
    UeKept(s, t, pos);
    var p2 := Ue(s, pos).value.1;
    UeKept(s, t, p2);
    var p3 := Ue(s, p2).value.1;
    UKept(s, t, p3, 1);
    MatrixKept(s, t, p3 + 1, idc);
  }

  lemma ChromaKept(s: seq<bool>, t: seq<bool>, pos: nat)
    requires ChromaFrom(s, pos).Some?
    ensures ChromaFrom(s + t, pos) == ChromaFrom(s, pos)
  {
    UeKept(s, t, pos);
    var (idc, p) := Ue(s, pos).value;
    if idc == 3 {
      UKept(s, t, p, 1);
      p := p + 1;
    }
    DepthsKept(s, t, p, idc);
  }

  lemma {:induction false} OffsetsKept(s: seq<bool>, t: seq<bool>, pos: nat, n: int)
    requires OffsetsEnd(s, pos, n).Some?
    ensures OffsetsEnd(s + t, pos, n) == OffsetsEnd(s, pos, n)
    decreases n
  {
    if n > 0 {
      SeKept(s, t, pos);
      OffsetsKept(s, t, Se(s, pos).value.1, n - 1);
    }
  }

  lemma PicOrderKept(s: seq<bool>, t: seq<bool>, pos: nat)
    requires PicOrderEnd(s, pos).Some?
    ensures PicOrderEnd(s + t, pos) == PicOrderEnd(s, pos)
  {
    UeKept(s, t, pos);
    var (kind, p0) := Ue(s, pos).value;
    if kind == 0 {
      UeKept(s, t, p0);
    } else if kind == 1 {
      CycleKept(s, t, p0);
    }
  }

  lemma {:induction false} CycleKept(s: seq<bool>, t: seq<bool>, pos: nat)
    requires CycleEnd(s, pos).Some?
    ensures CycleEnd(s + t, pos) == CycleEnd(s, pos)
  {
    UKept(s, t, pos, 1);
    SeKept(s, t, pos + 1);
    var p2 := Se(s, pos + 1).value.1;
    SeKept(s, t, p2);
    var p3 := Se(s, p2).value.1;
    UeKept(s, t, p3);
    var (n, p4) := Ue(s, p3).value;
    OffsetsKept(s, t, p4, n);
  }

  lemma {:induction false} CropKept(s: seq<bool>, t: seq<bool>, pos: nat)
    requires CropFrom(s, pos).Some?
    ensures CropFrom(s + t, pos) == CropFrom(s, pos)
  {
    UKept(s, t, pos, 1);
    if U(s, pos, 1).value.0 == 1 {
      UeKept(s, t, pos + 1);
      var p1 := Ue(s, pos + 1).value.1;
      UeKept(s, t, p1);
      var p2 := Ue(s, p1).value.1;
      UeKept(s, t, p2);
      var p3 := Ue(s, p2).value.1;
      UeKept(s, t, p3);
    }
  }

  lemma FieldsKept(s: seq<bool>, t: seq<bool>, pos: nat)
    requires FieldsFrom(s, pos).Some?
    ensures FieldsFrom(s + t, pos) == FieldsFrom(s, pos)
  {
    UKept(s, t, pos, 1);
    var p := pos + 1;
    if U(s, pos, 1).value.0 == 0 {
      UKept(s, t, p, 1);
      p := p + 1;
    }
    UKept(s, t, p, 1);
    CropKept(s, t, p + 1);
  }

  lemma PictureKept(s: seq<bool>, t: seq<bool>, pos: nat)
    requires PictureFrom(s, pos).Some?
    ensures PictureFrom(s + t, pos) == PictureFrom(s, pos)
  {
    UeKept(s, t, pos);
    var p0 := Ue(s, pos).value.1;
    UKept(s, t, p0, 1);
    MbsKept(s, t, p0 + 1);
  }

  lemma MbsKept(s: seq<bool>, t: seq<bool>, pos: nat)
    requires MbsFrom(s, pos).Some?
    ensures MbsFrom(s + t, pos) == MbsFrom(s, pos)
  {
    UeKept(s, t, pos);
    var p2 := Ue(s, pos).value.1;
    UeKept(s, t, p2);
    FieldsKept(s, t, Ue(s, p2).value.1);
  }

  lemma {:induction false} HeaderKept(s: seq<bool>, t: seq<bool>)
    requires HeaderFrom(s).Some?
    ensures HeaderFrom(s + t) == HeaderFrom(s)
  {
    UKept(s, t, 0, 8);
    UKept(s, t, 8, 8);
    UKept(s, t, 16, 8);
    UeKept(s, t, 24);
  }

  lemma {:induction false} SizeKept(s: seq<bool>, t: seq<bool>)
    requires SizeFromBits(s).Some?
    ensures SizeFromBits(s + t) == SizeFromBits(s)
  {
    HeaderKept(s, t);
    var (profileIdc, p) := HeaderFrom(s).value;
    if HasChromaInfo(profileIdc) {
      ChromaKept(s, t, p);
      p := ChromaFrom(s, p).value.1;
    }
    UeKept(s, t, p);
    var p5 := Ue(s, p).value.1;
    PicOrderKept(s, t, p5);
    PictureKept(s, t, PicOrderEnd(s, p5).value);
  }

  /** Any bytes behind an accepted SPS leave the size as it was. */
  lemma {:induction false} AppendedBytesIgnored(sps: seq<byte>, more: seq<byte>)
    ensures SpsSize(sps).Some? ==> SpsSize(sps + more) == SpsSize(sps)
  {
    if SpsSize(sps).Some? {
      var tail := StripAppended(sps, more);
      StrippedKept(sps, sps + more, tail);
    }
  }

  lemma StripAppended(a: seq<byte>, more: seq<byte>) returns (tail: seq<byte>)
    requires |a| > 0
    ensures Rbsp.Strip((a + more)[1..], 0) == Rbsp.Strip(a[1..], 0) + tail
  {
    assert (a + more)[1..] == a[1..] + more;
    tail := Rbsp.StripExtends(a[1..], more, 0);
  }

  lemma {:induction false} StrippedKept(a: seq<byte>, b: seq<byte>, tail: seq<byte>)
    requires |a| >= 4 && |b| >= 4 && Rbsp.Strip(b[1..], 0) == Rbsp.Strip(a[1..], 0) + tail
    requires SpsSize(a).Some?
    ensures SpsSize(b) == SpsSize(a)
  {
    var d := Rbsp.Strip(a[1..], 0);
    BitsOfAppend(d, tail);
    SizeKept(BitsOf(d), BitsOf(tail));
  }

  /** How many of `n` offsets the loop tries to read. */
  function OffsetReads(s: seq<bool>, pos: nat, n: int): nat
    decreases n
  {
    if n <= 0 then 0
    else match Se(s, pos)
      case None => 1
      case Some((offset, p)) => 1 + OffsetReads(s, p, n - 1)
  }

  /** Whatever count the stream claims, the loop runs at most once per unread bit and once more. */
  lemma {:induction false} OffsetWorkBounded(s: seq<bool>, pos: nat, n: int)
    requires pos <= |s|
    ensures OffsetReads(s, pos, n) <= |s| - pos + 1
    decreases n
  {
    if n > 0 && Se(s, pos).Some? {
      OffsetWorkBounded(s, Se(s, pos).value.1, n - 1);
    }
  }
}
