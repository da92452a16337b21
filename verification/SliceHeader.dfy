/**
The keyframe test for non-IDR slices (protocol/annexb.cpp, SliceType): two
Exp-Golomb codes read from the first byte of the NAL unit on, header included.
*/
module SliceHeader {
  import opened Bytes
  import opened Bits
  import ExpGolomb

  const MAX_ZEROS := 24

  /** The next bit, or -1 at the end of the data. */
  function NextBit(d: seq<byte>, pos: nat): (b: int)
    ensures -1 <= b <= 1
  {
    if pos >= 8 * |d| then -1 else BitAt(d, pos)
  }

  /** The cursor moves only while there is data. */
  function Advance(d: seq<byte>, pos: nat): nat {
    if pos >= 8 * |d| then pos else pos + 1
  }

  /** Zero bits counted up to the first bit that is not 0, on top of `zeros`; None above 24. */
  function CountZeros(d: seq<byte>, pos: nat, zeros: nat): Option<(nat, nat)>
    requires zeros <= MAX_ZEROS
    decreases MAX_ZEROS - zeros, |d|
  {
    if NextBit(d, pos) != 0 then Some((zeros, Advance(d, pos)))
    else if zeros == MAX_ZEROS then None
    else CountZeros(d, Advance(d, pos), zeros + 1)
  }

  /** `(v << 1) | bit`, where a missing bit is -1 and sets every bit of the result. */
  function ShiftIn(v: int, b: int): int {
    if b == -1 then -1 else 2 * v + b
  }

  function ReadInto(d: seq<byte>, pos: nat, v: int, n: nat): (int, nat)
    decreases n
  {
    if n == 0 then (v, pos) else ReadInto(d, Advance(d, pos), ShiftIn(v, NextBit(d, pos)), n - 1)
  }

  /** One ue(v) code: its value (negative when undecodable) and the cursor behind it. */
  function Code(d: seq<byte>, pos: nat): (int, nat) {
    match CountZeros(d, pos, 0)
    case None => (-1, pos)
    case Some((zeros, p)) =>
      var (v, q) := ReadInto(d, p, 1, zeros);
      (v - 1, q)
  }

  function SliceTypeOf(nalu: seq<byte>): int {
    var (first, p) := Code(nalu, 0);
    if first < 0 then -1
    else
      var t := Code(nalu, p).0;
      if 0 <= t <= 9 then t else -1
  }

  method ReadCode(d: seq<byte>, from: nat) returns (value: int, pos: nat)
    ensures value == Code(d, from).0
    ensures value >= 0 ==> pos == Code(d, from).1
  {
    var zeros := 0;
    pos := from;
    while NextBit(d, pos) == 0
      invariant zeros <= MAX_ZEROS
      invariant CountZeros(d, pos, zeros) == CountZeros(d, from, 0)
      decreases MAX_ZEROS - zeros
    {
      if zeros == MAX_ZEROS {
        return -1, pos;
      }
      pos := Advance(d, pos);
      zeros := zeros + 1;
    }
    pos := Advance(d, pos);
    value := 1;
    var i := 0;
    while i < zeros
      invariant 0 <= i <= zeros
      invariant CountZeros(d, from, 0).Some? && CountZeros(d, from, 0).value.0 == zeros
      invariant ReadInto(d, pos, value, zeros - i) ==
                ReadInto(d, CountZeros(d, from, 0).value.1, 1, zeros)
    {
      value := ShiftIn(value, NextBit(d, pos));
      pos := Advance(d, pos);
      i := i + 1;
    }
    value := value - 1;
  }

  method SliceType(nalu: seq<byte>) returns (t: int)
    ensures t == SliceTypeOf(nalu)
  {
    var first, pos := ReadCode(nalu, 0);
    if first < 0 {
      return -1;
    }
    t, pos := ReadCode(nalu, pos);
    if t > 9 || t < 0 {
      t := -1;
    }
  }

  /** A unit of type 1: the low five header bits are 00001. */
  predicate TypeOne(nalu: seq<byte>) { nalu != [] && nalu[0] % 32 == 1 }

  /** The bits of such a header: three free ones, four zeros and a one. */
  lemma HeaderBits(d: seq<byte>)
    requires TypeOne(d)
    ensures forall k | 3 <= k < 7 :: BitAt(d, k) == 0
    ensures BitAt(d, 7) == 1
    ensures d[0] == 1 + 32 * (4 * BitAt(d, 0) + 2 * BitAt(d, 1) + BitAt(d, 2))
  {
    assert Pow2(1) == 2 && Pow2(2) == 4 && Pow2(3) == 8;
    assert Pow2(4) == 16 && Pow2(5) == 32 && Pow2(6) == 64 && Pow2(7) == 128;
    var m := d[0] / 32;
    assert d[0] == 1 + 32 * m && 0 <= m < 8;
    assert m == 0 || m == 1 || m == 2 || m == 3 || m == 4 || m == 5 || m == 6 || m == 7;
    assert BitAt(d, 3) == 0 && BitAt(d, 4) == 0 && BitAt(d, 5) == 0 && BitAt(d, 6) == 0;
  }

  /** Reading n bits behind `v` lands in [v * 2^n, (v + 1) * 2^n) unless the data ends. */
  lemma {:induction false} ReadIntoRange(d: seq<byte>, pos: nat, v: int, n: nat)
    requires v >= 1
    ensures var r := ReadInto(d, pos, v, n).0;
            r == -1 || v * Pow2(n) <= r < (v + 1) * Pow2(n)
    decreases n
  {
    if n > 0 {
      if pos >= 8 * |d| {
        AtEnd(d, pos, -1, n - 1);
      } else {
        ReadIntoRange(d, pos + 1, 2 * v + BitAt(d, pos), n - 1);
        ShiftBounds(v, BitAt(d, pos), Pow2(n - 1));
      }
    }
  }

  lemma ShiftBounds(v: int, b: int, q: nat)
    requires 0 <= b <= 1
    ensures v * (2 * q) <= (2 * v + b) * q
    ensures (2 * v + b + 1) * q <= (v + 1) * (2 * q)
  {
    assert (2 * v + b) * q == v * (2 * q) + b * q;
    assert (2 * v + b + 1) * q == v * (2 * q) + (b + 1) * q;
    assert (v + 1) * (2 * q) == v * (2 * q) + 2 * q;
  }

  lemma {:induction false} AtEnd(d: seq<byte>, pos: nat, v: int, n: nat)
    requires pos >= 8 * |d|
    ensures ReadInto(d, pos, v, n).0 == if n == 0 then v else -1
    decreases n
  {
    if n > 0 {
      AtEnd(d, pos, -1, n - 1);
    }
  }

  lemma ZerosBeforeOne(d: seq<byte>, pos: nat, zeros: nat, n: nat)
    requires zeros + n <= MAX_ZEROS && pos + n < 8 * |d|
    requires forall k | pos <= k < pos + n :: BitAt(d, k) == 0
    requires BitAt(d, pos + n) == 1
    ensures CountZeros(d, pos, zeros) == Some((zeros + n, pos + n + 1))
    decreases n
  {
    if n > 0 {
      ZerosBeforeOne(d, pos + 1, zeros + 1, n - 1);
    }
  }

  /** With forbidden bit 0 the first code ends inside the header, unless the header is 0x01. */
  lemma {:induction false} ClearTopBit(d: seq<byte>)
    requires TypeOne(d) && d[0] != 1 && BitAt(d, 0) == 0
    ensures SliceTypeOf(d) != 7
  {
    HeaderBits(d);
    if BitAt(d, 1) == 0 {
      ZerosBeforeOne(d, 0, 0, 2);
      assert ReadInto(d, 4, 2, 1) == (4, 5);
      assert Code(d, 0) == (3, 5);
      ZerosBeforeOne(d, 5, 0, 2);
      ReadIntoRange(d, 8, 1, 2);
      assert Pow2(2) == 4;
    } else {
      ZerosBeforeOne(d, 0, 0, 1);
      assert ReadInto(d, 2, 1, 1) == ReadInto(d, 3, 2 + BitAt(d, 2), 0);
      assert Code(d, 0) == (1 + BitAt(d, 2), 3);
      ZerosBeforeOne(d, 3, 0, 4);
      ReadIntoRange(d, 8, 1, 4);
      assert Pow2(4) == 16;
    }
  }

  /** With forbidden bit 1 the first code is that bit alone and the second one begins in the header. */
  lemma {:induction false} SetTopBit(d: seq<byte>)
    requires TypeOne(d) && BitAt(d, 0) == 1
    ensures SliceTypeOf(d) != 7
  {
    HeaderBits(d);
    ZerosBeforeOne(d, 0, 0, 0);
    assert Code(d, 0) == (0, 1);
    if BitAt(d, 1) == 1 {
      ZerosBeforeOne(d, 1, 0, 0);
      assert Code(d, 1) == (0, 2);
    } else if BitAt(d, 2) == 1 {
      ZerosBeforeOne(d, 1, 0, 1);
      assert ReadInto(d, 3, 1, 1) == ReadInto(d, 4, 2, 0);
      assert Code(d, 1) == (1, 4);
    } else {
      ZerosBeforeOne(d, 1, 0, 6);
      ReadIntoRange(d, 8, 1, 6);
      assert Pow2(6) == 64;
    }
  }

  /** Because the header byte is read as slice data, no type 1 unit yields slice_type 7 but behind header 0x01. */
  lemma OtherHeaderNeverSeven(d: seq<byte>)
    requires TypeOne(d) && d[0] != 1
    ensures SliceTypeOf(d) != 7
  {
    HeaderBits(d);
    if BitAt(d, 0) == 0 {
      ClearTopBit(d);
    } else {
      SetTopBit(d);
    }
  }

  /** A non-reference slice, behind header 0x01, can be read as slice_type 7 although it is no IDR slice. */
  lemma {:induction false} NonReferenceSliceCanBeSeven()
    ensures SliceTypeOf([0x01, 0x00, 0x20]) == 7
  {
    var d: seq<byte> := [0x01, 0x00, 0x20];
    ExampleBits(d);
    ZerosBeforeOne(d, 0, 0, 7);
    AllZeroBits(d, 8, 1, 7);
    assert Code(d, 0) == (127, 15);
    ZerosBeforeOne(d, 15, 0, 3);
    AllZeroBits(d, 19, 1, 3);
    assert Code(d, 15) == (7, 22);
  }

  lemma ExampleBits(d: seq<byte>)
    requires d == [0x01, 0x00, 0x20]
    ensures forall k | 0 <= k < 7 || 8 <= k < 18 || 19 <= k < 22 :: BitAt(d, k) == 0
    ensures BitAt(d, 7) == BitAt(d, 18) == 1
    ensures Pow2(3) == 8 && Pow2(7) == 128
  {
    assert Pow2(1) == 2 && Pow2(2) == 4 && Pow2(3) == 8;
    assert Pow2(4) == 16 && Pow2(5) == 32 && Pow2(6) == 64 && Pow2(7) == 128;
    forall k | 0 <= k < 7
      ensures BitAt(d, k) == 0
    {
      assert k == 0 || k == 1 || k == 2 || k == 3 || k == 4 || k == 5 || k == 6;
    }
    forall k | 16 <= k < 24
      ensures k != 18 ==> BitAt(d, k) == 0
      ensures k == 18 ==> BitAt(d, k) == 1
    {
      assert k == 16 || k == 17 || k == 18 || k == 19 || k == 20 || k == 21 || k == 22 || k == 23;
    }
  }

  lemma {:induction false} AllZeroBits(d: seq<byte>, pos: nat, v: nat, n: nat)
    requires pos + n <= 8 * |d|
    requires forall k | pos <= k < pos + n :: BitAt(d, k) == 0
    ensures ReadInto(d, pos, v, n) == (v * Pow2(n), pos + n)
    decreases n
  {
    if n > 0 {
      assert BitAt(d, pos) == 0;
      AllZeroBits(d, pos + 1, 2 * v, n - 1);
      Doubled(v, Pow2(n - 1));
    }
  }

  lemma Doubled(v: nat, q: nat)
    ensures 2 * v * q == v * (2 * q)
  {
  }

  /** A type 1 header excludes slice_type 7 for all contents if and only if it is not 0x01. */
  lemma NeverSevenIff(h: byte)
    requires h % 32 == 1
    ensures (forall c: seq<byte> :: SliceTypeOf([h] + c) != 7) <==> h != 1
  {
    if h == 1 {
      var c := OneCanBeSeven();
      assert SliceTypeOf([h] + c) == 7;
    } else {
      forall c: seq<byte>
        ensures SliceTypeOf([h] + c) != 7
      {
        OtherHeaderNeverSeven([h] + c);
      }
    }
  }

  lemma OneCanBeSeven() returns (c: seq<byte>)
    ensures SliceTypeOf([1] + c) == 7
  {
    c := [0x00, 0x20];
    NonReferenceSliceCanBeSeven();
    assert [1] + c == [0x01, 0x00, 0x20];
  }

  // ----- The second code ----------------------------------------------------------------------

  lemma {:induction false} ReadIntoBits(d: seq<byte>, pos: nat, bits: seq<bool>, acc: nat)
    requires ExpGolomb.At(BitsOf(d), pos, bits)
    ensures ReadInto(d, pos, acc, |bits|) == (ExpGolomb.Appended(acc, bits), pos + |bits|)
    decreases |bits|
  {
    if bits != [] {
      var b, t := bits[0], bits[1..];
      assert bits == [b] + t;
      ExpGolomb.AtSplit(BitsOf(d), pos, [b], t);
      NextBitIs(d, pos, b);
      ReadIntoBits(d, pos + 1, t, 2 * acc + BitOf(b));
    }
  }

  lemma NextBitIs(d: seq<byte>, pos: nat, b: bool)
    requires ExpGolomb.At(BitsOf(d), pos, [b])
    ensures pos < 8 * |d| && NextBit(d, pos) == BitOf(b)
  {
    assert BitsOf(d)[pos] == BitsOf(d)[pos..pos + 1][0] == b;
  }

  /** Zeros, a one and as many more bits are read as the number they spell. */
  lemma CodeParts(d: seq<byte>, pos: nat, m: nat, t: seq<bool>, v: nat)
    requires m == |t| <= 24 && v == ExpGolomb.Appended(1, t)
    requires ExpGolomb.At(BitsOf(d), pos, ExpGolomb.Zeros(m)) && ExpGolomb.At(BitsOf(d), pos + m, [true])
    requires ExpGolomb.At(BitsOf(d), pos + m + 1, t)
    ensures Code(d, pos) == (v - 1, pos + m + 1 + m)
  {
    var p := pos + m + 1;
    assert CountZeros(d, pos, 0) == Some((m, p)) by { ZerosCounted(d, pos, m); }
    assert ReadInto(d, p, 1, m) == (v, p + m) by { ReadIntoBits(d, p, t, 1); }
    CodeIs(d, pos, m, p, v, p + m);
  }

  lemma ZerosCounted(d: seq<byte>, pos: nat, n: nat)
    requires n <= 24 && ExpGolomb.At(BitsOf(d), pos, ExpGolomb.Zeros(n))
    requires ExpGolomb.At(BitsOf(d), pos + n, [true])
    ensures CountZeros(d, pos, 0) == Some((n, pos + n + 1))
  {
    var s := BitsOf(d);
    ExpGolomb.AtZeros(s, pos, n);
    assert s[pos + n] == s[pos + n..pos + n + 1][0];
    forall k | pos <= k < pos + n
      ensures BitAt(d, k) == 0
    {
      assert !s[k];
    }
    ZerosBeforeOne(d, pos, 0, n);
  }

  lemma CodeIs(d: seq<byte>, pos: nat, zeros: nat, p: nat, v: int, q: nat)
    requires CountZeros(d, pos, 0) == Some((zeros, p)) && ReadInto(d, p, 1, zeros) == (v, q)
    ensures Code(d, pos) == (v - 1, q)
  {
  }

  /** A printed code is read back, wherever it stands, up to 24 leading zeros. */
  lemma CodeRead(d: seq<byte>, pos: nat, v: nat)
    requires v + 1 < 0x200_0000 && ExpGolomb.At(BitsOf(d), pos, ExpGolomb.UeBits(v))
    ensures Code(d, pos) == (v as int, pos + |ExpGolomb.UeBits(v)|)
  {
    var t := ShortBinary(v + 1);
    CodeOfForm(d, pos, |t|, t, v + 1);
  }

  lemma CodeOfForm(d: seq<byte>, pos: nat, m: nat, t: seq<bool>, v: nat)
    requires m == |t| <= 24 && v == ExpGolomb.Appended(1, t)
    requires ExpGolomb.At(BitsOf(d), pos, ExpGolomb.Zeros(m) + ([true] + t))
    ensures Code(d, pos) == (v - 1, pos + m + 1 + m)
  {
    ExpGolomb.AtPrefixed(BitsOf(d), pos, t);
    CodeParts(d, pos, m, t, v);
  }

  lemma ShortBinary(n: nat) returns (t: seq<bool>)
    requires 0 < n < 0x200_0000
    ensures ExpGolomb.Binary(n) == [true] + t && |t| <= 24 && ExpGolomb.Appended(1, t) == n
  {
    assert Pow2(8) == 256 && Pow2(16) == 0x1_0000 && Pow2(25) == 0x200_0000;
    ExpGolomb.BinaryShort(n, 25);
    t := ExpGolomb.BinaryForm(n);
  }

  /** What is reported is the second of the codes the whole unit begins with, when that is 0 to 9. */
  lemma SecondCodeRead(nalu: seq<byte>, first: nat, second: nat)
    requires first + 1 < 0x200_0000 && second + 1 < 0x200_0000
    requires ExpGolomb.At(BitsOf(nalu), 0, ExpGolomb.UeBits(first) + ExpGolomb.UeBits(second))
    ensures SliceTypeOf(nalu) == if second <= 9 then second else -1
  {
    var a, b := ExpGolomb.UeBits(first), ExpGolomb.UeBits(second);
    ExpGolomb.AtSplit(BitsOf(nalu), 0, a, b);
    CodeRead(nalu, 0, first);
    CodeRead(nalu, |a|, second);
  }

  /** A 25th zero is undecodable. */
  lemma {:induction false} TooManyZeros(d: seq<byte>, pos: nat, zeros: nat)
    requires zeros <= 24 && pos + 25 - zeros <= 8 * |d|
    requires forall k | pos <= k < pos + 25 - zeros :: BitAt(d, k) == 0
    ensures CountZeros(d, pos, zeros) == None && (zeros == 0 ==> Code(d, pos).0 == -1)
    decreases 24 - zeros
  {
    if zeros < 24 {
      TooManyZeros(d, pos + 1, zeros + 1);
    }
  }
}
