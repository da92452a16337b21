/**
The bit reader of protocol/sps.cpp and the Exp-Golomb codes of H.264 sections
9.1 and 9.1.1.  A C++ throw is None; `int` arithmetic wraps at 32 bits.
*/
module ExpGolomb {
  import opened Bytes
  import opened Bits

  /** A value and the cursor behind it. */
  type Read = Option<(int, nat)>

  const MAX_ZEROS := 32

  // ----- What each read returns -------------------------------------------------

  function BitFrom(s: seq<bool>, pos: nat): Read {
    if pos >= |s| then None else Some((BitOf(s[pos]), pos + 1))
  }

  /** n more bits behind `acc`. */
  function BitsFrom(s: seq<bool>, pos: nat, n: nat, acc: int): (r: Read)
    ensures r.Some? ==> r.value.1 == pos + n && (n > 0 ==> pos + n <= |s|)
    decreases n, |s|
  {
    if n == 0 then Some((acc, pos))
    else if pos >= |s| then None
    else BitsFrom(s, pos + 1, n - 1, Wrap32(2 * acc + BitOf(s[pos])))
  }

  function U(s: seq<bool>, pos: nat, n: nat): Read {
    BitsFrom(s, pos, n, 0)
  }

  /** Zero bits up to the next one bit on top of `zeros`; None above 32 or at the end. */
  function ZerosFrom(s: seq<bool>, pos: nat, zeros: nat): (r: Read)
    requires zeros <= MAX_ZEROS
    ensures r.Some? ==> 0 <= r.value.0 <= MAX_ZEROS && pos < r.value.1 <= |s|
    decreases if pos < |s| then |s| - pos else 0
  {
    if pos >= |s| then None
    else if s[pos] then Some((zeros, pos + 1))
    else if zeros == MAX_ZEROS then None
    else ZerosFrom(s, pos + 1, zeros + 1)
  }

  function Ue(s: seq<bool>, pos: nat): (r: Read)
    ensures r.Some? ==> pos < r.value.1 <= |s|
    ensures r.Some? ==> -0x8000_0000 <= r.value.0 < 0x8000_0000
  {
    var (zeros, p) :- ZerosFrom(s, pos, 0);
    var (v, q) :- BitsFrom(s, p, zeros, 1);
    Some((Wrap32(v - 1), q))
  }

  function SignedOf(codeNum: int): int {
    if CMod(codeNum, 2) == 0 then -CDiv(codeNum, 2) else CDiv(Wrap32(codeNum + 1), 2)
  }

  function Se(s: seq<bool>, pos: nat): (r: Read)
    ensures r.Some? ==> pos < r.value.1 <= |s|
  {
    var (codeNum, p) :- Ue(s, pos);
    Some((SignedOf(codeNum), p))
  }

  // ----- The reader -------------------------------------------------------------

  ghost predicate Agrees(spec: Read, value: Option<int>, pos: nat) {
    match spec
    case None => value == None
    case Some((v, p)) => value == Some(v) && pos == p
  }

  class BitReader {
    const data: seq<byte>
    ghost const bits: seq<bool>
    var pos: nat

    ghost predicate Valid()
      reads this
    {
      bits == BitsOf(data)
    }

    constructor (data: seq<byte>)
      ensures Valid() && this.data == data && pos == 0
    {
      this.data := data;
      bits := BitsOf(data);
      pos := 0;
    }

    method Bit() returns (b: Option<int>)
      requires Valid()
      modifies this
      ensures Valid() && Agrees(BitFrom(bits, old(pos)), b, pos)
    {
      if pos / 8 >= |data| {
        return None;
      }
      b := Some(BitAt(data, pos));
      pos := pos + 1;
    }

    method ReadU(n: nat) returns (value: Option<int>)
      requires Valid()
      modifies this
      ensures Valid() && Agrees(U(bits, old(pos), n), value, pos)
    {
      value := Shift(0, n);
    }

    /** Shifts n more bits into `acc`: the loop both u and ue run. */
    method Shift(acc: int, n: nat) returns (value: Option<int>)
      requires Valid()
      modifies this
      ensures Valid() && Agrees(BitsFrom(bits, old(pos), n, acc), value, pos)
    {
      var v := acc;
      for i := 0 to n
        invariant BitsFrom(bits, pos, n - i, v) == BitsFrom(bits, old(pos), n, acc)
      {
        var b :- Bit();
        v := Wrap32(2 * v + b);
      }
      value := Some(v);
    }

    /** Counts zero bits up to and including the first one bit; a 33rd zero throws. */
    method LeadingZeros() returns (zeros: Option<int>)
      requires Valid()
      modifies this
      ensures Valid() && Agrees(ZerosFrom(bits, old(pos), 0), zeros, pos)
    {
      var leadingZeros := 0;
      var b :- Bit();
      while b == 0
        invariant leadingZeros <= MAX_ZEROS
        invariant 0 < pos <= |bits| && b == BitOf(bits[pos - 1])
        invariant ZerosFrom(bits, old(pos), 0) == ZerosFrom(bits, pos - 1, leadingZeros)
        decreases MAX_ZEROS - leadingZeros
      {
        if leadingZeros == MAX_ZEROS {
          return None;
        }
        leadingZeros := leadingZeros + 1;
        b :- Bit();
      }
      zeros := Some(leadingZeros);
    }

    method ReadUe() returns (value: Option<int>)
      requires Valid()
      modifies this
      ensures Valid() && Agrees(Ue(bits, old(pos)), value, pos)
    {
      var leadingZeros :- LeadingZeros();
      var v :- Shift(1, leadingZeros);
      value := Some(Wrap32(v - 1));
    }

    method ReadSe() returns (value: Option<int>)
      requires Valid()
      modifies this
      ensures Valid() && Agrees(Se(bits, old(pos)), value, pos)
    {
      var codeNum :- ReadUe();
      value := Some(SignedOf(codeNum));
    }
  }

  // ----- The printer of the standard ----------------------------------------------

  /** The stream continues with `bits` at `pos`. */
  ghost predicate At(s: seq<bool>, pos: nat, bits: seq<bool>) {
    pos + |bits| <= |s| && s[pos..pos + |bits|] == bits
  }

  lemma AtSplit(s: seq<bool>, pos: nat, a: seq<bool>, b: seq<bool>)
    requires At(s, pos, a + b)
    ensures At(s, pos, a) && At(s, pos + |a|, b)
  {
    var t := s[pos..pos + |a| + |b|];
    assert t[..|a|] == a && t[|a|..] == b;
    assert s[pos..pos + |a|] == t[..|a|];
  }

  /** The number `acc` becomes when `bits` are appended to it. */
  function Appended(acc: nat, bits: seq<bool>): nat
    decreases |bits|
  {
    if bits == [] then acc else Appended(2 * acc + BitOf(bits[0]), bits[1..])
  }

  lemma {:induction false} AppendedSnoc(acc: nat, bits: seq<bool>, b: bool)
    ensures Appended(acc, bits + [b]) == 2 * Appended(acc, bits) + BitOf(b)
    decreases |bits|
  {
    if bits == [] {
      assert bits + [b] == [b] && [b][1..] == [];
    } else {
      assert (bits + [b])[0] == bits[0] && (bits + [b])[1..] == bits[1..] + [b];
      AppendedSnoc(2 * acc + BitOf(bits[0]), bits[1..], b);
    }
  }

  lemma {:induction false} AppendedGrows(acc: nat, bits: seq<bool>)
    ensures Appended(acc, bits) >= acc
    decreases |bits|
  {
    if bits != [] {
      AppendedGrows(2 * acc + BitOf(bits[0]), bits[1..]);
    }
  }

  lemma {:induction false} ReadBits(s: seq<bool>, pos: nat, bits: seq<bool>, acc: nat)
    requires At(s, pos, bits) && Appended(acc, bits) < 0x8000_0000
    ensures BitsFrom(s, pos, |bits|, acc) == Some((Appended(acc, bits), pos + |bits|))
    decreases |bits|
  {
    if bits != [] {
      var b, t := bits[0], bits[1..];
      var v := 2 * acc + BitOf(b);
      assert bits == [b] + t;
      AtSplit(s, pos, [b], t);
      assert s[pos] == s[pos..pos + 1][0] == b;
      AppendedGrows(v, t);
      ReadBits(s, pos + 1, t, v);
    }
  }

  /** Binary digits of n without leading zeros. */
  function Binary(n: nat): (b: seq<bool>)
    requires n > 0
    ensures |b| > 0 && b[0]
  {
    if n == 1 then [true] else Binary(n / 2) + [n % 2 == 1]
  }

  lemma {:induction false} BinaryValue(n: nat)
    requires n > 0
    ensures Appended(1, Binary(n)[1..]) == n
  {
    if n > 1 {
      BinaryValue(n / 2);
      assert Binary(n)[1..] == Binary(n / 2)[1..] + [n % 2 == 1];
      AppendedSnoc(1, Binary(n / 2)[1..], n % 2 == 1);
    }
  }

  function Zeros(n: nat): (b: seq<bool>)
    ensures |b| == n
  {
    seq(n, _ => false)
  }

  /** ue(v), section 9.1: as many zeros as v + 1 has digits after its first, then v + 1. */
  function UeBits(v: nat): seq<bool> {
    Zeros(|Binary(v + 1)| - 1) + Binary(v + 1)
  }

  /** The code number of a signed value, section 9.1.1. */
  function CodeNumOf(v: int): nat {
    if v > 0 then 2 * v - 1 else -2 * v
  }

  lemma SignedInverse(v: int)
    requires -0x3fff_ffff <= v <= 0x3fff_ffff
    ensures SignedOf(CodeNumOf(v)) == v
  {
  }

  function SeBits(v: int): seq<bool> {
    UeBits(CodeNumOf(v))
  }

  function UBits(v: nat, n: nat): (b: seq<bool>)
    ensures |b| == n
  {
    if n == 0 then [] else UBits(v / 2, n - 1) + [v % 2 == 1]
  }

  lemma {:induction false} UBitsValue(v: nat, n: nat)
    requires v < Pow2(n)
    ensures Appended(0, UBits(v, n)) == v
  {
    if n > 0 {
      UBitsValue(v / 2, n - 1);
      AppendedSnoc(0, UBits(v / 2, n - 1), v % 2 == 1);
    }
  }

  lemma {:induction false} BinaryShort(n: nat, k: nat)
    requires 0 < n < Pow2(k)
    ensures |Binary(n)| <= k
  {
    if n > 1 {
      BinaryShort(n / 2, k - 1);
    }
  }

  lemma {:induction false} SkipZeros(s: seq<bool>, pos: nat, zeros: nat, n: nat)
    requires zeros + n <= MAX_ZEROS && pos + n < |s|
    requires forall k | pos <= k < pos + n :: !s[k]
    requires s[pos + n]
    ensures ZerosFrom(s, pos, zeros) == Some((zeros + n, pos + n + 1))
    decreases n
  {
    if n > 0 {
      SkipZeros(s, pos + 1, zeros + 1, n - 1);
    }
  }

  lemma AtZeros(s: seq<bool>, pos: nat, m: nat)
    requires At(s, pos, Zeros(m))
    ensures forall k | pos <= k < pos + m :: !s[k]
  {
    forall k | pos <= k < pos + m
      ensures !s[k]
    {
      assert s[k] == s[pos..pos + m][k - pos];
    }
  }

  /** m zeros, a one and m more bits are read as the number those last m + 1 bits spell. */
  lemma ReadPrefixed(s: seq<bool>, pos: nat, m: nat, t: seq<bool>)
    requires m == |t| <= MAX_ZEROS && Appended(1, t) < 0x8000_0000
    requires At(s, pos, Zeros(m)) && At(s, pos + m, [true]) && At(s, pos + m + 1, t)
    ensures Ue(s, pos) == Some((Appended(1, t) - 1, pos + m + 1 + m))
  {
    ReadPrefix(s, pos, m);
    ReadBits(s, pos + m + 1, t, 1);
    AppendedGrows(1, t);
    UeParts(s, pos, (m, pos + m + 1), (Appended(1, t), pos + m + 1 + m));
  }

  lemma AtPrefixed(s: seq<bool>, pos: nat, t: seq<bool>)
    requires At(s, pos, Zeros(|t|) + ([true] + t))
    ensures At(s, pos, Zeros(|t|)) && At(s, pos + |t|, [true]) && At(s, pos + |t| + 1, t)
  {
    AtSplit(s, pos, Zeros(|t|), [true] + t);
    AtSplit(s, pos + |t|, [true], t);
  }

  lemma UeParts(s: seq<bool>, pos: nat, zeros: (nat, nat), value: (int, nat))
    requires ZerosFrom(s, pos, 0) == Some(zeros)
    requires BitsFrom(s, zeros.1, zeros.0, 1) == Some(value)
    ensures Ue(s, pos) == Some((Wrap32(value.0 - 1), value.1))
  {
  }

  lemma ReadPrefix(s: seq<bool>, pos: nat, m: nat)
    requires m <= MAX_ZEROS
    requires At(s, pos, Zeros(m)) && At(s, pos + m, [true])
    ensures ZerosFrom(s, pos, 0) == Some((m, pos + m + 1))
  {
    assert s[pos + m] == s[pos + m..pos + m + 1][0];
    AtZeros(s, pos, m);
    SkipZeros(s, pos, 0, m);
  }

  /** Reading inverts writing for every code of up to 30 leading zeros. */
  lemma UeRoundTrip(s: seq<bool>, pos: nat, v: nat)
    requires v + 1 < 0x8000_0000
    requires At(s, pos, UeBits(v))
    ensures Ue(s, pos) == Some((v, pos + |UeBits(v)|))
  {
    var t := BinaryForm(v + 1);
    AtPrefixed(s, pos, t);
    ReadPrefixed(s, pos, |t|, t);
  }

  lemma {:induction false} BinaryForm(n: nat) returns (t: seq<bool>)
    requires 0 < n < 0x8000_0000
    ensures Binary(n) == [true] + t && |t| <= 30 && Appended(1, t) == n
  {
    Pow2ThirtyOne();
    BinaryShort(n, 31);
    BinaryValue(n);
    t := Binary(n)[1..];
  }

  lemma SeRoundTrip(s: seq<bool>, pos: nat, v: int)
    requires -0x3fff_ffff <= v <= 0x3fff_ffff
    requires At(s, pos, SeBits(v))
    ensures Se(s, pos) == Some((v, pos + |SeBits(v)|))
  {
    UeRoundTrip(s, pos, CodeNumOf(v));
    SignedInverse(v);
  }

  lemma URoundTrip(s: seq<bool>, pos: nat, v: nat, n: nat)
    requires n <= 8 && v < Pow2(n)
    requires At(s, pos, UBits(v, n))
    ensures U(s, pos, n) == Some((v, pos + n))
  {
    UBitsValue(v, n);
    Pow2Eight(n);
    ReadBits(s, pos, UBits(v, n), 0);
  }

  // ----- Appending data -----------------------------------------------------------

  lemma {:induction false} BitsKept(s: seq<bool>, t: seq<bool>, pos: nat, n: nat, acc: int)
    requires BitsFrom(s, pos, n, acc).Some?
    ensures BitsFrom(s + t, pos, n, acc) == BitsFrom(s, pos, n, acc)
    decreases n
  {
    if n > 0 {
      BitsKept(s, t, pos + 1, n - 1, Wrap32(2 * acc + BitOf(s[pos])));
    }
  }

  lemma {:induction false} ZerosKept(s: seq<bool>, t: seq<bool>, pos: nat, zeros: nat)
    requires zeros <= MAX_ZEROS
    requires ZerosFrom(s, pos, zeros).Some?
    ensures ZerosFrom(s + t, pos, zeros) == ZerosFrom(s, pos, zeros)
    decreases MAX_ZEROS - zeros
  {
    if !s[pos] {
      ZerosKept(s, t, pos + 1, zeros + 1);
    }
  }

  /** A code that was read is read the same when the data goes on. */
  lemma UeKept(s: seq<bool>, t: seq<bool>, pos: nat)
    requires Ue(s, pos).Some?
    ensures Ue(s + t, pos) == Ue(s, pos)
  {
    ZerosKept(s, t, pos, 0);
    var (zeros, p) := ZerosFrom(s, pos, 0).value;
    BitsKept(s, t, p, zeros, 1);
  }

  // ----- Long codes ---------------------------------------------------------------------------

  lemma {:induction false} WrapMany(v: int, k: nat)
    ensures Wrap32(v + 0x1_0000_0000 * k) == Wrap32(v) == Wrap32(v - 0x1_0000_0000 * k)
    decreases k
  {
    if k > 0 {
      WrapMany(v, k - 1);
      WrapOnce(v + 0x1_0000_0000 * (k - 1));
      WrapOnce(v - 0x1_0000_0000 * k);
    }
  }

  lemma {:induction false} WrapOnce(v: int)
    ensures Wrap32(v + 0x1_0000_0000) == Wrap32(v)
    decreases if v < 0 then -v else v
  {
  }

  lemma WrapParts(v: nat) returns (k: nat)
    ensures v == Wrap32(v) + 0x1_0000_0000 * k
    decreases v
  {
    if v < 0x8000_0000 {
      k := 0;
    } else if v < 0x1_0000_0000 {
      k := 1;
    } else {
      k := WrapParts(v - 0x1_0000_0000);
      k := k + 1;
    }
  }

  /** Shifting a bit in, or subtracting one, wraps around in the same way before and after. */
  lemma WrapShift(v: nat, b: int)
    ensures Wrap32(2 * Wrap32(v) + b) == Wrap32(2 * v + b)
    ensures Wrap32(Wrap32(v) - 1) == Wrap32(v - 1)
  {
    var k := WrapParts(v);
    WrapMany(2 * Wrap32(v) + b, 2 * k);
    WrapMany(Wrap32(v) - 1, k);
  }

  lemma {:induction false} ReadBitsWrapped(s: seq<bool>, pos: nat, bits: seq<bool>, acc: nat)
    requires At(s, pos, bits)
    ensures BitsFrom(s, pos, |bits|, Wrap32(acc)) == Some((Wrap32(Appended(acc, bits)), pos + |bits|))
    decreases |bits|
  {
    if bits != [] {
      var b, t := bits[0], bits[1..];
      assert bits == [b] + t;
      AtSplit(s, pos, [b], t);
      assert s[pos] == s[pos..pos + 1][0] == b;
      WrapShift(acc, BitOf(b));
      ReadBitsWrapped(s, pos + 1, t, 2 * acc + BitOf(b));
    }
  }

  /** Codes of up to 32 leading zeros are read as the number they spell, wrapped to 32 bits. */
  lemma LongCode(s: seq<bool>, pos: nat, m: nat, t: seq<bool>, v: nat)
    requires m == |t| <= 32 && v == Appended(1, t)
    requires At(s, pos, Zeros(m)) && At(s, pos + m, [true]) && At(s, pos + m + 1, t)
    ensures Ue(s, pos) == Some((Wrap32(v - 1), pos + m + 1 + m))
  {
    ReadPrefix(s, pos, m);
    assert Wrap32(1) == 1;
    ReadBitsWrapped(s, pos + m + 1, t, 1);
    WrapShift(v, 0);
    UeParts(s, pos, (m, pos + m + 1), (Wrap32(v), pos + m + 1 + m));
  }

  /** Every value whose code the reader takes in is read back, wrapped to 32 bits. */
  lemma LongRoundTrip(s: seq<bool>, pos: nat, v: nat)
    requires v + 1 < 0x2_0000_0000
    requires At(s, pos, UeBits(v))
    ensures Ue(s, pos) == Some((Wrap32(v), pos + |UeBits(v)|))
  {
    var t := LongBinary(v + 1);
    AtPrefixed(s, pos, t);
    LongCode(s, pos, |t|, t, v + 1);
  }

  lemma LongBinary(n: nat) returns (t: seq<bool>)
    requires 0 < n < 0x2_0000_0000
    ensures Binary(n) == [true] + t && |t| <= 32 && Appended(1, t) == n
  {
    Pow2ThirtyOne();
    assert Pow2(33) == 4 * Pow2(31);
    BinaryShort(n, 33);
    BinaryValue(n);
    t := Binary(n)[1..];
  }

  /** A 33rd zero is a failure. */
  lemma {:induction false} TooManyZeros(s: seq<bool>, pos: nat, zeros: nat)
    requires zeros <= 32 && pos + 33 - zeros <= |s|
    requires forall k | pos <= k < pos + 33 - zeros :: !s[k]
    ensures ZerosFrom(s, pos, zeros) == None && (zeros == 0 ==> Ue(s, pos) == None)
    decreases 32 - zeros
  {
    if zeros < 32 {
      TooManyZeros(s, pos + 1, zeros + 1);
    }
  }
}
