/** Bits of a byte sequence, most significant bit of each byte first. */
module Bits {
  import opened Bytes

  function Pow2(n: nat): (p: nat)
    ensures p > 0
  {
    if n == 0 then 1 else 2 * Pow2(n - 1)
  }

  lemma Pow2Table()
    ensures Pow2(0) == 1 && Pow2(1) == 2 && Pow2(2) == 4 && Pow2(3) == 8
    ensures Pow2(4) == 16 && Pow2(5) == 32 && Pow2(6) == 64 && Pow2(7) == 128
  {
  }

  lemma Pow2Eight(n: nat)
    requires n <= 8
    ensures Pow2(n) <= 256
  {
    Pow2Table();
    assert Pow2(8) == 256;
  }

  lemma Pow2ThirtyOne()
    ensures Pow2(31) == 0x8000_0000
  {
    assert Pow2(8) == 256 && Pow2(16) == 0x1_0000 && Pow2(24) == 0x100_0000;
  }

  function BitAt(d: seq<byte>, pos: nat): (b: int)
    requires pos < 8 * |d|
    ensures b == 0 || b == 1
  {
    d[pos / 8] / Pow2(7 - pos % 8) % 2
  }

  function BitOf(b: bool): (v: int)
    ensures 0 <= v <= 1
  {
    if b then 1 else 0
  }

  function BitsOf(d: seq<byte>): (s: seq<bool>)
    ensures |s| == 8 * |d|
  {
    seq(8 * |d|, k requires 0 <= k < 8 * |d| => BitAt(d, k) == 1)
  }

  lemma BitsOfAppend(d: seq<byte>, e: seq<byte>)
    ensures BitsOf(d + e) == BitsOf(d) + BitsOf(e)
  {
    forall k | 0 <= k < 8 * |d + e|
      ensures BitsOf(d + e)[k] == (BitsOf(d) + BitsOf(e))[k]
    {
      if k < 8 * |d| {
        assert (d + e)[k / 8] == d[k / 8];
      } else {
        assert k / 8 == (k - 8 * |d|) / 8 + |d| && k % 8 == (k - 8 * |d|) % 8;
        assert (d + e)[k / 8] == e[k / 8 - |d|];
      }
    }
  }

  /** The number with binary digits `b`. */
  function NumberOf(b: seq<bool>): (v: nat)
    ensures v < Pow2(|b|)
  {
    if b == [] then 0 else 2 * NumberOf(b[..|b| - 1]) + BitOf(b[|b| - 1])
  }

  lemma {:induction false} DigitOf(b: seq<bool>, k: nat)
    requires k < |b|
    ensures NumberOf(b) / Pow2(|b| - 1 - k) % 2 == BitOf(b[k])
    decreases |b|
  {
    var v, n := NumberOf(b), |b| - 1;
    if k < n {
      DigitOf(b[..n], k);
      assert v / 2 == NumberOf(b[..n]);
      HalveFirst(v, Pow2(n - 1 - k));
    }
  }

  lemma {:induction false} HalveFirst(v: nat, q: nat)
    requires q > 0
    ensures v / (2 * q) == v / 2 / q
  {
    var h := v / 2;
    var r := h / q;
    assert h == r * q + h % q;
    assert r * (2 * q) == 2 * (r * q);
    assert 2 * (r * q) <= v < 2 * (r * q) + 2 * q;
    QuotientUnique(v, 2 * q, r);
  }

  lemma {:induction false} QuotientUnique(v: nat, q: nat, r: nat)
    requires q > 0 && r * q <= v < r * q + q
    ensures v / q == r
  {
    var t := v / q;
    assert v == t * q + v % q;
    if t < r {
      ScaledLess(t, r, q);
    } else if t > r {
      ScaledLess(r, t, q);
    }
  }

  lemma {:induction false} ScaledLess(a: nat, b: nat, q: nat)
    requires a < b
    ensures a * q + q <= b * q
  {
    assert (b - a - 1) * q >= 0;
    assert b * q == a * q + q + (b - a - 1) * q;
  }

  function ByteOf(b: seq<bool>): byte
    requires |b| == 8
  {
    Pow2Eight(8);
    NumberOf(b)
  }

  lemma ByteBits(b: seq<bool>)
    requires |b| == 8
    ensures BitsOf([ByteOf(b)]) == b
  {
    forall k | 0 <= k < 8
      ensures BitAt([ByteOf(b)], k) == BitOf(b[k])
    {
      DigitOf(b, k);
    }
  }

  /** The bytes whose bits are `b`. */
  function Pack(b: seq<bool>): seq<byte>
    requires |b| % 8 == 0
  {
    if b == [] then [] else [ByteOf(b[..8])] + Pack(b[8..])
  }

  lemma {:induction false} PackBits(b: seq<bool>)
    requires |b| % 8 == 0
    ensures BitsOf(Pack(b)) == b
  {
    if b != [] {
      PackBits(b[8..]);
      ByteBits(b[..8]);
      BitsOfAppend([ByteOf(b[..8])], Pack(b[8..]));
      assert b[..8] + b[8..] == b;
    }
  }
}
