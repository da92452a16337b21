/**
IEEE 754 binary64 as the control messages use it: the double nearest to a real
number, found by counting in units of the smallest subnormal, 2^-1074.
*/
module Doubles {
  import opened Bits

  const PRECISION: real := 9007199254740992.0
  const UNIT_BITS: nat := 1074
  const RANGE_BITS: nat := 1024

  /** 2^k times x.  The real keeps the solver from unrolling a literal k. */
  function Doubled(x: real, k: nat): real
    decreases k, x
  {
    if k == 0 then x else 2.0 * Doubled(x, k - 1)
  }

  function Halved(x: real, k: nat): real
    decreases k, x
  {
    if k == 0 then x else Halved(x / 2.0, k - 1)
  }

  /** The nearest integer, the even one of two. */
  function RoundEven(q: real): int {
    var f := q.Floor;
    var d := q - f as real;
    if d < 0.5 || (d == 0.5 && f % 2 == 0) then f else f + 1
  }

  /** q units to 53 binary digits: from 2^53 on the steps double. */
  function Units(q: real): (n: nat)
    requires q >= 0.0
    decreases q.Floor
  {
    if q < PRECISION then RoundEven(q) else 2 * Units(q / 2.0)
  }

  lemma {:induction false} DoubledSign(x: real, k: nat)
    requires x >= 0.0
    ensures Doubled(x, k) >= x
    decreases k
  {
    if k > 0 {
      DoubledSign(x, k - 1);
    }
  }

  /** The double nearest to v, were the exponent not bounded above. */
  function Nearest(v: real): real
    requires v >= 0.0
  {
    DoubledSign(v, UNIT_BITS);
    Halved(Units(Doubled(v, UNIT_BITS)) as real, UNIT_BITS)
  }

  datatype Number = Absent | Finite(v: real) | Infinite(negative: bool) | NaN

  /** std::from_chars reports what rounds to 2^1024 or more, or from above 0 to 0, as out of range. */
  function Read(negative: bool, v: real): Number
    requires v >= 0.0
  {
    var r := Nearest(v);
    if Halved(r, RANGE_BITS) >= 1.0 || (v > 0.0 && r == 0.0) then Absent
    else Finite(if negative then -r else r)
  }

  function Signed(v: real): Number { Read(v < 0.0, if v < 0.0 then -v else v) }

  // ----- Scaling ----------------------------------------------------------------------------

  lemma {:induction false} HalvedDoubled(x: real, k: nat)
    ensures Halved(Doubled(x, k), k) == x
    decreases k
  {
    if k > 0 {
      HalvedDoubled(x, k - 1);
      assert Doubled(x, k) / 2.0 == Doubled(x, k - 1);
    }
  }

  lemma {:induction false} HalvedMonotone(x: real, y: real, k: nat)
    requires x <= y
    ensures Halved(x, k) <= Halved(y, k)
    decreases k
  {
    if k > 0 {
      HalvedMonotone(x / 2.0, y / 2.0, k - 1);
    }
  }

  lemma {:induction false} DoubledMonotone(x: real, y: real, k: nat)
    requires x <= y
    ensures Doubled(x, k) <= Doubled(y, k)
    decreases k
  {
    if k > 0 {
      DoubledMonotone(x, y, k - 1);
    }
  }

  lemma {:induction false} HalvedSign(x: real, k: nat)
    requires x >= 0.0
    ensures 0.0 <= Halved(x, k) <= x && (x > 0.0 ==> Halved(x, k) > 0.0)
    decreases k
  {
    if k > 0 {
      HalvedSign(x / 2.0, k - 1);
    }
  }

  lemma {:induction false} HalvedTwice(x: real, j: nat, k: nat)
    ensures Halved(x, j + k) == Halved(Halved(x, j), k)
    decreases j
  {
    if j > 0 {
      HalvedTwice(x / 2.0, j - 1, k);
    }
  }

  lemma {:induction false} HalvedBelow(x: real, k: nat)
    requires 0.0 <= x < Pow2(k) as real
    ensures 0.0 <= Halved(x, k) < 1.0
    decreases k
  {
    if k > 0 {
      assert Pow2(k) == 2 * Pow2(k - 1);
      HalvedBelow(x / 2.0, k - 1);
    }
  }

  lemma {:induction false} DoubledAtLeast(x: real, j: nat, k: nat)
    requires x >= 0.0 && j <= k
    ensures Doubled(x, k) >= x * Pow2(j) as real
    decreases k
  {
    if j == k {
      DoubledExactly(x, j);
    } else {
      DoubledAtLeast(x, j, k - 1);
      DoubledSign(x, k - 1);
    }
  }

  lemma {:induction false} DoubledExactly(x: real, k: nat)
    ensures Doubled(x, k) == x * Pow2(k) as real
    decreases k
  {
    if k > 0 {
      DoubledExactly(x, k - 1);
      PowerStep(k);
      Swap(x, Pow2(k - 1) as real);
    }
  }

  lemma PowerStep(k: nat)
    requires k > 0
    ensures Pow2(k) as real == 2.0 * Pow2(k - 1) as real
  {
    var p := Pow2(k - 1);
    assert Pow2(k) == 2 * p;
  }

  lemma Swap(x: real, p: real)
    ensures 2.0 * (x * p) == x * (2.0 * p)
  {
  }

  lemma {:induction false} HalvedDifference(x: real, y: real, k: nat)
    ensures Halved(x, k) - Halved(y, k) == Halved(x - y, k)
    decreases k
  {
    if k > 0 {
      HalvedDifference(x / 2.0, y / 2.0, k - 1);
      assert x / 2.0 - y / 2.0 == (x - y) / 2.0;
    }
  }

  lemma {:induction false} HalvedPrecision(x: real, k: nat)
    ensures Halved(PRECISION * x, k) == PRECISION * Halved(x, k)
    decreases k
  {
    if k > 0 {
      HalvedPrecision(x / 2.0, k - 1);
      assert (PRECISION * x) / 2.0 == PRECISION * (x / 2.0);
    }
  }

  // ----- Rounding ---------------------------------------------------------------------------

  lemma {:induction false} UnitsClose(q: real)
    requires q >= 0.0
    ensures var e := Units(q) as real - q;
            q < PRECISION ==> -0.5 <= e <= 0.5
    ensures var e := PRECISION * (Units(q) as real - q);
            q >= PRECISION / 2.0 ==> -q <= e <= q
    decreases q.Floor
  {
    if q >= PRECISION {
      UnitsClose(q / 2.0);
    }
  }

  lemma {:induction false} UnitsLarge(q: real)
    requires q >= PRECISION
    ensures Units(q) as real >= PRECISION
    decreases q.Floor
  {
    if q >= 2.0 * PRECISION {
      UnitsLarge(q / 2.0);
    }
  }

  lemma {:induction false} UnitsMonotone(q: real, r: real)
    requires 0.0 <= q <= r
    ensures Units(q) <= Units(r)
    decreases r.Floor
  {
    if q >= PRECISION {
      UnitsMonotone(q / 2.0, r / 2.0);
    } else if r >= PRECISION {
      UnitsLarge(r);
    }
  }

  /** A larger number is never read as a smaller double. */
  lemma NearestMonotone(v: real, w: real)
    requires 0.0 <= v <= w
    ensures Nearest(v) <= Nearest(w)
  {
    var q, r := Doubled(v, UNIT_BITS), Doubled(w, UNIT_BITS);
    DoubledSign(v, UNIT_BITS);
    DoubledMonotone(v, w, UNIT_BITS);
    UnitsMonotone(q, r);
    HalvedMonotone(Units(q) as real, Units(r) as real, UNIT_BITS);
  }

  /** From 0.01 on the nearest double differs by at most one part in 2^53. */
  lemma NearestClose(v: real)
    requires v >= 0.01
    ensures -v <= PRECISION * (Nearest(v) - v) <= v
  {
    var q := Doubled(v, UNIT_BITS);
    DoubledAtLeast(v, 60, UNIT_BITS);
    Pow2Sixty();
    UnitsClose(q);
    HalvedDoubled(v, UNIT_BITS);
    HalvedError(Units(q) as real, q, UNIT_BITS);
  }

  lemma Pow2Sixty()
    ensures Pow2(60) == 0x1000_0000_0000_0000
  {
    assert Pow2(8) == 256 && Pow2(16) == 0x1_0000 && Pow2(24) == 0x100_0000 && Pow2(32) == 0x1_0000_0000;
    assert Pow2(40) == 0x100_0000_0000 && Pow2(48) == 0x1_0000_0000_0000 && Pow2(56) == 0x100_0000_0000_0000;
  }

  lemma HalvedError(n: real, q: real, k: nat)
    requires -q <= PRECISION * (n - q) <= q
    ensures -Halved(q, k) <= PRECISION * (Halved(n, k) - Halved(q, k)) <= Halved(q, k)
  {
    var d := n - q;
    HalvedDifference(n, q, k);
    HalvedPrecision(d, k);
    HalvedWithin(PRECISION * d, q, k);
  }

  lemma {:induction false} HalvedWithin(e: real, q: real, k: nat)
    requires -q <= e <= q
    ensures -Halved(q, k) <= Halved(e, k) <= Halved(q, k)
    decreases k
  {
    if k > 0 {
      HalvedWithin(e / 2.0, q / 2.0, k - 1);
    }
  }

  lemma {:induction false} DoubledWhole(n: nat, k: nat) returns (m: nat)
    ensures Doubled(n as real, k) == m as real
    decreases k
  {
    if k == 0 {
      m := n;
    } else {
      m := DoubledWhole(n, k - 1);
      m := 2 * m;
    }
  }

  lemma {:induction false} UnitsExact(n: nat, k: nat)
    requires n as real <= PRECISION
    ensures Doubled(n as real, k) >= 0.0
    ensures Units(Doubled(n as real, k)) as real == Doubled(n as real, k)
    decreases k
  {
    var m := DoubledWhole(n, k);
    var q := Doubled(n as real, k);
    if q < PRECISION {
      WholeUnits(m);
    } else if k == 0 {
      WholeUnits(m / 2);
      HalfUnits(q, m as real / 2.0);
    } else {
      UnitsExact(n, k - 1);
      HalfUnits(q, Doubled(n as real, k - 1));
    }
  }

  lemma WholeUnits(m: nat)
    requires m as real < PRECISION
    ensures Units(m as real) == m
  {
  }

  lemma HalfUnits(q: real, half: real)
    requires q >= PRECISION && q == 2.0 * half
    ensures Units(q) == 2 * Units(half)
  {
    assert q / 2.0 == half;
  }

  /** Integers up to 2^53 in magnitude are doubles. */
  lemma WholeExact(n: int)
    requires -PRECISION <= n as real <= PRECISION
    ensures Signed(n as real) == Finite(n as real)
  {
    var m: nat := if n < 0 then -n else n;
    assert m as real == if (n as real) < 0.0 then -(n as real) else n as real;
    UnitsExact(m, UNIT_BITS);
    HalvedDoubled(m as real, UNIT_BITS);
    InRange(m as real);
  }

  lemma InRange(v: real)
    requires 0.0 <= v <= 2.0 * PRECISION
    ensures Halved(v, RANGE_BITS) < 1.0
  {
    Pow2Sixty();
    HalvedBelow(v, 60);
    HalvedTwice(v, 60, RANGE_BITS - 60);
    HalvedSign(Halved(v, 60), RANGE_BITS - 60);
  }

  /** Numbers between 0.01 and 2^53 are read as the nearest double. */
  lemma ReadInRange(negative: bool, v: real)
    requires 0.01 <= v <= PRECISION
    ensures Read(negative, v) == Finite(if negative then -Nearest(v) else Nearest(v))
    ensures -v <= PRECISION * (Nearest(v) - v) <= v
  {
    NearestClose(v);
    InRange(Nearest(v));
  }

  /** Halfway between two doubles the one with the even digit is read. */
  lemma TieToEven()
    ensures Signed(9007199254740993.0) == Finite(9007199254740992.0)
    ensures Signed(9007199254740995.0) == Finite(9007199254740996.0)
  {
    TieRead(9007199254740993.0, 4503599627370496);
    TieRead(9007199254740995.0, 4503599627370498);
  }

  /** From 2^53 to 2^54 doubles are the even integers. */
  lemma TieRead(v: real, half: nat)
    requires PRECISION <= v <= 2.0 * PRECISION - 1.0 && RoundEven(v / 2.0) == half && half % 2 == 0
    requires half as real <= PRECISION
    ensures Signed(v) == Finite(2.0 * half as real)
  {
    UnitsOfTie(v, half, UNIT_BITS);
    HalvedDoubled(2.0 * half as real, UNIT_BITS);
    InRange(2.0 * half as real);
  }

  lemma {:induction false} UnitsOfTie(v: real, half: nat, k: nat)
    requires PRECISION <= v <= 2.0 * PRECISION - 1.0 && RoundEven(v / 2.0) == half
    ensures Doubled(v, k) >= 0.0 && Units(Doubled(v, k)) as real == Doubled(2.0 * half as real, k)
    decreases k
  {
    if k == 0 {
      assert v / 2.0 < PRECISION;
    } else {
      UnitsOfTie(v, half, k - 1);
      DoubledSign(v, k);
      HalfUnits(Doubled(v, k), Doubled(v, k - 1));
    }
  }

  lemma {:induction false} DoubledTwice(x: real, j: nat, k: nat)
    ensures Doubled(Doubled(x, j), k) == Doubled(x, j + k)
    decreases k
  {
    if k > 0 {
      DoubledTwice(x, j, k - 1);
    }
  }

  /** Numbers of 2^1024 and more are out of range. */
  lemma OutOfRange(negative: bool, v: real, n: nat)
    requires 1 <= n && n as real <= PRECISION && v >= Doubled(n as real, RANGE_BITS)
    ensures v >= 0.0 && Read(negative, v) == Absent
  {
    var w := Doubled(n as real, RANGE_BITS);
    DoubledSign(n as real, RANGE_BITS);
    DoubledTwice(n as real, RANGE_BITS, UNIT_BITS);
    UnitsExact(n, RANGE_BITS + UNIT_BITS);
    HalvedDoubled(w, UNIT_BITS);
    NearestMonotone(w, v);
    HalvedMonotone(w, Nearest(v), RANGE_BITS);
    HalvedDoubled(n as real, RANGE_BITS);
  }
}
