/**
The numerals of the control messages: std::from_chars for a double, which takes
the longest numeral the text begins with, and FormatNumber, which prints one.
*/
module Numerals {
  import opened Text
  import opened Doubles

  // ----- std::from_chars ----------------------------------------------------------------------

  /** The digits the text begins with. */
  function DigitRun(t: string): (d: string)
    ensures |d| <= |t| && t[..|d|] == d
    ensures forall i | 0 <= i < |d| :: IsDigit(d[i])
  {
    if t != "" && IsDigit(t[0]) then [t[0]] + DigitRun(t[1..]) else ""
  }

  function Lower(c: char): char {
    if 'A' <= c <= 'Z' then (c as int - 'A' as int + 'a' as int) as char else c
  }

  /** The text begins with this word, in any case. */
  predicate Word(t: string, w: string) {
    |w| <= |t| && forall k | 0 <= k < |w| :: Lower(t[k]) == w[k]
  }

  predicate Sign(c: char) { c == '+' || c == '-' }

  /** The exponent that follows the digits; an `e` without digits belongs to no numeral. */
  function Exponent(t: string): int {
    if t == "" || (t[0] != 'e' && t[0] != 'E') then 0
    else
      var u := if |t| > 1 && Sign(t[1]) then t[2..] else t[1..];
      var x: int := NatValue(DigitRun(u));
      if |t| > 1 && t[1] == '-' then -x else x
  }

  function Pow10(n: nat): (p: real)
    ensures p >= 1.0
  {
    if n == 0 then 1.0 else 10.0 * Pow10(n - 1)
  }

  /** m times 10 to the power x. */
  function Scaled(m: nat, x: int): (v: real)
    ensures v >= 0.0
  {
    if x >= 0 then m as real * Pow10(x) else m as real / Pow10(-x)
  }

  function HasPoint(t: string): bool { t != "" && t[0] == '.' }

  /** The digits behind the point, if there is one. */
  function Fraction(t: string): (d: string)
    ensures forall i | 0 <= i < |d| :: IsDigit(d[i])
  {
    if HasPoint(t) then DigitRun(t[1..]) else ""
  }

  /** What follows point and fraction. */
  function BehindFraction(t: string): string {
    if HasPoint(t) then t[1 + |Fraction(t)|..] else t
  }

  /** The value of the digits `i` and what follows them. */
  function Decimal(i: string, r: string): (v: real)
    requires forall k | 0 <= k < |i| :: IsDigit(i[k])
    ensures v >= 0.0
  {
    Scaled(NatValue(i + Fraction(r)), Exponent(BehindFraction(r)) - |Fraction(r)|)
  }

  function Magnitude(negative: bool, t: string): Number {
    var i := DigitRun(t);
    var r := t[|i|..];
    if i + Fraction(r) != "" then Read(negative, Decimal(i, r)) else Named(negative, t)
  }

  /** Without digits, infinity or not a number. */
  function Named(negative: bool, t: string): Number {
    if Word(t, "inf") then Infinite(negative) else if Word(t, "nan") then NaN else Absent
  }

  /** The double std::from_chars reads at the beginning of the text. */
  function Numeral(t: string): Number {
    if t != "" && t[0] == '-' then Magnitude(true, t[1..]) else Magnitude(false, t)
  }

  // ----- A numeral in its context ---------------------------------------------------------------

  /** No numeral goes on with this character. */
  predicate Breaks(c: char) {
    !IsDigit(c) && c != '.' && !Sign(c) && !('a' <= c <= 'z') && !('A' <= c <= 'Z')
  }

  ghost predicate BreaksOff(b: string) { b != "" && Breaks(b[0]) }

  lemma {:induction false} DigitRunBehind(t: string, b: string)
    requires b == "" || !IsDigit(b[0])
    ensures DigitRun(t + b) == DigitRun(t)
    decreases |t|
  {
    if t == "" {
      assert t + b == b;
    } else {
      assert (t + b)[1..] == t[1..] + b;
      DigitRunBehind(t[1..], b);
    }
  }

  lemma {:induction false} DigitRunAll(d: string)
    requires forall i | 0 <= i < |d| :: IsDigit(d[i])
    ensures DigitRun(d) == d
    decreases |d|
  {
    if d != "" {
      DigitRunAll(d[1..]);
    }
  }

  lemma WordBehind(t: string, b: string, w: string)
    requires BreaksOff(b) && forall k | 0 <= k < |w| :: 'a' <= w[k] <= 'z'
    ensures Word(t + b, w) == Word(t, w)
  {
    if |t| < |w| {
      assert (t + b)[|t|] == b[0] && Lower(b[0]) != w[|t|];
    }
  }

  lemma ExponentBehind(t: string, b: string)
    requires BreaksOff(b)
    ensures Exponent(t + b) == Exponent(t)
  {
    var s := t + b;
    if |t| > 1 && Sign(t[1]) {
      assert s[2..] == t[2..] + b;
      DigitRunBehind(t[2..], b);
    } else if t != "" {
      assert s[1..] == t[1..] + b;
      DigitRunBehind(t[1..], b);
    }
  }

  lemma FractionBehind(t: string, b: string)
    requires BreaksOff(b)
    ensures Fraction(t + b) == Fraction(t)
    ensures HasPoint(t + b) == HasPoint(t) && |Fraction(t)| <= |t|
    ensures BehindFraction(t + b) == BehindFraction(t) + b
  {
    if t != "" {
      assert (t + b)[1..] == t[1..] + b;
      DigitRunBehind(t[1..], b);
    }
  }

  lemma DecimalBehind(i: string, r: string, b: string)
    requires BreaksOff(b) && forall k | 0 <= k < |i| :: IsDigit(i[k])
    ensures Fraction(r + b) == Fraction(r) && Decimal(i, r + b) == Decimal(i, r)
  {
    FractionBehind(r, b);
    ExponentBehind(BehindFraction(r), b);
  }

  lemma MagnitudeBehind(negative: bool, t: string, b: string)
    requires BreaksOff(b)
    ensures Magnitude(negative, t + b) == Magnitude(negative, t)
  {
    var i := DigitRun(t);
    DigitRunBehind(t, b);
    assert (t + b)[|i|..] == t[|i|..] + b;
    DecimalBehind(i, t[|i|..], b);
    NamedBehind(negative, t, b);
  }

  lemma NamedBehind(negative: bool, t: string, b: string)
    requires BreaksOff(b)
    ensures Named(negative, t + b) == Named(negative, t)
  {
    WordBehind(t, b, "inf");
    WordBehind(t, b, "nan");
  }

  /** std::from_chars looks no further than the end of the numeral. */
  lemma NumeralBehind(t: string, b: string)
    requires BreaksOff(b)
    ensures Numeral(t + b) == Numeral(t)
  {
    if t != "" && t[0] == '-' {
      assert (t + b)[1..] == t[1..] + b;
      MagnitudeBehind(true, t[1..], b);
    } else {
      MagnitudeBehind(false, t, b);
    }
  }

  /** JSON's literals are no numbers. */
  lemma LiteralsAbsent()
    ensures Numeral("true") == Absent && Numeral("false") == Absent && Numeral("null") == Absent
  {
    assert Lower("null"[1]) != "nan"[1];
  }

  /** Texts that begin with "inf" or "nan", in any case, are infinity and not a number. */
  lemma NamesRead(t: string)
    requires |t| >= 3
    ensures Lower(t[0]) == 'i' && Lower(t[1]) == 'n' && Lower(t[2]) == 'f' ==>
              Numeral(t) == Infinite(false) && Numeral("-" + t) == Infinite(true)
    ensures Lower(t[0]) == 'n' && Lower(t[1]) == 'a' && Lower(t[2]) == 'n' ==>
              Numeral(t) == Numeral("-" + t) == NaN
  {
    assert ("-" + t)[1..] == t;
    NameRead(false, t);
    NameRead(true, t);
  }

  lemma NameRead(negative: bool, t: string)
    requires |t| >= 3
    ensures Lower(t[0]) == 'i' && Lower(t[1]) == 'n' && Lower(t[2]) == 'f' ==>
              Magnitude(negative, t) == Infinite(negative)
    ensures Lower(t[0]) == 'n' && Lower(t[1]) == 'a' && Lower(t[2]) == 'n' ==> Magnitude(negative, t) == NaN
  {
    assert !IsDigit(t[0]) ==> DigitRun(t) == "" && t[0..] == t;
  }

  // ----- Integers -------------------------------------------------------------------------------

  lemma DigitsRead(negative: bool, d: string)
    requires d != "" && forall i | 0 <= i < |d| :: IsDigit(d[i])
    ensures Magnitude(negative, d) == Read(negative, NatValue(d) as real)
  {
    DigitRunAll(d);
    assert d[|d|..] == "" && d + "" == d;
    assert NatValue(d) as real * Pow10(0) == NatValue(d) as real;
  }

  /** A printed integer is read as the double nearest to it. */
  lemma IntegerRead(n: int)
    ensures Numeral(IntText(n)) == Signed(n as real)
  {
    var m: nat := if n < 0 then -n else n;
    NatTextValue(m);
    DigitsRead(n < 0, NatText(m));
    if n < 0 {
      assert IntText(n)[1..] == NatText(m);
    }
  }

  /** Up to 2^53 in magnitude that is the integer itself. */
  lemma SmallIntegerRead(n: int)
    requires -PRECISION <= n as real <= PRECISION
    ensures Numeral(IntText(n)) == Finite(n as real)
  {
    IntegerRead(n);
    WholeExact(n);
  }

  // ----- FormatNumber -----------------------------------------------------------------------------

  const INTEGRAL_LIMIT: real := 1000000000000000.0

  function TwoDigits(h: nat): (s: string)
    requires h < 100
    ensures |s| == 2 && IsDigit(s[0]) && IsDigit(s[1])
  {
    [(h / 10 + '0' as int) as char, (h % 10 + '0' as int) as char]
  }

  function Abs(v: real): real { if v < 0.0 then -v else v }

  /** The hundredths nearest to the number, ties to even. */
  function Hundredths(v: real): (h: nat) {
    RoundEven(100.0 * Abs(v))
  }

  /** printf's %.2f. */
  function Fixed2(v: real): string {
    (if v < 0.0 then "-" else "") + (NatText(Hundredths(v) / 100) + ("." + TwoDigits(Hundredths(v) % 100)))
  }

  predicate PrintsWhole(v: real) { v == v.Floor as real && Abs(v) < INTEGRAL_LIMIT }

  /** The text of a finite double: whole numbers below 10^15 without a point, others with two decimals. */
  function FormatNumber(v: real): (s: string)
    ensures s != ""
  {
    if PrintsWhole(v) then IntText(v.Floor) else Fixed2(v)
  }

  lemma {:induction false} NatValueTwo(a: string, b: string)
    requires |b| == 2 && IsDigit(b[0]) && IsDigit(b[1])
    requires forall i | 0 <= i < |a| :: IsDigit(a[i])
    ensures forall i | 0 <= i < |a + b| :: IsDigit((a + b)[i])
    ensures NatValue(a + b) == NatValue(a) * 100 + DigitValue(b[0]) * 10 + DigitValue(b[1])
  {
    var s, t := a + b, a + [b[0]];
    assert s[..|s| - 1] == t && t[..|t| - 1] == a;
  }

  lemma FixedRead(negative: bool, h: nat)
    ensures Magnitude(negative, NatText(h / 100) + ("." + TwoDigits(h % 100))) == Read(negative, h as real / 100.0)
  {
    var i, f := NatText(h / 100), TwoDigits(h % 100);
    var r := "." + f;
    DigitRunAll(i);
    DigitRunBehind(i, r);
    assert (i + r)[|i|..] == r;
    NatTextValue(h / 100);
    HundredthsRead(i, f, h);
  }

  lemma HundredthsRead(i: string, f: string, h: nat)
    requires (forall k | 0 <= k < |i| :: IsDigit(i[k])) && NatValue(i) == h / 100 && f == TwoDigits(h % 100)
    ensures Fraction("." + f) == f && Decimal(i, "." + f) == h as real / 100.0
  {
    var r := "." + f;
    DigitRunAll(f);
    assert r[1..] == f && r[3..] == "";
    NatValueTwo(i, f);
    ScaledHundredths(NatValue(i + f));
  }

  lemma ScaledHundredths(h: nat)
    ensures Scaled(h, -2) == h as real / 100.0
  {
    assert Pow10(2) == 100.0;
  }

  /** A printed number is read back as the double nearest to its hundredths. */
  lemma FixedReadBack(v: real)
    ensures Numeral(Fixed2(v)) == Read(v < 0.0, Hundredths(v) as real / 100.0)
  {
    var u := NatText(Hundredths(v) / 100) + ("." + TwoDigits(Hundredths(v) % 100));
    FixedRead(v < 0.0, Hundredths(v));
    if v < 0.0 {
      assert ("-" + u)[1..] == u;
    } else {
      assert "" + u == u;
    }
  }

  /** What the receiver of a printed number gets. */
  function Printed(v: real): Number {
    if PrintsWhole(v) then Finite(v) else Read(v < 0.0, Hundredths(v) as real / 100.0)
  }

  lemma FormatRead(v: real)
    ensures Numeral(FormatNumber(v)) == Printed(v)
  {
    if PrintsWhole(v) {
      SmallIntegerRead(v.Floor);
    } else {
      FixedReadBack(v);
    }
  }

  /**
  The receiver's number differs from the sender's by at most half a hundredth
  and one part in 2^53 for the rounding.
  */
  lemma PrintedClose(v: real)
    requires Abs(v) < INTEGRAL_LIMIT
    ensures Printed(v).Finite?
    ensures Abs(PRECISION * (Printed(v).v - v)) <= PRECISION * 0.005 + Abs(v) + 0.005
  {
    var h := Hundredths(v) as real / 100.0;
    if !PrintsWhole(v) {
      if Hundredths(v) == 0 {
        ReadZero(v < 0.0);
      } else {
        ReadInRange(v < 0.0, h);
      }
    }
  }

  lemma ReadZero(negative: bool)
    ensures Read(negative, 0.0) == Finite(0.0)
  {
    UnitsExact(0, UNIT_BITS);
    HalvedDoubled(0.0, UNIT_BITS);
    InRange(0.0);
  }

  // ----- Fractions and exponents ------------------------------------------------------------------

  lemma PowersOfTen(n: nat)
    ensures Pow10(0) == 1.0 && Pow10(n + 1) == 10.0 * Pow10(n)
  {
  }

  /** Digits, a point and more digits are all the digits over the power of ten of those behind the point. */
  lemma FractionRead(i: string, f: string)
    requires i + f != "" && forall k | 0 <= k < |i + f| :: IsDigit((i + f)[k])
    ensures Numeral(i + ("." + f)) == Read(false, NatValue(i + f) as real / Pow10(|f|))
  {
    var t, r := i + ("." + f), "." + f;
    DigitParts(i, f);
    DigitRunAll(i);
    DigitRunAll(f);
    DigitRunBehind(i, r);
    assert t[|i|..] == r && r[1..] == f && r[1 + |f|..] == "";
    assert t[0] != '-';
    DecimalOf(i, f, 0);
  }

  lemma DigitParts(i: string, f: string)
    requires forall k | 0 <= k < |i + f| :: IsDigit((i + f)[k])
    ensures forall k | 0 <= k < |i| :: IsDigit(i[k])
    ensures forall k | 0 <= k < |f| :: IsDigit(f[k])
  {
    forall k | 0 <= k < |i|
      ensures IsDigit(i[k])
    {
      assert (i + f)[k] == i[k];
    }
    forall k | 0 <= k < |f|
      ensures IsDigit(f[k])
    {
      assert (i + f)[|i| + k] == f[k];
    }
  }

  lemma DecimalOf(i: string, f: string, x: int)
    requires forall k | 0 <= k < |i + f| :: IsDigit((i + f)[k])
    ensures Scaled(NatValue(i + f), 0 - |f|) == NatValue(i + f) as real / Pow10(|f|)
  {
    assert NatValue(i + f) as real * 1.0 == NatValue(i + f) as real / 1.0;
  }

  /** Digits and an exponent are the digits times that power of ten, in either case of the letter. */
  lemma ExponentRead(m: nat, x: int, e: string)
    requires e == "e" || e == "E"
    ensures Numeral(NatText(m) + (e + IntText(x))) == Read(false, Scaled(m, x))
  {
    var i, r := NatText(m), e + IntText(x);
    assert r[0] == e[0];
    ExponentOf(x, r, e);
    DigitsThen(i, r);
    DecimalExponent(m, r, x);
  }

  /** Scaling multiplies by a power of ten, or divides by one. */
  lemma ScaledIs(m: nat, x: int)
    ensures x >= 0 ==> Scaled(m, x) == m as real * Pow10(x)
    ensures x < 0 ==> Scaled(m, x) == m as real / Pow10(-x)
  {
  }

  lemma DigitsThen(i: string, r: string)
    requires i != "" && (forall k | 0 <= k < |i| :: IsDigit(i[k])) && r != "" && !IsDigit(r[0])
    ensures Numeral(i + r) == Read(false, Decimal(i, r))
  {
    DigitRunAll(i);
    DigitRunBehind(i, r);
    assert (i + r)[|i|..] == r && (i + r)[0] == i[0];
    assert i + Fraction(r) != "";
  }

  lemma DecimalExponent(m: nat, r: string, x: int)
    requires !HasPoint(r) && Exponent(r) == x
    ensures Decimal(NatText(m), r) == Scaled(m, x)
  {
    NatTextValue(m);
    assert NatText(m) + "" == NatText(m);
  }

  lemma ExponentOf(x: int, r: string, e: string)
    requires (e == "e" || e == "E") && r == e + IntText(x)
    ensures Exponent(r) == x && !HasPoint(r)
  {
    if x < 0 {
      NegativeExponent(-x, r, e[0]);
    } else {
      PositiveExponent(x, r, e[0]);
    }
  }

  lemma NegativeExponent(m: int, r: string, c: char)
    requires m >= 0 && (c == 'e' || c == 'E') && r == [c] + ("-" + NatText(m))
    ensures Exponent(r) == -m
  {
    assert r[2..] == NatText(m) && r[1] == '-';
    DigitRunAll(NatText(m));
    NatTextValue(m);
  }

  lemma PositiveExponent(m: nat, r: string, c: char)
    requires (c == 'e' || c == 'E') && r == [c] + NatText(m)
    ensures Exponent(r) == m
  {
    assert r[1..] == NatText(m) && r[1] == NatText(m)[0];
    DigitRunAll(NatText(m));
    NatTextValue(m);
  }

  /** Whole numbers below 10^15 are printed as integers. */
  lemma WholeText(n: int)
    requires -1_000_000_000_000_000 < n < 1_000_000_000_000_000
    ensures FormatNumber(n as real) == IntText(n)
  {
    assert (n as real).Floor == n;
  }

  /** Other numbers have a point before their last two characters, which are digits. */
  lemma PointText(v: real)
    requires v != v.Floor as real
    ensures var s := FormatNumber(v); |s| >= 4 && s[|s| - 3] == '.' && IsDigit(s[|s| - 2]) && IsDigit(s[|s| - 1])
  {
  }
}
