/** What the precision mode of format_dragon prints: the text is determined, and when it begins with a zero. */
module DragonPrecision {
  import opened Powers
  import opened Digits
  import opened Bigints
  import opened DragonLoops
  import opened DragonMeaning
  import opened DragonInterval
  import opened DragonSetup
  import opened DragonPrinter

  // ----- The nearest multiple -----

  /** The nearest multiple of a unit, ties to even, is only one. */
  lemma NearestUnique(a: int, b: int, unit: real, v: real)
    requires unit > 0.0 && RNearest(a, unit, v) && RNearest(b, unit, v)
    ensures a == b
  {
    if a < b {
      NearestAbove(a, b, unit, v);
    } else if b < a {
      NearestAbove(b, a, unit, v);
    }
  }

  lemma NearestAbove(a: int, b: int, unit: real, v: real)
    requires unit > 0.0 && a < b && RNearest(a, unit, v)
    ensures !RNearest(b, unit, v)
  {
    NearestIs(a, unit, v);
    NearestIs(b, unit, v);
    GapBetween(b, a, unit);
    PointOrder(a, b, unit);
    hide Times, RNearest;
  }

  lemma NearestIs(p: int, unit: real, v: real)
    ensures RNearest(p, unit, v)
            <==> -unit <= 2.0 * (v - Times(p, unit)) <= unit
                 && (2.0 * (v - Times(p, unit)) == unit || 2.0 * (v - Times(p, unit)) == -unit ==> p % 2 == 0)
  {}

  lemma PointOrder(p: int, q: int, unit: real)
    requires unit > 0.0
    ensures p < q ==> Times(p, unit) + unit <= Times(q, unit)
    ensures p <= q ==> Times(p, unit) <= Times(q, unit)
  {
    GapBetween(p, p, unit);
    assert Times(p, unit) == unit * p as real && Times(q, unit) == unit * q as real;
    assert Times(p + 1, unit) == unit * (p + 1) as real;
    RCancelLe(unit, p as real, q as real);
    RCancelLe(unit, (p + 1) as real, q as real);
    hide Times;
  }

  /**
   * The rounded number has fewer than n digits exactly if the value is below the unit of the
   * first digit by more than half a unit of the last one.
   */
  lemma BelowFirst(p: int, n: nat, first: int, v: real)
    requires n > 0 && RNearest(p, RTen(first - n + 1), v) && (n == 1 ==> 2.0 * v > RTen(first))
    ensures p < Pow(10, n - 1) <==> 2.0 * (RTen(first) - v) > RTen(first - n + 1)
  {
    hide *;
    var unit, top: int := RTen(first - n + 1), Pow(10, n - 1);
    FirstUnit(n, first);
    EvenPower(n - 1);
    BelowTop(p, top, unit, RTen(first), v);
  }

  lemma FirstUnit(n: nat, first: int)
    requires n > 0
    ensures Times(Pow(10, n - 1), RTen(first - n + 1)) == RTen(first) && RTen(first - n + 1) > 0.0
    ensures n == 1 ==> RTen(first - n + 1) == RTen(first)
  {
    hide *;
    UnitRatio(first, first - n + 1);
    assert first - (first - n + 1) == n - 1;
    TimesIs(Pow(10, n - 1), RTen(first - n + 1));
    SwapProduct(Pow(10, n - 1) as real, RTen(first - n + 1));
  }

  lemma SwapProduct(a: real, b: real)
    ensures a * b == b * a
  {}

  lemma BelowTop(p: int, top: int, unit: real, t: real, v: real)
    requires unit > 0.0 && RNearest(p, unit, v) && Times(top, unit) == t
    requires top % 2 == 0 || (top == 1 && 2.0 * v > unit)
    ensures p < top <==> 2.0 * (t - v) > unit
  {
    NearestIs(p, unit, v);
    PointOrder(p, top - 1, unit);
    PointOrder(top - 1, top, unit);
    PointOrder(top, p, unit);
    NextTop(top, unit);
    PointUnique(p, top - 1, unit);
    TopOne(top, unit);
    hide Times, RNearest;
  }

  lemma NextTop(top: int, unit: real)
    ensures Times(top, unit) == Times(top - 1, unit) + unit
  {}

  lemma PointUnique(p: int, q: int, unit: real)
    requires unit > 0.0
    ensures Times(p, unit) == Times(q, unit) ==> p == q
  {
    GapBetween(p, q, unit);
    hide Times;
  }

  lemma TopOne(top: int, unit: real)
    ensures top == 1 ==> Times(top - 1, unit) == 0.0
  {}

  lemma EvenPower(k: nat)
    ensures k > 0 ==> Pow(10, k) % 2 == 0
    ensures k == 0 ==> Pow(10, k) == 1
  {
    assert k > 0 ==> Pow(10, k) == 10 * Pow(10, k - 1);
    assert Pow(10, 0) == 1;
    hide *;
    if k > 0 {
      TenTimesEven(Pow(10, k - 1), Pow(10, k));
    }
  }

  lemma TenTimesEven(a: nat, b: nat)
    requires b == 10 * a
    ensures b % 2 == 0
  {
    assert 2 * (5 * a - b / 2) == b % 2;
  }

  // ----- The text -----

  /** Two texts of the same length that denote the same number are the same. */
  lemma {:induction false} DigitsUnique(a: seq<char>, b: seq<char>)
    requires AllDigits(a) && AllDigits(b) && |a| == |b| && DigitsVal(a) == DigitsVal(b)
    ensures a == b
  {
    if a != [] {
      hide *;
      var n := |a| - 1;
      LastApart(a);
      LastApart(b);
      LastDigitUnique(DigitsVal(a[..n]), a[n], DigitsVal(b[..n]), b[n]);
      DigitsUnique(a[..n], b[..n]);
    }
  }

  lemma LastApart(s: seq<char>)
    requires s != [] && AllDigits(s)
    ensures var n := |s| - 1;
            && s == s[..n] + [s[n]] && AllDigits(s[..n]) && IsDigit(s[n])
            && DigitsVal(s) == 10 * DigitsVal(s[..n]) + CharDigit(s[n])
  {
    hide *;
    var t, c := s[..|s| - 1], s[|s| - 1];
    assert s == t + [c];
    DigitsAppend(t, c);
    AllDigitsApart(t, c);
  }

  lemma AllDigitsApart(t: seq<char>, c: char)
    requires AllDigits(t + [c])
    ensures AllDigits(t) && IsDigit(c)
  {
    assert (t + [c])[|t|] == c;
    assert forall i :: 0 <= i < |t| ==> (t + [c])[i] == t[i];
    hide IsDigit;
  }

  lemma LastDigitUnique(x: int, c: char, y: int, d: char)
    requires IsDigit(c) && IsDigit(d)
    ensures 10 * x + CharDigit(c) == 10 * y + CharDigit(d) ==> x == y && c == d
  {}

  /** The precision mode leaves no choice: neither of the digits nor of the exponent. */
  lemma PrecisionDetermined(a: seq<char>, x: int, b: seq<char>, y: int, n: int, fixed: bool, f: nat, e: int, unit: int)
    requires IsRounded(a, x, n, fixed, f, e, unit) && IsRounded(b, y, n, fixed, f, e, unit)
    ensures a == b && x == y
  {
    var p: int :| RNearest(p, RTen(unit), Real(f, e)) && PrintsAs(a, x, p, Max(n, 1), unit, fixed);
    var q: int :| RNearest(q, RTen(unit), Real(f, e)) && PrintsAs(b, y, q, Max(n, 1), unit, fixed);
    hide RNearest, Real, DigitsVal, AllDigits, OneAndZeros, Pow;
    NearestUnique(p, q, RTen(unit), Real(f, e));
    if p < Pow(10, Max(n, 1)) {
      DigitsUnique(a, b);
    }
  }

  /** The text denotes the rounded value. */
  lemma PrecisionValue(digits: seq<char>, exp: int, p: int, m: nat, unit: int, fixed: bool)
    requires m > 0 && PrintsAs(digits, exp, p, m, unit, fixed)
    ensures Times(DigitsVal(digits), RTen(exp)) == Times(p, RTen(unit))
  {
    if p == Pow(10, m) {
      var k := if fixed then m else m - 1;
      PowerDigits(k);
      if !fixed {
        assert Pow(10, m) == 10 * Pow(10, m - 1);
        RTenSucc(unit);
        hide RTen, Pow, DigitsVal;
        TenTimesUnit(Pow(10, m - 1), RTen(unit));
      }
    }
  }

  lemma TenTimesUnit(a: int, t: real)
    ensures Times(a, 10.0 * t) == Times(10 * a, t)
  {}

  // ----- A leading zero -----

  lemma FirstIsZero(digits: seq<char>)
    requires digits != [] && AllDigits(digits)
    ensures digits[0] == '0' <==> DigitsVal(digits) < Pow(10, |digits| - 1)
  {
    var rest := digits[1..];
    assert digits == [digits[0]] + rest;
    DigitsConcat([digits[0]], rest);
    OneDigit(digits[0]);
    DigitsBound(rest);
    var c, p := CharDigit(digits[0]), Pow(10, |rest|);
    assert 0 <= c <= 9 && (c == 0 <==> digits[0] == '0');
    hide *;
    if c >= 1 {
      MulLe(p, 1, c);
    }
  }

  /** The value is not far below the unit of the first digit. */
  lemma MostOfFirst(f: nat, e: int, fixup: bool, shortest: bool, x: int)
    requires f > 0 && GoodEstimate(f, e, fixup, shortest, x)
    ensures 2.0 * Real(f, e) > RTen(FirstExponent(f, e, fixup, x))
  {
    var first := FirstExponent(f, e, fixup, x);
    FirstExponentFits(f, e, fixup, shortest, x);
    AtLeastPower(f, e, false);
    hide Real, RTen, UpperMargin, FirstExponent, GoodEstimate;
  }

  /**
   * The exponent correction asks whether the upper end of the rounding interval reaches 10^x,
   * in the precision mode too. So the value may stay below the unit of the first digit. That
   * digit is then a zero, exactly if the value is not rounded up to that unit.
   */
  lemma LeadingZero(digits: seq<char>, exp: int, n: nat, f: nat, e: int, flags: Flags, x: int)
    requires n > 0 && f > 0 && GoodEstimate(f, e, flags.fixup, false, x)
    requires PrecisionMode(digits, exp, n, f, e, flags, x)
    requires !MissesPower(f, e, flags.predecessorCloser, flags.fixup, x)
    ensures digits != []
    ensures var first := FirstExponent(f, e, flags.fixup, x);
            digits[0] == '0' <==> 2.0 * (RTen(first) - Real(f, e)) > RTen(first - n + 1)
  {
    var first := FirstExponent(f, e, flags.fixup, x);
    var unit := first - n + 1;
    var p: int :| RNearest(p, RTen(unit), Real(f, e)) && PrintsAs(digits, exp, p, n, unit, flags.fixed);
    MostOfFirst(f, e, flags.fixup, false, x);
    hide RNearest, Real, RTen, FirstExponent, GoodEstimate, MissesPower, PrecisionMode;
    BelowFirst(p, n, first, Real(f, e));
    TextStart(digits, exp, p, n, unit, flags.fixed);
  }

  /**
   * Unless the estimated power of ten lies between the value and the upper end of its interval,
   * the text begins with the first digit of the value.
   */
  lemma NoLeadingZero(digits: seq<char>, exp: int, n: nat, f: nat, e: int, flags: Flags, x: int)
    requires n > 0 && f > 0 && GoodEstimate(f, e, flags.fixup, false, x)
    requires PrecisionMode(digits, exp, n, f, e, flags, x)
    requires !MissesPower(f, e, flags.predecessorCloser, flags.fixup, x)
    requires Real(f, e) >= RTen(x) || Real(f, e) + UpperMargin(e) < RTen(x)
    ensures digits != [] && digits[0] != '0'
  {
    LeadingZero(digits, exp, n, f, e, flags, x);
    FirstBelow(f, e, flags.fixup, x);
    hide Real, RTen, FirstExponent, PrecisionMode, MissesPower, GoodEstimate;
  }

  lemma FirstBelow(f: nat, e: int, fixup: bool, x: int)
    requires f > 0 && GoodEstimate(f, e, fixup, false, x)
    requires Real(f, e) >= RTen(x) || Real(f, e) + UpperMargin(e) < RTen(x)
    ensures RTen(FirstExponent(f, e, fixup, x)) <= Real(f, e)
    ensures forall k :: RTen(k) > 0.0
  {
    AtLeastPower(f, e, false);
    hide Real, RTen, UpperMargin;
  }

  lemma TextStart(digits: seq<char>, exp: int, p: int, n: nat, unit: int, fixed: bool)
    requires n > 0 && PrintsAs(digits, exp, p, n, unit, fixed)
    ensures digits != [] && (digits[0] == '0' <==> p < Pow(10, n - 1))
  {
    if p < Pow(10, n) {
      FirstIsZero(digits);
    } else {
      PowMono(10, n - 1, n);
    }
    hide Pow;
  }
}
