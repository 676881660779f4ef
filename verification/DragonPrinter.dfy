/** format_dragon as a whole: the exponent correction, both modes, and what the text means as a real number. */
module DragonPrinter {
  import opened Options
  import opened Powers
  import opened Digits
  import opened DragonArithmetic
  import opened Bigits
  import opened BigintArithmetic
  import opened BigintOrder
  import opened Bigints
  import opened DragonLoops
  import opened DragonMeaning
  import opened DragonInterval
  import opened DragonSetup

  datatype Flags = Flags(predecessorCloser: bool, fixup: bool, fixed: bool)

  predicate Even(f: nat) {
    f % 2 == 0
  }

  /**
   * What callers promise about the exponent estimate: off by one at most when fixup is set, exact
   * otherwise. In the shortest mode moreover the upper end stays below 10^(x + 1). Without that
   * 10^(x + 1) may itself be in the rounding interval, and the first digit had to be a ten. It
   * follows from the way callers get the estimate: see DragonInputs.CallerEstimateIsGood.
   */
  predicate GoodEstimate(f: nat, e: int, fixup: bool, shortest: bool, x: int) {
    && RTen(if fixup then x - 1 else x) <= Real(f, e) < RTen(x + 1)
    && (shortest ==> !RBelow(RTen(x + 1), Real(f, e) + UpperMargin(e), Even(f)))
  }

  /** The rounding interval of f * 2^e. Its ends belong to it if f is even. */
  function RoundingInterval(f: nat, e: int, closer: bool): Interval {
    Interval(Real(f, e), LowerMargin(e, closer), UpperMargin(e), Even(f))
  }

  /** The exponent of the first digit: the estimate, or one less when even the upper end stays below it. */
  ghost function FirstExponent(f: nat, e: int, fixup: bool, x: int): int {
    if fixup && !RBelow(RTen(x), Real(f, e) + UpperMargin(e), Even(f)) then x - 1 else x
  }

  // ----- Where exponents of bigints matter -----

  /** The exponent that the remainders have once a digit has been divided off. */
  function RemainderExponent(e: nat, closer: bool, x: nat): nat {
    Min((e + Shift(closer)) / 32, x / 32)
  }

  /**
   * Whether a number at the lower end of the interval is accepted. It should be if f is
   * even; but the remainder and the lower margin are then equal numbers, which compare orders
   * by their exponents.
   */
  predicate CountsLowerEnd(f: nat, e: int, closer: bool, x: int) {
    if e < 0 || x < 0 then Even(f) else LowEndFor(RemainderExponent(e, closer, x), e / 32, Even(f))
  }

  /** The lower end of the interval is the number to print if it counts, and it is treated wrongly. */
  ghost predicate LowerEndMisjudged(f: nat, e: int, closer: bool, x: int) {
    CountsLowerEnd(f, e, closer, x) != Even(f) && RoundingInterval(f, e, closer).LowerEndBest()
  }

  /** The value is a multiple of 10^x, but compare takes the zero that is left for the larger number. */
  ghost predicate PrintsTrailingZero(f: nat, e: int, closer: bool, fixup: bool, x: int) {
    && e >= 0 && x >= 0 && RemainderExponent(e, closer, x) > e / 32
    && FirstExponent(f, e, fixup, x) == x && IsMultipleOf(Real(f, e), RTen(x))
  }

  /** The value is a power of ten, but compare takes its numerator for less than the denominator. */
  ghost predicate MissesPower(f: nat, e: int, closer: bool, fixup: bool, x: int) {
    e >= 0 && x >= 0 && (e + Shift(closer)) / 32 > x / 32 && Real(f, e) == RTen(FirstExponent(f, e, fixup, x))
  }

  // ----- What the text should be -----

  ghost predicate IsNumber(digits: seq<char>) {
    digits != [] && AllDigits(digits) && digits[0] != '0'
  }

  /** The text reads back as f * 2^e: it is in the rounding interval. */
  ghost predicate ReadsBack(digits: seq<char>, exp: int, f: nat, e: int, closer: bool) {
    RoundingInterval(f, e, closer).Has(DigitsVal(digits), exp, Even(f))
  }

  /** The shortest mode: in the rounding interval, closest to the value, and no power of ten more is possible. */
  ghost predicate IsShortest(digits: seq<char>, exp: int, f: nat, e: int, closer: bool) {
    IsNumber(digits) && RoundingInterval(f, e, closer).Best(DigitsVal(digits), exp, Even(f))
  }

  /**
   * The precision mode with n digits: the text of p, where p * 10^unit is the multiple of 10^unit
   * nearest to the value, ties to even.
   */
  ghost predicate IsRounded(digits: seq<char>, exp: int, n: int, fixed: bool, f: nat, e: int, unit: int) {
    exists p: int :: RNearest(p, RTen(unit), Real(f, e)) && PrintsAs(digits, exp, p, Max(n, 1), unit, fixed)
  }

  newtype Int = x: int | -0x8000_0000 <= x <= 0x7fff_ffff

  /** adjust_precision: computed with ints, none of which overflows. */
  function AdjustPrecision(precision: Int, exp10: Int): (r: Option<Int>)
    requires precision as int + exp10 as int >= -0x8000_0000
    ensures r.None? <==> precision as int + exp10 as int > 0x7fff_ffff
    ensures r.Some? ==> r.value as int == precision as int + exp10 as int
  {
    if exp10 > 0 && precision > 0x7fff_ffff - exp10 then None else Some(precision + exp10)
  }

  // ----- The exponent -----

  lemma {:induction false} TenBelowTwo(e: int)
    requires e <= 0
    ensures RTen(e) <= RTwo(e)
    decreases -e
  {
    if e < 0 {
      TenBelowTwo(e + 1);
      RTenSucc(e);
      RTwoSucc(e);
    } else {
      RTenZero();
      RTwoZero();
    }
  }

  lemma AtLeastPower(f: nat, e: int, closer: bool)
    requires f > 0
    ensures Real(f, e) >= RTwo(e) > 0.0
    ensures Real(f, e) >= 2.0 * UpperMargin(e) > 0.0
    ensures Real(f, e) >= 2.0 * LowerMargin(e, closer) > 0.0
  {
    hide *;
    MarginSizes(e, closer);
    AtLeastUnit(f, e);
  }

  lemma AtLeastUnit(f: nat, e: int)
    requires f > 0
    ensures Real(f, e) >= RTwo(e) > 0.0
  {
    hide RTwo;
    OneOrMore(f, RTwo(e));
  }

  lemma MarginSizes(e: int, closer: bool)
    ensures RTwo(e) == 2.0 * UpperMargin(e) && RTwo(e) >= 2.0 * LowerMargin(e, closer)
    ensures UpperMargin(e) > 0.0 && LowerMargin(e, closer) > 0.0
  {
    RTwoSucc(e - 1);
    RTwoSucc(e - 2);
    assert e - 2 + 1 == e - 1 && e - 1 + 1 == e;
    hide RTwo;
  }

  lemma OneOrMore(f: nat, t: real)
    requires f > 0 && t > 0.0
    ensures f as real * t >= t
  {}

  /** The exponent is not negative for e >= 0, and not below e otherwise. */
  lemma EstimateRange(f: nat, e: int, fixup: bool, shortest: bool, x: int)
    requires f > 0 && GoodEstimate(f, e, fixup, shortest, x)
    ensures if e >= 0 then x >= 0 else -x <= -e
  {
    AtLeastPower(f, e, false);
    hide Real, RTwo, RTen;
    if e >= 0 {
      RTwoZero();
      RTenZero();
      RTwoMono(0, e);
      if x + 1 <= 0 {
        RTenMono(x + 1, 0);
      }
    } else if x + 1 <= e {
      TenBelowTwo(e);
      RTenMono(x + 1, e);
    }
  }

  /** The corrected exponent fits the value and its upper margin. */
  ghost predicate Fits(f: nat, e: int, shortest: bool, first: int) {
    var v, upper, even := Real(f, e), UpperMargin(e), Even(f);
    && Real(f, e) < RTen(first + 1) && RBelow(RTen(first), v + upper, even)
    && (shortest ==> !RBelow(RTen(first + 1), v + upper, even))
  }

  lemma FirstExponentFits(f: nat, e: int, fixup: bool, shortest: bool, x: int)
    requires f > 0 && GoodEstimate(f, e, fixup, shortest, x)
    ensures Fits(f, e, shortest, FirstExponent(f, e, fixup, x))
  {
    hide Real, RTwo, RTen;
  }

  /** What the digit loops need, as integers. */
  lemma IntegerFacts(n: nat, d: nat, u: nat, f: nat, e: int, shortest: bool, first: int)
    requires f > 0 && Fits(f, e, shortest, first)
    requires Scaled(n, d, first, Real(f, e)) && Scaled(u, d, first, UpperMargin(e))
    ensures d > 0 && u > 0 && 0 < n < 10 * d && 10 * n > d
    ensures Below(d, n + u, Even(f)) && (shortest ==> !Below(10 * d, n + u, Even(f)))
    ensures Real(f, e) != RTen(first) ==> n != d
  {
    var v, upper := Real(f, e), UpperMargin(e);
    AtLeastPower(f, e, false);
    hide Real, RTwo, RTen, Scaled, UpperMargin;
    PowerScaled(n, d, first, v);
    SumScaled(n, u, d, first, v, upper);
    PowerScaled(n + u, d, first, v + upper);
    OrderScaled(n, u, d, first, v, upper);
    OrderScaled(u, n, d, first, upper, v);
  }

  lemma LowerFacts(n: nat, d: nat, l: nat, f: nat, e: int, closer: bool, first: int)
    requires f > 0 && Scaled(n, d, first, Real(f, e)) && Scaled(l, d, first, LowerMargin(e, closer))
    ensures l > 0 && n >= 2 * l
  {
    var v, lower := Real(f, e), LowerMargin(e, closer);
    AtLeastPower(f, e, closer);
    hide Real, RTwo, RTen, Scaled, LowerMargin;
    SumScaled(l, l, d, first, lower, lower);
    OrderScaled(l + l, n, d, first, lower + lower, v);
  }

  // ----- Starting the digit loops -----

  method Fixup(numerator: Bigint, denominator: Bigint, lower: Bigint, upper: Bigint,
               ghost f: nat, ghost e: int, ghost closer: bool, even: bool, shortest: bool, x: int)
      returns (first: int)
    requires f > 0 && even == Even(f) && Prepared(numerator, denominator, lower, upper, f, e, closer, x)
    requires Exponents(numerator, denominator, lower, e, closer, x, 1)
    modifies numerator, lower, upper
    ensures first == FirstExponent(f, e, true, x)
    ensures Separate(numerator, denominator, lower, upper) && numerator.Valid() && denominator.Valid()
    ensures Scaled(numerator.Value(), denominator.Value(), first, Real(f, e))
    ensures Scaled(old(upper.Value()) * (if first == x then 1 else 10), denominator.Value(), first, UpperMargin(e))
    ensures shortest ==> Prepared(numerator, denominator, lower, upper, f, e, closer, first)
    ensures Exponents(numerator, denominator, lower, e, closer, x, if first == x || !shortest then 1 else 10)
  {
    hide Bigint.Value, Bigint.Valid, Bigint.NumBigits, Scaled, Real, UpperMargin, LowerMargin, RTen;
    first := x;
    UpperEndSign(numerator.Value(), denominator.Value(), upper.Value(), f, e, x);
    var c := AddCompare(numerator, upper, denominator);
    if c + (if even then 1 else 0) <= 0 {
      first := first - 1;
      TenTimesScaled(numerator.Value(), denominator.Value(), x, Real(f, e));
      TenTimesScaled(lower.Value(), denominator.Value(), x, LowerMargin(e, closer));
      TenTimesScaled(upper.Value(), denominator.Value(), x, UpperMargin(e));
      numerator.Multiply(10);
      if shortest {
        lower.Multiply(10);
        if upper != lower {
          upper.Multiply(10);
        }
      }
    }
  }

  lemma TenTimesScaled(n: nat, d: nat, x: int, v: real)
    requires Scaled(n, d, x, v)
    ensures Scaled(n * 10, d, x - 1, v)
  {
    RTenSucc(x - 1);
    assert x - 1 + 1 == x;
    hide RTen;
    RMulAssoc(n as real, 10.0, RTen(x - 1));
    CastProduct(n, 10);
  }

  /** Comparing numerator + upper with the denominator compares the upper end with 10^x. */
  lemma UpperEndSign(n: nat, d: nat, u: nat, f: nat, e: int, x: int)
    requires f > 0 && Scaled(n, d, x, Real(f, e)) && Scaled(u, d, x, UpperMargin(e))
    ensures n > 0 && u > 0 && d > 0
    ensures Sign(n + u, d) + (if Even(f) then 1 else 0) <= 0 <==> !RBelow(RTen(x), Real(f, e) + UpperMargin(e), Even(f))
  {
    var v, upper := Real(f, e), UpperMargin(e);
    AtLeastPower(f, e, false);
    hide Real, RTwo, RTen, Scaled, UpperMargin;
    SumScaled(n, u, d, x, v, upper);
    PowerScaled(n + u, d, x, v + upper);
    OrderScaled(n, u, d, x, v, upper);
    OrderScaled(u, n, d, x, upper, v);
  }

  /** The exponents of the numbers of a problem, and the lower margin where it is known. */
  ghost predicate ProblemExponents(p: Problem, e: int, closer: bool, x: int, first: int) {
    if e < 0 then p.numExp <= p.denExp && p.numExp == p.lowerExp && (p.lower > 0 ==> p.lower >= BPow(p.lowerExp))
    else
      && x >= 0 && p.numExp == (e + Shift(closer)) / 32 && p.denExp == x / 32 && p.lowerExp == e / 32
      && p.lower == (if first == x then 1 else 10) * Pow(2, e)
  }

  /** The problem of the digit loop, and where the exponents of its numbers matter. */
  lemma ProblemFacts(p: Problem, f: nat, e: int, closer: bool, x: int, first: int)
    requires f > 0 && p.even == Even(f) && p.lower > 0 && (first == x || first == x - 1)
    requires ProblemExponents(p, e, closer, x, first)
    ensures e >= 0 ==> x >= 0
    ensures p.LowEnd() <==> CountsLowerEnd(f, e, closer, x)
    ensures p.Late() <==> e >= 0 && first == x && RemainderExponent(e, closer, x) > e / 32
    ensures 10 * p.lower >= BPow(p.RemainderExp()) && (p.Late() ==> p.numExp <= p.denExp)
  {
    var m := p.RemainderExp();
    if e >= 0 {
      BitsOfBigits(m);
      ThreeBits();
      PowAdd(2, 2, e);
      hide Pow, BPow;
      if m <= e / 32 {
        PowMono(2, 32 * m, e);
      } else {
        PowStrict(e, 32 * m);
        PowMono(2, 32 * m, 2 + e);
      }
    } else {
      hide Pow, BPow;
    }
  }

  lemma ThreeBits()
    ensures Pow(2, 2) == 4
  {}

  /** A problem that starts late has a denominator far above the upper margin. */
  lemma LateMargin(u: nat, d: nat, e: nat, closer: bool, x: nat, even: bool)
    requires Scaled(u, d, x, UpperMargin(e)) && RemainderExponent(e, closer, x) > e / 32
    ensures !Below(d, u, even)
  {
    var upper := UpperMargin(e);
    assert x > e;
    TenAboveTwo(x);
    RTwoMono(e - 1, x);
    RTwoSucc(x - 1);
    RTwoMono(e - 1, x - 1);
    hide RTwo, RTen, Scaled;
    PowerScaled(u, d, x, upper);
  }

  lemma {:induction false} TenAboveTwo(n: nat)
    ensures RTen(n) >= RTwo(n)
  {
    if n > 0 {
      TenAboveTwo(n - 1);
      RTenSucc(n - 1);
      RTwoSucc(n - 1);
    } else {
      RTenZero();
      RTwoZero();
    }
  }

  /** The numerator is a multiple of the denominator exactly when the value is a multiple of the power of ten. */
  lemma MultipleReal(n: nat, d: nat, x: int, v: real)
    requires Scaled(n, d, x, v)
    ensures IsMultiple(n, d) <==> IsMultipleOf(v, RTen(x))
  {
    hide RTen;
    if IsMultiple(n, d) {
      var c: nat :| n == c * d;
      CompareScaled(n, c, d, RTen(x), v);
      assert v == Times(c, RTen(x));
    }
    if IsMultipleOf(v, RTen(x)) {
      var c: int :| v == Times(c, RTen(x));
      CompareScaled(n, c, d, RTen(x), v);
      NotNegative(n, c, d);
      assert n == c * d;
    }
  }

  lemma NotNegative(n: nat, c: int, d: nat)
    requires n == c * d && d > 0
    ensures c >= 0
  {
    MulLeCancel(d, 0, c);
  }

  ghost function ProblemOf(numerator: Bigint, denominator: Bigint, lower: Bigint, upper: Bigint, even: bool): Problem
    reads numerator, denominator, lower, upper
  {
    Problem(numerator.Value(), denominator.Value(), lower.Value(), upper.Value(), even,
            numerator.exp, denominator.exp, lower.exp)
  }

  lemma StartShortest(numerator: Bigint, denominator: Bigint, lower: Bigint, upper: Bigint,
                      f: nat, e: int, closer: bool, x: int, first: int)
    requires f > 0 && Prepared(numerator, denominator, lower, upper, f, e, closer, first)
    requires Exponents(numerator, denominator, lower, e, closer, x, if first == x then 1 else 10)
    requires Fits(f, e, true, first) && (first == x || first == x - 1)
    ensures var p := ProblemOf(numerator, denominator, lower, upper, Even(f));
            && Between(numerator, denominator, lower, upper, p, 0, 0)
            && (p.LowEnd() <==> CountsLowerEnd(f, e, closer, x))
            && (p.TrailingZero()
                <==> e >= 0 && first == x && RemainderExponent(e, closer, x) > e / 32 && IsMultipleOf(Real(f, e), RTen(x)))
  {
    var p := ProblemOf(numerator, denominator, lower, upper, Even(f));
    AtLeastExponent(lower);
    hide Bigint.Value, Bigint.Valid, Bigint.NumBigits, Real, RTen, Pow, BPow, Scaled, Fits, Problem.WellPosed,
      Problem.TrailingZero, Problem.LowEnd, CountsLowerEnd, IsMultipleOf;
    ProblemIs(p, f, e, closer, x, first);
    FirstBetween(numerator, denominator, lower, upper, p);
  }

  /** With the numbers of a well-posed problem the loop can start. */
  lemma FirstBetween(numerator: Bigint, denominator: Bigint, lower: Bigint, upper: Bigint, p: Problem)
    requires p == ProblemOf(numerator, denominator, lower, upper, p.even) && p.WellPosed()
    requires Separate(numerator, denominator, lower, upper)
    requires numerator.Valid() && denominator.Valid() && lower.Valid() && upper.Valid()
    ensures Between(numerator, denominator, lower, upper, p, 0, 0)
  {
    PrintedStart(p.n, p.d);
    assert Pow(10, 0) == 1;
    hide Bigint.Value, Bigint.Valid, Bigint.NumBigits, Pow, BPow, Printed;
  }

  lemma ProblemIs(p: Problem, f: nat, e: int, closer: bool, x: int, first: int)
    requires f > 0 && p.even == Even(f) && Fits(f, e, true, first) && (first == x || first == x - 1)
    requires Scaled(p.n, p.d, first, Real(f, e))
    requires Scaled(p.lower, p.d, first, LowerMargin(e, closer)) && Scaled(p.upper, p.d, first, UpperMargin(e))
    requires ProblemExponents(p, e, closer, x, first)
    ensures p.WellPosed()
    ensures p.LowEnd() <==> CountsLowerEnd(f, e, closer, x)
    ensures p.TrailingZero()
            <==> e >= 0 && first == x && RemainderExponent(e, closer, x) > e / 32 && IsMultipleOf(Real(f, e), RTen(x))
  {
    hide *;
    IntegerFacts(p.n, p.d, p.upper, f, e, true, first);
    LowerFacts(p.n, p.d, p.lower, f, e, closer, first);
    ProblemFacts(p, f, e, closer, x, first);
    MultipleReal(p.n, p.d, first, Real(f, e));
    if e >= 0 && x >= 0 && p.Late() {
      LateMargin(p.upper, p.d, e, closer, x, p.even);
    }
    PosedWell(p);
  }

  lemma PosedWell(p: Problem)
    requires p.n > 0 && p.d > 0 && p.lower > 0 && p.upper > 0 && p.n >= 2 * p.lower
    requires Below(p.d, p.n + p.upper, p.even) && !Below(10 * p.d, p.n + p.upper, p.even)
    requires 10 * p.lower >= BPow(p.RemainderExp()) && (p.Late() ==> p.numExp <= p.denExp && !Below(p.d, p.upper, p.even))
    ensures p.WellPosed()
    ensures p.TrailingZero() <==> p.Late() && IsMultiple(p.n, p.d)
  {
    hide BPow, IsMultiple;
  }

  lemma AtLeastExponent(b: Bigint)
    ensures b.Value() > 0 ==> b.Value() >= BPow(b.exp)
  {
    if Num(b.bigits) > 0 {
      MulLe(BPow(b.exp), 1, Num(b.bigits));
    } else {
      ZeroTimes(BPow(b.exp));
    }
  }

  lemma StartPrecision(numerator: Bigint, denominator: Bigint, lower: Bigint, upper: nat,
                       f: nat, e: int, closer: bool, x: int, first: int)
    requires f > 0 && numerator.Valid() && denominator.Valid()
    requires Scaled(numerator.Value(), denominator.Value(), first, Real(f, e))
    requires Scaled(upper, denominator.Value(), first, UpperMargin(e))
    requires Exponents(numerator, denominator, lower, e, closer, x, 1)
    requires Fits(f, e, false, first)
    ensures CanDivide(numerator, denominator) && 0 < numerator.Value() < 10 * denominator.Value()
    ensures 10 * numerator.Value() > denominator.Value()
    ensures Missed(numerator, denominator)
            <==> e >= 0 && x >= 0 && (e + Shift(closer)) / 32 > x / 32 && Real(f, e) == RTen(first)
  {
    IntegerFacts(numerator.Value(), denominator.Value(), upper, f, e, false, first);
    hide Bigint.Value, Bigint.Valid, Bigint.NumBigits, Real, RTen, Scaled, Below;
    PowerScaled(numerator.Value(), denominator.Value(), first, Real(f, e));
  }

  // ----- What the digits mean -----

  /** The digits of the shortest loop, read as real numbers. */
  lemma ShortestMeaning(digits: seq<char>, p: Problem, i: Interval, first: int)
    requires ShortestDigits(digits, p) && p.even == i.high && i.Proper() && i.v >= 2.0 * i.lower
    requires ScaledInterval(p.n, p.d, p.lower, p.upper, first, i) && !RBelow(RTen(first + 1), i.v + i.upper, i.high)
    ensures IsNumber(digits)
    ensures var q, exp := DigitsVal(digits), first - (|digits| - 1);
            && i.Has(q, exp, p.LowEnd()) && i.ClosestAt(q, exp, p.LowEnd())
            && if p.TrailingZero() then exp + 1 == first else i.NoneAt(exp + 1, p.LowEnd())
  {
    var k := |digits| - 1;
    var scale := Pow(10, k);
    hide *;
    ShortestFacts(digits, p);
    FinerInterval(p.n, p.d, p.lower, p.upper, first, i, k);
    InsideReal(DigitsVal(digits), p.n * scale, p.d, p.lower * scale, p.upper * scale, p.LowEnd(), first - k, i);
    ClosestReal(DigitsVal(digits), p.n * scale, p.d, p.lower * scale, p.upper * scale, p.LowEnd(), first - k, i);
    if !p.TrailingZero() {
      NothingShorter(p, i, first, k);
    }
  }

  lemma ShortestFacts(digits: seq<char>, p: Problem)
    requires ShortestDigits(digits, p)
    ensures IsNumber(digits) && digits != []
    ensures if p.TrailingZero() then |digits| == 2 else NoShorter(p, |digits| - 1)
    ensures var scale := Pow(10, |digits| - 1);
            && Inside(DigitsVal(digits), p.n * scale, p.d, p.lower * scale, p.upper * scale, p.LowEnd(), p.even)
            && Closest(DigitsVal(digits), p.n * scale, p.d, p.lower * scale, p.upper * scale, p.LowEnd(), p.even)
  {}

  lemma FinerInterval(n: nat, d: nat, l: nat, u: nat, x: int, i: Interval, k: nat)
    requires ScaledInterval(n, d, l, u, x, i)
    ensures var scale := Pow(10, k); ScaledInterval(n * scale, d, l * scale, u * scale, x - k, i)
  {
    FinerUnit(n, d, x, i.v, k);
    FinerUnit(l, d, x, i.lower, k);
    FinerUnit(u, d, x, i.upper, k);
    hide Pow, Scaled;
  }

  /** With one digit less nothing is inside: by the loop, or because the first digit is the only one. */
  lemma NothingShorter(p: Problem, i: Interval, first: int, k: nat)
    requires NoShorter(p, k) && p.even == i.high && i.Proper() && i.v >= 2.0 * i.lower
    requires ScaledInterval(p.n, p.d, p.lower, p.upper, first, i) && !RBelow(RTen(first + 1), i.v + i.upper, i.high)
    ensures i.NoneAt(first - k + 1, p.LowEnd())
  {
    if k == 0 {
      NothingBelowFirst(i, first + 1, p.LowEnd());
    } else {
      var scale := Pow(10, k - 1);
      assert NoneInside(p.n * scale, p.d, p.lower * scale, p.upper * scale, p.LowEnd(), p.even);
      hide *;
      FinerInterval(p.n, p.d, p.lower, p.upper, first, i, k - 1);
      NoneInsideReal(p.n * scale, p.d, p.lower * scale, p.upper * scale, p.LowEnd(), first - (k - 1), i);
      assert first - (k - 1) == first - k + 1;
    }
  }

  lemma NothingBelowFirst(i: Interval, exp: int, low: bool)
    requires i.Proper() && i.v >= 2.0 * i.lower && !RBelow(RTen(exp), i.v + i.upper, i.high)
    ensures i.NoneAt(exp, low)
  {
    hide RTen, Times;
    forall q: int ensures !i.Has(q, exp, low) {
      PointOutside(q, RTen(exp));
    }
  }

  lemma PointOutside(q: int, unit: real)
    requires unit > 0.0
    ensures Times(q, unit) <= 0.0 || Times(q, unit) >= unit
  {
    var t, a := Times(q, unit), q as real;
    assert t == a * unit;
    PointSign(t, a, unit);
    assert a <= 0.0 || a >= 1.0 by {
      hide Times;
    }
  }

  lemma PointSign(t: real, a: real, unit: real)
    requires unit > 0.0 && t == a * unit
    ensures a <= 0.0 ==> t <= 0.0
    ensures a >= 1.0 ==> t >= unit
  {
    if a >= 1.0 {
      assert (a - 1.0) * unit >= 0.0;
      assert (a - 1.0) * unit == t - unit;
    }
  }

  // ----- The lower end -----

  /** No power of ten is a positive power of two. */
  lemma PowersDiffer(j: int, k: nat)
    requires k > 0
    ensures RTen(j) != RTwo(k)
  {
    RTwoZero();
    RTwoMono(1, k);
    RTwoSucc(0);
    RTenZero();
    if j <= 0 {
      RTenMono(j, 0);
    } else if RTen(j) == RTwo(k) {
      RTenPow(j);
      RTwoPow(k);
      hide RTen, RTwo;
      PowersDifferNat(j, k);
    }
  }

  lemma PowersDifferNat(j: nat, k: nat)
    requires j > 0 && k > 0
    ensures Pow(10, j) != Pow(2, k)
  {
    PowProduct(5, 2, j);
    OddPower(j);
    if k > j {
      PowAdd(2, k - j - 1, j + 1);
      assert Pow(2, j + 1) == 2 * Pow(2, j);
      assert k - j - 1 + (j + 1) == k;
      hide Pow;
      EvenMultiple(1, Pow(2, k - j - 1), Pow(2, j), Pow(5, j));
    } else {
      PowMono(2, k, j);
      FiveOrMore(j);
      hide Pow;
      MulLe(Pow(2, j), 5, Pow(5, j));
    }
  }

  lemma FiveOrMore(j: nat)
    requires j > 0
    ensures Pow(5, j) >= 5
  {
    assert Pow(5, j) == 5 * Pow(5, j - 1);
  }

  lemma {:induction false} OddPower(y: nat)
    ensures Pow(5, y) % 2 == 1
  {
    if y > 0 {
      OddPower(y - 1);
      assert Pow(5, y) == Pow(5, y - 1) + 2 * (2 * Pow(5, y - 1));
    }
  }

  lemma EvenMultiple(f: nat, a: nat, t: nat, odd: nat)
    requires t > 0 && odd % 2 == 1
    ensures f * (a * (2 * t)) != odd * t
  {
    assert f * (a * (2 * t)) == t * (2 * (f * a)) && odd * t == t * odd;
    if t * (2 * (f * a)) == t * odd {
      CancelNat(t, 2 * (f * a), odd);
    }
  }

  lemma IntervalFacts(f: nat, e: int, closer: bool)
    requires f > 0
    ensures var i := RoundingInterval(f, e, closer); i.Proper() && i.v >= 2.0 * i.lower
    ensures e >= 2 ==> NoTie(LowerMargin(e, closer))
  {
    AtLeastPower(f, e, closer);
    MarginRatio(e, closer);
    if e >= 2 {
      MarginPower(e, closer);
    }
    hide *;
    IntervalIs(f, e, closer);
  }

  lemma IntervalIs(f: nat, e: int, closer: bool)
    ensures var i := RoundingInterval(f, e, closer);
            && i.v == Real(f, e) && i.lower == LowerMargin(e, closer) && i.upper == UpperMargin(e)
            && (i.Proper() <==> 0.0 < LowerMargin(e, closer) <= UpperMargin(e) <= 2.0 * LowerMargin(e, closer))
            && i.high == Even(f)
  {}

  lemma MarginRatio(e: int, closer: bool)
    ensures 0.0 < LowerMargin(e, closer) <= UpperMargin(e) <= 2.0 * LowerMargin(e, closer)
  {
    RTwoSucc(e - 2);
    assert e - 2 + 1 == e - 1;
    hide RTwo;
  }

  lemma MarginPower(e: nat, closer: bool)
    requires e >= 2
    ensures NoTie(LowerMargin(e, closer))
  {
    var k := e - Shift(closer) + 1;
    RTwoSucc(k - 1);
    RTwoZero();
    RTwoMono(0, k);
    forall j: int ensures RTen(j) != RTwo(k) {
      PowersDiffer(j, k);
    }
    hide RTen, RTwo;
  }

  /** A value that is a multiple of a larger power of ten than its exponent has an even significand. */
  lemma TrailingZeroIsEven(f: nat, e: nat, x: nat)
    requires f > 0 && x > e && IsMultipleOf(Real(f, e), RTen(x))
    ensures Even(f)
  {
    var c: int :| Real(f, e) == Times(c, RTen(x));
    IntegerMultiple(f, e, c, x);
    PowProduct(5, 2, x);
    PowAdd(2, x - e - 1, e + 1);
    assert x - e - 1 + (e + 1) == x;
    assert Pow(2, e + 1) == 2 * Pow(2, e);
    hide Pow, RTen, RTwo;
    TwiceSome(f, Pow(2, e), c, Pow(5, x), Pow(2, x - e - 1));
  }

  lemma IntegerMultiple(f: nat, e: nat, c: int, x: nat)
    requires Real(f, e) == Times(c, RTen(x))
    ensures f * Pow(2, e) == c * Pow(10, x)
  {
    RTwoPow(e);
    RTenPow(x);
    hide RTen, RTwo, Pow;
    CastProduct(f, Pow(2, e));
    CastProduct(c, Pow(10, x));
  }

  lemma TwiceSome(f: nat, t: nat, c: int, five: nat, rest: nat)
    requires t > 0 && f * t == c * (five * (rest * (2 * t)))
    ensures f % 2 == 0
  {
    assert c * (five * (rest * (2 * t))) == t * (2 * (c * (five * rest)));
    assert f * t == t * f;
    CancelNat(t, f, 2 * (c * (five * rest)));
  }

  /**
   * From what the loop achieves, with the lower end treated as it does, to what it should
   * achieve: wrong exactly when the lower end is misjudged or a trailing zero is printed.
   */
  lemma ShortestVerdict(digits: seq<char>, exp: int, f: nat, e: int, closer: bool, x: int, trailing: bool)
    requires f > 0 && IsNumber(digits)
    requires trailing ==> e >= 0 && x >= 0 && RemainderExponent(e, closer, x) > e / 32 && exp + 1 == x
                          && IsMultipleOf(Real(f, e), RTen(x))
    requires var i, q, low := RoundingInterval(f, e, closer), DigitsVal(digits), CountsLowerEnd(f, e, closer, x);
             i.Has(q, exp, low) && i.ClosestAt(q, exp, low) && (!trailing ==> i.NoneAt(exp + 1, low))
    ensures RoundingInterval(f, e, closer).Has(DigitsVal(digits), exp, true)
    ensures ReadsBack(digits, exp, f, e, closer) <==> Even(f) || !LowerEndMisjudged(f, e, closer, x)
    ensures IsShortest(digits, exp, f, e, closer) <==> !LowerEndMisjudged(f, e, closer, x) && !trailing
  {
    var i, q, low := RoundingInterval(f, e, closer), DigitsVal(digits), CountsLowerEnd(f, e, closer, x);
    IntervalFacts(f, e, closer);
    IntervalIs(f, e, closer);
    assert low != Even(f) ==> e >= 2 && (low <==> RemainderExponent(e, closer, x) > e / 32);
    assert trailing ==> low && x > e;
    if trailing {
      TrailingZeroIsEven(f, e, x);
      hide RoundingInterval, Real, RTen, DigitsVal, Interval.Has, Interval.LowerEndBest, NoTie, CountsLowerEnd, Even;
      ValueAt(i, x);
    } else {
      hide RoundingInterval, Real, RTen, DigitsVal, Interval.Has, Interval.LowerEndBest, NoTie, CountsLowerEnd, Even,
        Interval.Proper;
      HasClosed(i, q, exp, low);
      if low && !Even(f) {
        LowerEndTaken(i, q, exp);
      } else if !low && Even(f) {
        LowerEndLeftOut(i, q, exp);
      }
    }
  }

  lemma HasClosed(i: Interval, q: int, exp: int, low: bool)
    requires i.Has(q, exp, low)
    ensures i.Has(q, exp, true)
  {}

  /** A value that is itself a multiple of a power of ten is in its interval. */
  lemma ValueAt(i: Interval, exp: int)
    requires i.Proper() && IsMultipleOf(i.v, RTen(exp))
    ensures !i.NoneAt(exp, true)
  {
    var c: int :| i.v == Times(c, RTen(exp));
    hide RTen, Times;
    assert i.Has(c, exp, true);
  }

  /** The digits of the precision mode, read as a real number. */
  lemma RoundedMeaning(digits: seq<char>, exp: int, n: int, n0: nat, d: nat, fixed: bool, f: nat, e: int, first: int)
    requires RoundedText(digits, exp, n, n0, d, first - n + 1, fixed) && Scaled(n0, d, first, Real(f, e))
    ensures IsRounded(digits, exp, n, fixed, f, e, first - n + 1)
  {
    var unit := first - n + 1;
    var p: int :| RoundedTo(p, n, n0, d) && PrintsAs(digits, exp, p, Max(n, 1), unit, fixed);
    hide *;
    RoundedReal(p, n, n0, d, first, Real(f, e));
    RoundedIs(digits, exp, p, n, fixed, f, e, unit);
  }

  lemma RoundedIs(digits: seq<char>, exp: int, p: int, n: int, fixed: bool, f: nat, e: int, unit: int)
    requires RNearest(p, RTen(unit), Real(f, e)) && PrintsAs(digits, exp, p, Max(n, 1), unit, fixed)
    ensures IsRounded(digits, exp, n, fixed, f, e, unit)
  {
    hide RNearest, RTen, Real, PrintsAs;
  }

  lemma RoundedReal(p: int, n: int, n0: nat, d: nat, first: int, v: real)
    requires RoundedTo(p, n, n0, d) && Scaled(n0, d, first, v)
    ensures RNearest(p, RTen(first - n + 1), v)
  {
    hide RTen, Scaled, NearestEven, RNearest, Pow;
    var unit := first - n + 1;
    if n >= 1 {
      FinerUnit(n0, d, first, v, n - 1);
      assert first - (n - 1) == unit;
      NearestReal(p, n0 * Pow(10, n - 1), d, unit, v);
    } else {
      CoarserUnit(n0, d, first, v, 1 - n);
      assert first + (1 - n) == unit;
      NearestReal(p, n0, d * Pow(10, 1 - n), unit, v);
    }
  }

  // ----- The whole function -----

  /** The numbers of the digit loops and the exponent of the first digit. */
  method Begin(f: nat, e: int, closer: bool, fixup: bool, shortest: bool, x: int)
      returns (numerator: Bigint, denominator: Bigint, lower: Bigint, upper: Bigint, first: int)
    requires 0 < f < 0x1_0000_0000_0000_0000_0000_0000_0000_0000
    requires -0x4000_0000 < x < 0x4000_0000 && GoodEstimate(f, e, fixup, shortest, x)
    ensures fresh(numerator) && fresh(denominator) && fresh(lower) && fresh(upper) && numerator != denominator
    ensures first == FirstExponent(f, e, fixup, x) && (first == x || first == x - 1)
    ensures Fits(f, e, shortest, first) && (e >= 0 ==> x >= 0)
    ensures shortest ==>
              && Prepared(numerator, denominator, lower, upper, f, e, closer, first)
              && Exponents(numerator, denominator, lower, e, closer, x, if first == x then 1 else 10)
    ensures !shortest ==>
              && CanDivide(numerator, denominator) && 0 < numerator.Value() < 10 * denominator.Value()
              && 10 * numerator.Value() > denominator.Value()
              && Scaled(numerator.Value(), denominator.Value(), first, Real(f, e))
              && (Missed(numerator, denominator)
                  <==> e >= 0 && x >= 0 && (e + Shift(closer)) / 32 > x / 32 && Real(f, e) == RTen(first))
  {
    var even := f % 2 == 0;
    assert even == Even(f);
    hide *;
    EstimateRange(f, e, fixup, shortest, x);
    FirstExponentFits(f, e, fixup, shortest, x);
    numerator, denominator, lower, upper := Setup(f, e, closer, x);
    first := x;
    ghost var u := upper.Value();
    SetupFacts(numerator, denominator, lower, upper, f, e, closer, x, fixup);
    if fixup {
      first := Fixup(numerator, denominator, lower, upper, f, e, closer, even, shortest, x);
      u := u * (if first == x then 1 else 10);
    }
    if !shortest {
      StartPrecision(numerator, denominator, lower, u, f, e, closer, x, first);
    }
  }

  lemma SetupFacts(numerator: Bigint, denominator: Bigint, lower: Bigint, upper: Bigint,
                   f: nat, e: int, closer: bool, x: int, fixup: bool)
    requires Prepared(numerator, denominator, lower, upper, f, e, closer, x)
    ensures !fixup ==> FirstExponent(f, e, fixup, x) == x
    ensures FirstExponent(f, e, fixup, x) == x || FirstExponent(f, e, fixup, x) == x - 1
    ensures numerator.Valid() && denominator.Valid() && Separate(numerator, denominator, lower, upper)
    ensures numerator != denominator
    ensures Scaled(numerator.Value(), denominator.Value(), x, Real(f, e))
    ensures Scaled(upper.Value(), denominator.Value(), x, UpperMargin(e))
  {}

  /**
   * The shortest mode. The text reads back as the number, and is the shortest such text, but
   * for two cases, in both of which a multiple of 32 separates exponents; even then the text
   * is in the interval or at its lower end.
   */
  ghost predicate ShortestMode(digits: seq<char>, exp: int, f: nat, e: int, flags: Flags, x: int) {
    var closer, fixup := flags.predecessorCloser, flags.fixup;
    && IsNumber(digits) && RoundingInterval(f, e, closer).Has(DigitsVal(digits), exp, true)
    && (ReadsBack(digits, exp, f, e, closer) <==> Even(f) || !LowerEndMisjudged(f, e, closer, x))
    && (IsShortest(digits, exp, f, e, closer)
        <==> !LowerEndMisjudged(f, e, closer, x) && !PrintsTrailingZero(f, e, closer, fixup, x))
  }

  /**
   * The precision mode with n digits. The number is rounded to the last of them, but for two or
   * more digits of a power of ten that is missed: their text is fixed as well.
   */
  ghost predicate PrecisionMode(digits: seq<char>, exp: int, n: int, f: nat, e: int, flags: Flags, x: int) {
    var unit := FirstExponent(f, e, flags.fixup, x) - n + 1;
    if n >= 2 && MissesPower(f, e, flags.predecessorCloser, flags.fixup, x) then digits == MissedText(n) && exp == unit
    else IsRounded(digits, exp, n, flags.fixed, f, e, unit)
  }

  /**
   * With numDigits digits behind the point: the multiple of 10^-numDigits nearest to the value,
   * ties to even. Only the text of a missed power with two or more digits is another one.
   */
  ghost predicate FixedPoint(digits: seq<char>, exp: int, numDigits: int, f: nat, e: int, flags: Flags, x: int) {
    && exp == -numDigits
    && (!(MissesPower(f, e, flags.predecessorCloser, flags.fixup, x) && Real(f, e) >= RTen(1 - numDigits)) ==>
          AllDigits(digits) && RNearest(DigitsVal(digits), RTen(-numDigits), Real(f, e)))
  }

  /** The text has m characters. Without an exact position of the point, all nines carried make one more. */
  ghost predicate SignificantDigits(digits: seq<char>, m: nat, fixed: bool) {
    |digits| == m || (fixed && digits == OneAndZeros(m))
  }

  lemma PrintedDigits(digits: seq<char>, exp: int, p: int, m: nat, unit: int, fixed: bool)
    requires m > 0 && PrintsAs(digits, exp, p, m, unit, fixed)
    ensures SignificantDigits(digits, m, fixed) && AllDigits(digits)
    ensures fixed ==> exp == unit && DigitsVal(digits) == p
  {
    PowerDigits(m);
    hide DigitsVal, Pow, AllDigits;
  }

  lemma PowerDigits(k: nat)
    ensures DigitsVal(OneAndZeros(k)) == Pow(10, k)
  {
    ZerosAfter(OneAndZeros(k));
    hide DigitsVal, Pow;
  }

  /** What the precision mode means for the two ways of counting digits. */
  lemma PrecisionMeans(digits: seq<char>, exp: int, numDigits: int, f: nat, e: int, flags: Flags, x: int)
    requires numDigits >= 0
    requires var n := if flags.fixup && flags.fixed then numDigits + FirstExponent(f, e, flags.fixup, x) + 1 else numDigits;
             PrecisionMode(digits, exp, n, f, e, flags, x)
    ensures flags.fixup && flags.fixed ==> FixedPoint(digits, exp, numDigits, f, e, flags, x)
    ensures !(flags.fixup && flags.fixed) ==> SignificantDigits(digits, Max(numDigits, 1), flags.fixed)
  {
    var first := FirstExponent(f, e, flags.fixup, x);
    var n := if flags.fixup && flags.fixed then numDigits + first + 1 else numDigits;
    var unit := first - n + 1;
    hide Real, RTen, AllDigits, DigitsVal, RNearest, PrintsAs, FirstExponent;
    if n >= 2 && MissesPower(f, e, flags.predecessorCloser, flags.fixup, x) {
      if flags.fixup && flags.fixed {
        MissedAbove(f, e, flags.predecessorCloser, flags.fixup, x, numDigits);
      }
    } else {
      var p: int :| RNearest(p, RTen(unit), Real(f, e)) && PrintsAs(digits, exp, p, Max(n, 1), unit, flags.fixed);
      PrintedDigits(digits, exp, p, Max(n, 1), unit, flags.fixed);
    }
  }

  /** A missed power for which two or more digits are printed lies above the last of them. */
  lemma MissedAbove(f: nat, e: int, closer: bool, fixup: bool, x: int, numDigits: int)
    requires MissesPower(f, e, closer, fixup, x) && numDigits + FirstExponent(f, e, fixup, x) + 1 >= 2
    ensures Real(f, e) >= RTen(1 - numDigits)
  {
    RTenMono(1 - numDigits, FirstExponent(f, e, fixup, x));
    hide Real, RTen, FirstExponent;
  }

  method FormatDragon(f: nat, e: int, flags: Flags, numDigits: int, exp10: int)
      returns (result: Option<(seq<char>, int)>)
    requires 0 < f < 0x1_0000_0000_0000_0000_0000_0000_0000_0000
    requires -0x4000_0000 < exp10 < 0x4000_0000 && -0x4000_0000 <= numDigits <= 0x7fff_ffff
    requires GoodEstimate(f, e, flags.fixup, numDigits < 0, exp10)
    ensures numDigits < 0 ==> result.Some? && ShortestMode(result.value.0, result.value.1, f, e, flags, exp10)
    ensures numDigits >= 0 ==>
              var first := FirstExponent(f, e, flags.fixup, exp10);
              var n := if flags.fixup && flags.fixed then numDigits + first + 1 else numDigits;
              && (result.None? <==> n > 0x7fff_ffff)
              && (result.Some? ==> PrecisionMode(result.value.0, result.value.1, n, f, e, flags, exp10))
    ensures numDigits >= 0 && flags.fixup && flags.fixed && result.Some? ==>
              FixedPoint(result.value.0, result.value.1, numDigits, f, e, flags, exp10)
    ensures numDigits >= 0 && !(flags.fixup && flags.fixed) ==>
              result.Some? && SignificantDigits(result.value.0, Max(numDigits, 1), flags.fixed)
  {
    var even, shortest := f % 2 == 0, numDigits < 0;
    assert even == Even(f);
    hide ShortestMode, PrecisionMode, FixedPoint, SignificantDigits, Real, RTen, Scaled, Prepared, Fits, GoodEstimate,
      FirstExponent, UpperMargin, Even, Bigint.Value, Bigint.Valid, Bigint.NumBigits, CanDivide, Exponents, RoundingInterval;
    var numerator, denominator, lower, upper, first := Begin(f, e, flags.predecessorCloser, flags.fixup, shortest, exp10);
    var n := numDigits;
    if flags.fixup && flags.fixed {
      var adjusted := AdjustPrecision(n as Int, (first + 1) as Int);
      if adjusted.None? {
        return None;
      }
      n := adjusted.value as int;
    }
    if shortest {
      var digits, exp := ShortestDigitsOf(numerator, denominator, lower, upper, f, e, flags, even, exp10, first);
      return Some((digits, exp));
    } else {
      var digits, exp := PrecisionDigitsOf(numerator, denominator, n, f, e, flags, exp10, first);
      PrecisionMeans(digits, exp, numDigits, f, e, flags, exp10);
      return Some((digits, exp));
    }
  }

  method ShortestDigitsOf(numerator: Bigint, denominator: Bigint, lower: Bigint, upper: Bigint,
                          ghost f: nat, ghost e: int, ghost flags: Flags, even: bool, ghost x: int, first: int)
      returns (digits: seq<char>, exp: int)
    requires f > 0 && even == Even(f) && Prepared(numerator, denominator, lower, upper, f, e, flags.predecessorCloser, first)
    requires Exponents(numerator, denominator, lower, e, flags.predecessorCloser, x, if first == x then 1 else 10)
    requires Fits(f, e, true, first) && first == FirstExponent(f, e, flags.fixup, x) && (first == x || first == x - 1)
    requires e >= 0 ==> x >= 0
    modifies numerator, lower, upper
    ensures ShortestMode(digits, exp, f, e, flags, x)
  {
    hide *;
    StartShortest(numerator, denominator, lower, upper, f, e, flags.predecessorCloser, x, first);
    ghost var p := ProblemOf(numerator, denominator, lower, upper, even);
    PreparedFacts(numerator, denominator, lower, upper, even, p, f, e, flags.predecessorCloser, first);
    digits := Shortest(numerator, denominator, lower, upper, even, p);
    exp := first - (|digits| - 1);
    ShortestResult(digits, p, f, e, flags, x, first);
  }

  lemma PreparedFacts(numerator: Bigint, denominator: Bigint, lower: Bigint, upper: Bigint, even: bool, p: Problem,
                      f: nat, e: int, closer: bool, first: int)
    requires Prepared(numerator, denominator, lower, upper, f, e, closer, first)
    requires p == ProblemOf(numerator, denominator, lower, upper, even)
    ensures p.even == even && Scaled(p.n, p.d, first, Real(f, e))
    ensures Scaled(p.lower, p.d, first, LowerMargin(e, closer)) && Scaled(p.upper, p.d, first, UpperMargin(e))
  {}

  method PrecisionDigitsOf(numerator: Bigint, denominator: Bigint, n: int,
                           ghost f: nat, ghost e: int, flags: Flags, ghost x: int, first: int)
      returns (digits: seq<char>, exp: int)
    requires numerator != denominator && CanDivide(numerator, denominator)
    requires 0 < numerator.Value() < 10 * denominator.Value() && 10 * numerator.Value() > denominator.Value()
    requires Scaled(numerator.Value(), denominator.Value(), first, Real(f, e)) && first == FirstExponent(f, e, flags.fixup, x)
    requires Missed(numerator, denominator)
             <==> e >= 0 && x >= 0 && (e + Shift(flags.predecessorCloser)) / 32 > x / 32 && Real(f, e) == RTen(first)
    modifies numerator, denominator
    ensures PrecisionMode(digits, exp, n, f, e, flags, x)
  {
    hide *;
    ghost var n0, d, missed := numerator.Value(), denominator.Value(), Missed(numerator, denominator);
    digits, exp := Precision(numerator, denominator, n, flags.fixed, first);
    RoundedResult(digits, exp, n, n0, d, missed, f, e, flags, x, first);
  }

  /** The result of the shortest mode. */
  lemma ShortestResult(digits: seq<char>, p: Problem, f: nat, e: int, flags: Flags, x: int, first: int)
    requires f > 0 && ShortestDigits(digits, p) && p.even == Even(f) && Fits(f, e, true, first)
    requires Scaled(p.n, p.d, first, Real(f, e)) && first == FirstExponent(f, e, flags.fixup, x)
    requires Scaled(p.lower, p.d, first, LowerMargin(e, flags.predecessorCloser)) && Scaled(p.upper, p.d, first, UpperMargin(e))
    requires p.LowEnd() <==> CountsLowerEnd(f, e, flags.predecessorCloser, x)
    requires e >= 0 ==> x >= 0
    requires p.TrailingZero() <==> e >= 0 && first == x && RemainderExponent(e, flags.predecessorCloser, x) > e / 32
                                   && IsMultipleOf(Real(f, e), RTen(x))
    ensures digits != [] && ShortestMode(digits, first - (|digits| - 1), f, e, flags, x)
  {
    hide *;
    var exp, closer := first - (|digits| - 1), flags.predecessorCloser;
    var i := RoundingInterval(f, e, closer);
    IntervalFacts(f, e, closer);
    ScaledIntervalIs(p, f, e, closer, first);
    PrintsTrailingZeroIs(p.TrailingZero(), f, e, closer, flags.fixup, x, first);
    ShortestMeaning(digits, p, i, first);
    ShortestVerdict(digits, exp, f, e, closer, x, p.TrailingZero());
    ShortestModeIs(digits, exp, f, e, flags, x);
  }

  lemma ShortestModeIs(digits: seq<char>, exp: int, f: nat, e: int, flags: Flags, x: int)
    requires var closer := flags.predecessorCloser;
             && IsNumber(digits) && RoundingInterval(f, e, closer).Has(DigitsVal(digits), exp, true)
             && (ReadsBack(digits, exp, f, e, closer) <==> Even(f) || !LowerEndMisjudged(f, e, closer, x))
             && (IsShortest(digits, exp, f, e, closer)
                 <==> !LowerEndMisjudged(f, e, closer, x) && !PrintsTrailingZero(f, e, closer, flags.fixup, x))
    ensures digits != [] && ShortestMode(digits, exp, f, e, flags, x)
  {
    hide RoundingInterval, LowerEndMisjudged, PrintsTrailingZero, ReadsBack, IsShortest, Even;
  }

  lemma ScaledIntervalIs(p: Problem, f: nat, e: int, closer: bool, first: int)
    requires Scaled(p.n, p.d, first, Real(f, e)) && Fits(f, e, true, first)
    requires Scaled(p.lower, p.d, first, LowerMargin(e, closer)) && Scaled(p.upper, p.d, first, UpperMargin(e))
    ensures var i := RoundingInterval(f, e, closer);
            && ScaledInterval(p.n, p.d, p.lower, p.upper, first, i)
            && !RBelow(RTen(first + 1), i.v + i.upper, i.high) && i.high == Even(f)
  {
    hide Real, RTen, LowerMargin, UpperMargin, Scaled, RBelow, Even;
  }

  lemma PrintsTrailingZeroIs(trailing: bool, f: nat, e: int, closer: bool, fixup: bool, x: int, first: int)
    requires first == FirstExponent(f, e, fixup, x) && (e >= 0 ==> x >= 0)
    requires trailing <==> e >= 0 && first == x && RemainderExponent(e, closer, x) > e / 32 && IsMultipleOf(Real(f, e), RTen(x))
    ensures PrintsTrailingZero(f, e, closer, fixup, x) <==> trailing
    ensures trailing ==>
              e >= 0 && x >= 0 && RemainderExponent(e, closer, x) > e / 32 && first == x && IsMultipleOf(Real(f, e), RTen(x))
  {
    hide Real, RTen, IsMultipleOf, FirstExponent, RemainderExponent;
  }

  /** The result of the precision mode. */
  lemma RoundedResult(digits: seq<char>, exp: int, n: int, n0: nat, d: nat, missed: bool,
                      f: nat, e: int, flags: Flags, x: int, first: int)
    requires Scaled(n0, d, first, Real(f, e)) && first == FirstExponent(f, e, flags.fixup, x)
    requires missed <==> e >= 0 && x >= 0 && (e + Shift(flags.predecessorCloser)) / 32 > x / 32 && Real(f, e) == RTen(first)
    requires if n >= 2 && missed then digits == MissedText(n) && exp == first - n + 1
             else RoundedText(digits, exp, n, n0, d, first - n + 1, flags.fixed)
    ensures PrecisionMode(digits, exp, n, f, e, flags, x)
  {
    assert missed <==> MissesPower(f, e, flags.predecessorCloser, flags.fixup, x);
    hide RTen, Real, RoundedText, IsRounded, Scaled, MissesPower, MissedText, FirstExponent;
    if !(n >= 2 && missed) {
      RoundedMeaning(digits, exp, n, n0, d, flags.fixed, f, e, first);
    }
  }
}
