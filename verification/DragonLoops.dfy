/** format_dragon: shortest and fixed-precision digits of f * 2^e with exact integer arithmetic. */
module DragonLoops {
  import opened Powers
  import opened Bigits
  import opened Digits
  import opened DragonArithmetic
  import opened BigintArithmetic
  import opened BigintOrder
  import opened Bigints

  /** The four numbers are separate objects, except that the margins may share one. */
  ghost predicate Separate(numerator: Bigint, denominator: Bigint, lower: Bigint, upper: Bigint) {
    && numerator != denominator && numerator != lower && numerator != upper
    && denominator != lower && denominator != upper
  }

  // ----- Shortest digits -----

  /**
   * The problem the shortest loop starts from: the number n / d with its margins, whether the
   * interval is closed, and the exponents of numerator, denominator and lower margin.
   */
  datatype Problem = Problem(n: nat, d: nat, lower: nat, upper: nat, even: bool, numExp: nat, denExp: nat, lowerExp: nat)
  {
    /** The exponent of every remainder, once a digit has been divided off. */
    function RemainderExp(): nat {
      Min(numExp, denExp)
    }

    /**
     * Whether the loop takes a number at the lower end of the interval: compare decides
     * between equal values by their exponents, and only for equal exponents does even matter.
     */
    predicate LowEnd() {
      LowEndFor(RemainderExp(), lowerExp, even)
    }

    /** After the first digit a zero remainder still has more bigits than the lower margin. */
    predicate Late() {
      lower < BPow(RemainderExp())
    }

    /** One digit is the number itself, but the loop does not see that in time and prints a zero behind it. */
    ghost predicate TrailingZero() {
      Late() && IsMultiple(n, d)
    }

    ghost predicate WellPosed() {
      && n > 0 && d > 0 && lower > 0 && upper > 0 && n >= 2 * lower
      && Below(d, n + upper, even) && !Below(10 * d, n + upper, even)
      && 10 * lower >= BPow(RemainderExp())
      && (Late() ==> numExp <= denExp && !Below(d, upper, even))
    }
  }

  predicate LowEndFor(numExp: nat, lowerExp: nat, even: bool) {
    numExp > lowerExp || (numExp == lowerExp && even)
  }

  ghost predicate IsMultiple(n: nat, d: nat) {
    exists c: nat :: n == c * d
  }

  /** Between two digits of the shortest loop: k digits make the number done. */
  ghost predicate Between(numerator: Bigint, denominator: Bigint, lower: Bigint, upper: Bigint,
                          p: Problem, k: nat, done: nat)
    reads numerator, denominator, lower, upper
  {
    && Separate(numerator, denominator, lower, upper) && p.WellPosed()
    && numerator.Valid() && denominator.Valid() && lower.Valid() && upper.Valid()
    && (numerator.Value() == 0 ==> numerator.NumBigits() <= denominator.NumBigits())
    && denominator.Value() == p.d && denominator.exp == p.denExp && lower.exp == p.lowerExp
    && Printed(p.n, p.d, k, done, numerator.Value())
    && lower.Value() == p.lower * Pow(10, k) && upper.Value() == p.upper * Pow(10, k) && upper.Value() > 0
    && !Below(10 * p.d, numerator.Value() + upper.Value(), p.even)
    && (k == 0 ==>
          && done == 0 && numerator.exp == p.numExp && numerator.Value() == p.n
          && lower.Value() == p.lower && upper.Value() == p.upper)
    && (k > 0 ==> numerator.exp == p.RemainderExp() && lower.Value() >= BPow(p.RemainderExp()))
  }

  /** What the two comparisons of the loop say about the remainder. */
  method Margins(numerator: Bigint, denominator: Bigint, lower: Bigint, upper: Bigint, even: bool)
      returns (low: bool, high: bool)
    requires numerator.Valid() && denominator.Valid() && denominator.Value() > 0
    requires lower.Valid() && upper.Valid() && lower.Value() > 0 && upper.Value() > 0
    requires numerator.Value() == 0 ==> numerator.NumBigits() <= denominator.NumBigits()
    ensures low <==> Below(numerator.Value(), lower.Value(), LowEndFor(numerator.exp, lower.exp, even))
                     && !(numerator.Value() == 0 && lower.Value() < BPow(numerator.exp))
    ensures high <==> Below(denominator.Value(), numerator.Value() + upper.Value(), even)
  {
    ZeroSize(numerator, lower);
    hide *;
    var c := Compare(numerator, lower);
    LowMeaning(c, numerator.Value(), numerator.exp, numerator.NumBigits(), lower.Value(), lower.exp, lower.NumBigits(), even,
               Comparable(numerator, lower));
    low := c - (if even then 1 else 0) < 0;
    var h := AddCompare(numerator, upper, denominator);
    HighMeaning(h, numerator.Value() + upper.Value(), denominator.Value(), even);
    high := h + (if even then 1 else 0) > 0;
  }

  /** A zero is comparable with a number that has at least as many bigits. */
  lemma ZeroSize(x: Bigint, y: Bigint)
    requires x.Valid() && y.Valid() && y.Value() > 0
    ensures Comparable(x, y) <==> !(x.Value() == 0 && y.Value() < BPow(x.exp))
    ensures !Comparable(x, y) ==> x.NumBigits() > y.NumBigits()
  {
    if x.Value() == 0 {
      if |x.bigits| > 1 {
        SeveralBigits(x.bigits, x.exp);
      }
      SizeOfValue(y.bigits, y.exp, x.exp);
    }
  }

  /** A positive number has more than m bigits exactly when it is at least 2^(32 m). */
  lemma SizeOfValue(s: seq<Bigit>, e: nat, m: nat)
    requires Normal(s) && Val(s, e) > 0
    ensures |s| + e > m <==> Val(s, e) >= BPow(m)
  {
    ValBound(s, e);
    ValLow(s, e);
    if |s| + e > m {
      BPowMono(m, e + |s| - 1);
    } else {
      BPowMono(e + |s|, m);
    }
  }

  lemma LowMeaning(c: int, x: nat, ex: nat, sx: nat, y: nat, ey: nat, sy: nat, even: bool, exact: bool)
    requires exact ==> c == CompareResult(x, ex, y, ey)
    requires sx != sy ==> c == Sign(sx, sy)
    requires !exact ==> sx > sy
    ensures (c - (if even then 1 else 0) < 0) <==> (Below(x, y, LowEndFor(ex, ey, even)) && exact)
  {}

  lemma HighMeaning(h: int, sum: nat, d: nat, even: bool)
    requires h == Sign(sum, d)
    ensures h + (if even then 1 else 0) > 0 <==> Below(d, sum, even)
  {}

  /** After the division of an iteration: the digit, the remainder and the two comparisons. */
  ghost predicate Divided(numerator: Bigint, denominator: Bigint, lower: Bigint, upper: Bigint,
                          p: Problem, k: nat, done: nat, digit: nat, low: bool, high: bool)
    reads numerator, denominator, lower, upper
  {
    var r := numerator.Value();
    && Separate(numerator, denominator, lower, upper) && p.WellPosed()
    && numerator.Valid() && denominator.Valid() && lower.Valid() && upper.Valid()
    && (r == 0 ==> numerator.NumBigits() <= denominator.NumBigits())
    && denominator.Value() == p.d && denominator.exp == p.denExp && lower.exp == p.lowerExp
    && lower.Value() == p.lower * Pow(10, k) && upper.Value() == p.upper * Pow(10, k)
    && lower.Value() > 0 && upper.Value() > 0
    && Outcome(p, k, done, digit, r, lower.Value(), upper.Value(), low, high)
    && (k > 0 || digit > 0 ==> numerator.exp == p.RemainderExp() && lower.Value() * 10 >= BPow(p.RemainderExp()))
  }

  /** The digit and the remainder, and what low and high mean. */
  ghost predicate Outcome(p: Problem, k: nat, done: nat, digit: nat, r: nat, lower: nat, upper: nat, low: bool, high: bool) {
    && digit <= 9 && p.n * Pow(10, k) == (10 * done + digit) * p.d + r && r <= p.d
    && (k == 0 ==> done == 0 && lower == p.lower && upper == p.upper)
    && (low <==> Below(r, lower, p.LowEnd()) && !(k == 0 && r == 0 && p.Late()))
    && (high <==> Below(p.d, r + upper, p.even))
    && (high ==> digit <= 8)
    && (k == 0 && digit == 0 ==> !low && high)
    && (k > 0 || digit > 0 ==> r < p.d)
  }

  method NextDigit(numerator: Bigint, denominator: Bigint, lower: Bigint, upper: Bigint, even: bool,
                   ghost p: Problem, ghost k: nat, ghost done: nat)
      returns (digit: nat, low: bool, high: bool)
    requires even == p.even && Between(numerator, denominator, lower, upper, p, k, done)
    modifies numerator
    ensures Divided(numerator, denominator, lower, upper, p, k, done, digit, low, high)
    ensures p.TrailingZero() && k == 0 ==> numerator.Value() == 0
    ensures old(numerator.Value()) == 0 ==> numerator.Value() == 0
  {
    hide Bigint.Value, Bigint.Valid, Bigint.NumBigits, Pow, BPow, Printed, Problem.TrailingZero;
    ghost var n, u := numerator.Value(), upper.Value();
    digit := numerator.DivmodAssign(denominator);
    AfterDivision(p, k, done, n, digit, numerator.Value(), u);
    low, high := Margins(numerator, denominator, lower, upper, even);
  }

  /** Scales what is left for the next digit. */
  method NextScale(numerator: Bigint, denominator: Bigint, lower: Bigint, upper: Bigint,
                   ghost p: Problem, ghost k: nat, ghost done: nat, ghost digit: nat)
    requires Divided(numerator, denominator, lower, upper, p, k, done, digit, false, false)
    modifies numerator, lower, upper
    ensures Between(numerator, denominator, lower, upper, p, k + 1, 10 * done + digit)
    ensures upper.Value() == old(upper.Value()) * 10 && numerator.Value() == old(numerator.Value()) * 10
  {
    hide Bigint.Value, Bigint.Valid, Bigint.NumBigits, Pow, BPow, Printed;
    PrintedNext(p.n, p.d, k, 10 * done + digit, numerator.Value());
    MarginStep(p.lower, k);
    MarginStep(p.upper, k);
    numerator.Multiply(10);
    lower.Multiply(10);
    if upper != lower {
      upper.Multiply(10);
    }
    RemainderSize(numerator, denominator);
  }

  /** When only one neighbour is within the margins it is taken, otherwise the nearer one or the even one. */
  ghost predicate RoundingRule(r: nat, d: nat, digit: nat, low: bool, high: bool, up: bool) {
    if !low then up else if !high then !up else up <==> (2 * r > d || (2 * r == d && digit % 2 != 0))
  }

  /** Whether the last digit is incremented. */
  method RoundsUp(numerator: Bigint, denominator: Bigint, digit: nat, low: bool, high: bool) returns (up: bool)
    requires numerator.Valid() && denominator.Valid() && denominator.Value() > 0
    requires numerator.Value() == 0 ==> numerator.NumBigits() <= denominator.NumBigits()
    requires low || high
    ensures RoundingRule(numerator.Value(), denominator.Value(), digit, low, high, up)
  {
    hide Bigint.Value, Bigint.Valid, Bigint.NumBigits;
    up := false;
    if !low {
      up := true;
    } else if high {
      var result := AddCompare(numerator, numerator, denominator);
      if result > 0 || (result == 0 && digit % 2 != 0) {
        up := true;
      }
    }
  }

  /**
   * What the shortest loop produces: no leading zero, a number within the margins of n / d
   * and none closer. None within the margins has one digit less, except in the case of the
   * trailing zero, in which there are two digits.
   */
  ghost predicate ShortestDigits(digits: seq<char>, p: Problem) {
    && digits != [] && AllDigits(digits) && digits[0] != '0' && DigitsVal(digits) >= 0
    && (if p.TrailingZero() then |digits| == 2 else NoShorter(p, |digits| - 1))
    && (var scale := Pow(10, |digits| - 1);
        && Inside(DigitsVal(digits), p.n * scale, p.d, p.lower * scale, p.upper * scale, p.LowEnd(), p.even)
        && Closest(DigitsVal(digits), p.n * scale, p.d, p.lower * scale, p.upper * scale, p.LowEnd(), p.even))
  }

  /** No number with at most k digits is within the margins. */
  ghost predicate NoShorter(p: Problem, k: nat) {
    k > 0 ==> var scale := Pow(10, k - 1); NoneInside(p.n * scale, p.d, p.lower * scale, p.upper * scale, p.LowEnd(), p.even)
  }

  /** What is known after k digits about shorter numbers. */
  ghost predicate Progress(p: Problem, k: nat, n: nat) {
    if p.TrailingZero() then k <= 1 && (k == 1 ==> n == 0) else NoShorter(p, k)
  }

  /**
   * The shortest-digits loop. The numerator and the upper margin together stay within ten
   * denominators, so every character is a digit; the printed number stays within the
   * margins; the loop ends because the upper margin grows tenfold each time.
   */
  method Shortest(numerator: Bigint, denominator: Bigint, lower: Bigint, upper: Bigint, even: bool, ghost p: Problem)
      returns (digits: seq<char>)
    requires even == p.even && Between(numerator, denominator, lower, upper, p, 0, 0)
    modifies numerator, lower, upper
    ensures ShortestDigits(digits, p)
  {
    digits := [];
    ghost var done: nat := 0;
    EmptyDigits();
    assert Progress(p, 0, numerator.Value());
    hide *;
    while true
      invariant Between(numerator, denominator, lower, upper, p, |digits|, done)
      invariant DigitsOk(digits, done) && Progress(p, |digits|, numerator.Value())
      decreases 10 * p.d - upper.Value()
    {
      ghost var k, u, n := |digits|, upper.Value(), numerator.Value();
      UpperBelow(numerator, denominator, lower, upper, p, k, done);
      var digit, low, high := NextDigit(numerator, denominator, lower, upper, even, p, k, done);
      RoundingReady(numerator, denominator, lower, upper, p, k, done, digit, low, high);
      ghost var r := numerator.Value();
      ProgressMade(p, k, done, n, digit, r, lower.Value(), upper.Value(), low, high);
      var more := digits + [DigitChar(digit)];
      if low || high {
        var up := RoundsUp(numerator, denominator, digit, low, high);
        FinishShortest(p, digits, done, digit, r, lower.Value(), upper.Value(), low, high, up);
        if up {
          more := more[|more| - 1 := DigitChar(digit + 1)];
          assert more == digits + [DigitChar(digit + 1)];
        }
        return more;
      }
      ContinueDigits(digits, done, digit);
      NextScale(numerator, denominator, lower, upper, p, k, done, digit);
      ProgressScaled(p, k + 1, r);
      TenTimesMore(u, p.d);
      digits := more;
      done := 10 * done + digit;
    }
  }

  lemma TenTimesMore(u: nat, d: nat)
    requires 0 < u <= 10 * d
    ensures 0 <= 10 * d - u && 10 * d - u * 10 < 10 * d - u
  {}

  /** Stopping leaves the statement about shorter numbers as it is; otherwise it holds with one more digit. */
  lemma ProgressMade(p: Problem, k: nat, done: nat, n: nat, digit: nat, r: nat, lower: nat, upper: nat, low: bool, high: bool)
    requires Progress(p, k, n) && p.WellPosed() && Outcome(p, k, done, digit, r, lower, upper, low, high)
    requires lower == p.lower * Pow(10, k) && upper == p.upper * Pow(10, k) && lower > 0
    requires (p.TrailingZero() && k == 0 ==> r == 0) && (n == 0 ==> r == 0)
    ensures !low && !high ==> Progress(p, k + 1, r)
    ensures low || high ==> if p.TrailingZero() then k == 1 else NoShorter(p, k)
  {
    OutcomeLow(p, k, done, digit, r, lower, upper, low, high);
    if !p.TrailingZero() && !low && !high {
      OutcomeContinues(p, k, done, digit, r, lower, upper);
    }
    hide Outcome, NoShorter, Problem.TrailingZero;
  }

  lemma OutcomeContinues(p: Problem, k: nat, done: nat, digit: nat, r: nat, lower: nat, upper: nat)
    requires Outcome(p, k, done, digit, r, lower, upper, false, false) && r < p.d && !Below(r, lower, p.LowEnd())
    requires lower == p.lower * Pow(10, k) && upper == p.upper * Pow(10, k)
    ensures NoShorter(p, k + 1)
  {
    hide Pow, BPow, NoneInside, Below, Problem.Late, Problem.LowEnd;
    ContinueNoneInside(p.n * Pow(10, k), p.d, 10 * done + digit, r, lower, upper, p.LowEnd(), p.even);
  }

  /** Where no trailing zero is printed, low is the comparison with the lower margin. */
  lemma OutcomeLow(p: Problem, k: nat, done: nat, digit: nat, r: nat, lower: nat, upper: nat, low: bool, high: bool)
    requires p.WellPosed() && Outcome(p, k, done, digit, r, lower, upper, low, high)
    ensures !p.TrailingZero() ==> (low <==> Below(r, lower, p.LowEnd()))
    ensures p.TrailingZero() && k == 0 && r == 0 ==> !low && !high
    ensures p.TrailingZero() && k > 0 && r == 0 && lower > 0 ==> low
    ensures k == 0 && digit == 0 ==> high
    ensures !high ==> r < p.d
  {
    assert Pow(10, 0) == 1;
    hide Pow, BPow;
    if k == 0 && r == 0 {
      assert p.n == digit * p.d;
    }
  }

  lemma ProgressScaled(p: Problem, k: nat, r: nat)
    requires k > 0 && Progress(p, k, r)
    ensures Progress(p, k, r * 10)
  {
    hide NoShorter, Problem.TrailingZero;
  }

  lemma UpperBelow(numerator: Bigint, denominator: Bigint, lower: Bigint, upper: Bigint, p: Problem, k: nat, done: nat)
    requires Between(numerator, denominator, lower, upper, p, k, done)
    ensures 0 < upper.Value() <= 10 * p.d && denominator.Value() == p.d
  {
    hide Bigint.Value, Bigint.Valid, Bigint.NumBigits, Pow, BPow, Printed;
  }

  /** The facts of Divided that rounding uses. */
  lemma RoundingReady(numerator: Bigint, denominator: Bigint, lower: Bigint, upper: Bigint,
                      p: Problem, k: nat, done: nat, digit: nat, low: bool, high: bool)
    requires Divided(numerator, denominator, lower, upper, p, k, done, digit, low, high)
    ensures numerator.Valid() && denominator.Valid() && denominator.Value() == p.d && p.d > 0 && p.WellPosed()
    ensures numerator.Value() == 0 ==> numerator.NumBigits() <= denominator.NumBigits()
    ensures digit <= 9 && (high ==> digit <= 8) && (k == 0 && digit == 0 ==> !low && high)
    ensures lower.Value() == p.lower * Pow(10, k) && upper.Value() == p.upper * Pow(10, k)
    ensures lower.Value() > 0 && upper.Value() > 0
    ensures Outcome(p, k, done, digit, numerator.Value(), lower.Value(), upper.Value(), low, high)
  {
    hide Bigint.Value, Bigint.Valid, Bigint.NumBigits, Pow, BPow;
  }

  lemma FinishShortest(p: Problem, digits: seq<char>, done: nat, digit: nat, r: nat, lower: nat, upper: nat,
                       low: bool, high: bool, up: bool)
    requires p.WellPosed() && Outcome(p, |digits|, done, digit, r, lower, upper, low, high)
    requires lower == p.lower * Pow(10, |digits|) && upper == p.upper * Pow(10, |digits|) && lower > 0 && upper > 0
    requires DigitsOk(digits, done) && (low || high)
    requires if p.TrailingZero() then |digits| == 1 else NoShorter(p, |digits|)
    requires RoundingRule(r, p.d, digit, low, high, up)
    ensures (up ==> digit <= 8) && digit <= 9
    ensures ShortestDigits(digits + [DigitChar(if up then digit + 1 else digit)], p)
  {
    hide Pow, BPow, DigitsVal, Inside, DigitsOk, NoneInside, Closest, Problem.LowEnd, Problem.TrailingZero, NoShorter;
    var scale := Pow(10, |digits|);
    FinishDigits(digits, done, digit, up, 10 * done + digit, p.n * scale, p.d, r, lower, upper, p.LowEnd(), p.even);
  }

  /** The digits printed so far, with no leading zero. */
  ghost predicate DigitsOk(digits: seq<char>, done: int) {
    AllDigits(digits) && DigitsVal(digits) == done && (digits != [] ==> digits[0] != '0')
  }

  lemma EmptyDigits()
    ensures DigitsOk([], 0)
  {}

  lemma AfterDivision(p: Problem, k: nat, done: nat, n: nat, digit: nat, r: nat, upper: nat)
    requires Printed(p.n, p.d, k, done, n) && n == digit * p.d + r && upper > 0 && p.d > 0
    requires !Below(10 * p.d, n + upper, p.even)
    requires p.WellPosed() && (p.numExp <= p.denExp ==> r < p.d)
    ensures digit <= 9 && p.n * Pow(10, k) == (10 * done + digit) * p.d + r
    ensures Below(p.d, r + upper, p.even) ==> digit <= 8
    ensures digit == 0 ==> r == n
    ensures digit > 0 ==> n >= p.d
    ensures n == 0 ==> r == 0
    ensures p.TrailingZero() && n == p.n ==> r == 0
  {
    PrintedDigit(p.n, p.d, k, done, n, digit, r);
    DigitBound(n, p.d, digit, r);
    MulLe(p.d, 0, digit);
    if digit > 0 {
      MulLe(p.d, 1, digit);
    }
    if Below(p.d, r + upper, p.even) {
      IncrementBound(n, p.d, digit, r, upper, p.even);
    }
    if p.TrailingZero() && n == p.n {
      ExactMultiple(p.n, p.d, digit, r);
    }
  }

  lemma ExactMultiple(n: nat, d: nat, q: nat, r: nat)
    requires IsMultiple(n, d) && n == q * d + r && r < d
    ensures r == 0
  {
    var c: nat :| n == c * d;
    assert d * (c - q) == r;
    SmallMultiple(d, c - q);
  }

  lemma ContinueDigits(prefix: seq<char>, done: nat, digit: nat)
    requires DigitsOk(prefix, done) && digit <= 9 && (prefix == [] ==> digit > 0)
    ensures DigitsOk(prefix + [DigitChar(digit)], 10 * done + digit)
  {
    DigitsAppend(prefix, DigitChar(digit));
  }

  lemma FinishDigits(prefix: seq<char>, done: nat, digit: nat, up: bool, q: nat,
                     n: nat, d: nat, r: nat, lower: nat, upper: nat, low: bool, high: bool)
    requires DigitsOk(prefix, done) && digit <= 9 && lower > 0 && upper > 0 && r <= d && d > 0 && (r == d ==> up)
    requires q == 10 * done + digit && n == q * d + r
    requires up ==> digit <= 8 && Below(d, r + upper, high)
    requires !up ==> Below(r, lower, low)
    requires up ==> !Below(r, lower, low) || 2 * r > d || (2 * r == d && digit % 2 != 0)
    requires !up ==> !Below(d, r + upper, high) || 2 * r < d || (2 * r == d && digit % 2 == 0)
    requires prefix == [] && digit == 0 ==> up
    ensures var last := if up then digit + 1 else digit;
            var digits := prefix + [DigitChar(last)];
            && AllDigits(digits) && digits[0] != '0' && DigitsVal(digits) >= 0
            && Inside(DigitsVal(digits), n, d, lower, upper, low, high)
            && Closest(DigitsVal(digits), n, d, lower, upper, low, high)
  {
    FinishValue(q, digit, up, n, d, r, lower, upper, low, high);
    hide *;
    ContinueDigits(prefix, done, if up then digit + 1 else digit);
    DigitsFacts(prefix + [DigitChar(if up then digit + 1 else digit)], if up then q + 1 else q);
  }

  lemma DigitsFacts(digits: seq<char>, value: int)
    requires digits != [] && DigitsOk(digits, value)
    ensures AllDigits(digits) && digits[0] != '0' && DigitsVal(digits) == value
  {}

  lemma FinishValue(q: nat, digit: nat, up: bool, n: nat, d: nat, r: nat, lower: nat, upper: nat, low: bool, high: bool)
    requires n == q * d + r && r <= d && d > 0 && (r == d ==> up) && lower > 0 && upper > 0 && (q - digit) % 10 == 0
    requires up ==> Below(d, r + upper, high) && (!Below(r, lower, low) || 2 * r > d || (2 * r == d && digit % 2 != 0))
    requires !up ==> Below(r, lower, low) && (!Below(d, r + upper, high) || 2 * r < d || (2 * r == d && digit % 2 == 0))
    ensures Inside(if up then q + 1 else q, n, d, lower, upper, low, high)
    ensures Closest(if up then q + 1 else q, n, d, lower, upper, low, high)
  {
    assert q % 2 == digit % 2;
    hide *;
    if up {
      StopAbove(n, d, q, r, lower, upper, low, high);
      IncrementClosest(n, d, q, r, lower, upper, low, high);
    } else {
      StopBelow(n, d, q, r, lower, upper, low, high);
      StayClosest(n, d, q, r, lower, upper, low, high);
    }
  }

  // ----- Fixed precision -----

  /** Numbers that can be divided: a zero must not have more bigits than the denominator. */
  ghost predicate CanDivide(numerator: Bigint, denominator: Bigint)
    reads numerator, denominator
  {
    && numerator.Valid() && denominator.Valid() && denominator.Value() > 0
    && (numerator.Value() == 0 ==> numerator.NumBigits() <= denominator.NumBigits())
  }

  /**
   * Between two digits: i digits make the number done. If the first comparison misses that
   * numerator and denominator are equal, the first digit is 0, the second is 10, and nothing is left.
   */
  ghost predicate Digit(numerator: Bigint, denominator: Bigint, n0: nat, d: nat, i: nat, done: nat, missed: bool)
    reads numerator, denominator
  {
    && CanDivide(numerator, denominator) && denominator.Value() == d
    && if missed then
         numerator.Value() == (if i == 0 then d else if i == 1 then 10 * d else 0) && (i == 0 ==> Missed(numerator, denominator))
       else
         && numerator.Value() < 10 * d && Printed(n0, d, i, done, numerator.Value())
         && (numerator.exp <= denominator.exp || (numerator.Value() != d && 10 * numerator.Value() > d))
  }

  /** A digit and what is left of the numerator. */
  ghost predicate DigitLeft(n0: nat, d: nat, i: nat, done: nat, digit: nat, r: nat, missed: bool) {
    if missed then digit == (if i == 1 then 10 else 0) && r == (if i == 0 then d else 0)
    else digit <= 9 && r < d && n0 * Pow(10, i) == (10 * done + digit) * d + r
  }

  /** One digit of the fixed-precision loop. */
  method PrecisionDigit(numerator: Bigint, denominator: Bigint,
                        ghost n0: nat, ghost d: nat, ghost i: nat, ghost done: nat, ghost missed: bool)
      returns (digit: nat)
    requires numerator != denominator && Digit(numerator, denominator, n0, d, i, done, missed)
    modifies numerator
    ensures CanDivide(numerator, denominator) && denominator.Value() == d
    ensures DigitLeft(n0, d, i, done, digit, numerator.Value(), missed)
    ensures !missed ==> numerator.exp <= denominator.exp || 10 * numerator.Value() > d
  {
    hide Bigint.Value, Bigint.Valid, Bigint.NumBigits, Pow;
    ghost var n := numerator.Value();
    digit := numerator.DivmodAssign(denominator);
    DigitLeftIs(n0, d, i, done, n, digit, numerator.Value(), missed);
    hide Printed;
  }

  lemma DigitLeftIs(n0: nat, d: nat, i: nat, done: nat, n: nat, digit: nat, r: nat, missed: bool)
    requires n == digit * d + r && (if missed && i == 0 then digit == 0 else r < d)
    requires if missed then n == (if i == 0 then d else if i == 1 then 10 * d else 0)
             else n < 10 * d && Printed(n0, d, i, done, n)
    ensures DigitLeft(n0, d, i, done, digit, r, missed)
    ensures digit == 0 ==> r == n
  {
    if missed {
      if i > 0 {
        assert d * (digit - (if i == 1 then 10 else 0)) == 0 - r;
        SmallMultiple(d, digit - if i == 1 then 10 else 0);
      }
    } else {
      PrintedDigit(n0, d, i, done, n, digit, r);
      DigitBound(n, d, digit, r);
    }
  }

  method PrecisionScale(numerator: Bigint, denominator: Bigint,
                        ghost n0: nat, ghost d: nat, ghost i: nat, ghost done: nat, ghost digit: nat, ghost missed: bool)
    requires numerator != denominator && CanDivide(numerator, denominator) && denominator.Value() == d
    requires !missed ==> numerator.exp <= denominator.exp || 10 * numerator.Value() > d
    requires DigitLeft(n0, d, i, done, digit, numerator.Value(), missed)
    modifies numerator
    ensures Digit(numerator, denominator, n0, d, i + 1, 10 * done + digit, missed)
  {
    hide Bigint.Value, Bigint.Valid, Pow, Printed;
    ghost var v, size := numerator.Value(), numerator.NumBigits();
    if !missed {
      PrintedNext(n0, d, i, 10 * done + digit, v);
    }
    ZeroNumber(numerator);
    numerator.Multiply(10);
    ZeroNumber(numerator);
  }

  /** Zero is a single bigit. */
  lemma ZeroNumber(x: Bigint)
    requires x.Valid()
    ensures x.Value() == 0 ==> x.NumBigits() == x.exp + 1
  {
    if |x.bigits| > 1 {
      SeveralBigits(x.bigits, x.exp);
    }
  }

  /** Writes all digits but the last. */
  method LeadingDigits(numerator: Bigint, denominator: Bigint, n: nat, ghost missed: bool)
      returns (buf: seq<char>, ghost done: nat)
    requires n > 0 && numerator != denominator
    requires Digit(numerator, denominator, numerator.Value(), denominator.Value(), 0, 0, missed)
    modifies numerator
    ensures |buf| == n && (!missed ==> AllDigits(buf[..n - 1]) && DigitsVal(buf[..n - 1]) == done)
    ensures missed ==> buf[..n - 1] == MissedText(n - 1)
    ensures Digit(numerator, denominator, old(numerator.Value()), old(denominator.Value()), n - 1, done, missed)
  {
    buf := seq(n, _ => '0');
    ghost var n0, d := numerator.Value(), denominator.Value();
    done := 0;
    EmptyDigits();
    var i := 0;
    assert buf[..0] == [] == MissedText(0);
    hide *;
    while i < n - 1
      invariant 0 <= i <= n - 1 && |buf| == n
      invariant !missed ==> AllDigits(buf[..i]) && DigitsVal(buf[..i]) == done
      invariant missed ==> buf[..i] == MissedText(i)
      invariant Digit(numerator, denominator, n0, d, i, done, missed)
    {
      var digit := PrecisionDigit(numerator, denominator, n0, d, i, done, missed);
      DigitSmall(n0, d, i, done, digit, numerator.Value(), missed);
      if missed {
        WriteMissed(buf, i, digit);
      } else {
        WriteDigit(buf, i, digit);
      }
      buf := buf[i := DigitChar(digit)];
      PrecisionScale(numerator, denominator, n0, d, i, done, digit, missed);
      done := 10 * done + digit;
      i := i + 1;
    }
  }

  lemma DigitSmall(n0: nat, d: nat, i: nat, done: nat, digit: nat, r: nat, missed: bool)
    requires DigitLeft(n0, d, i, done, digit, r, missed)
    ensures digit <= 10 && (!missed ==> digit <= 9)
    ensures missed ==> digit == if i == 1 then 10 else 0
  {
    hide Pow;
  }

  /** What is printed for equal numbers that the first comparison misses: the second digit is a ten. */
  function MissedText(n: nat): seq<char> {
    seq(n, k => if k == 1 then DigitChar(10) else '0')
  }

  lemma WriteMissed(buf: seq<char>, i: nat, digit: nat)
    requires i < |buf| && buf[..i] == MissedText(i) && digit == if i == 1 then 10 else 0
    ensures buf[i := DigitChar(digit)][..i + 1] == MissedText(i + 1)
  {
    var w := buf[i := DigitChar(digit)];
    assert DigitChar(0) == '0';
    assert w[..i + 1] == buf[..i] + [DigitChar(digit)];
    assert MissedText(i + 1) == MissedText(i) + [DigitChar(digit)];
  }

  lemma WriteDigit(buf: seq<char>, i: nat, digit: nat)
    requires i < |buf| && AllDigits(buf[..i]) && digit <= 10
    ensures var w := buf[i := DigitChar(digit)];
            DigitsVal(w[..i + 1]) == 10 * DigitsVal(buf[..i]) + digit && (digit <= 9 ==> AllDigits(w[..i + 1]))
  {
    var w := buf[i := DigitChar(digit)];
    assert w[..i] == buf[..i];
    DigitsPrefix(w, i);
  }

  /** Moves the carry of an incremented nine to the left; the number denoted does not change. */
  method PropagateCarry(input: seq<char>) returns (buf: seq<char>)
    requires input != [] && AllDigits(input[..|input| - 1]) && CharDigit(input[|input| - 1]) == 10
    ensures |buf| == |input| && DigitsVal(buf) == DigitsVal(input)
    ensures AllDigits(buf[1..]) && (IsDigit(buf[0]) || (CharDigit(buf[0]) == 10 && forall j :: 0 < j < |buf| ==> buf[j] == '0'))
  {
    hide DigitsVal;
    buf := input;
    var i := |buf| - 1;
    while i > 0 && CharDigit(buf[i]) == 10
      invariant 0 <= i < |buf| == |input| && DigitsVal(buf) == DigitsVal(input)
      invariant AllDigits(buf[..i]) && AllDigits(buf[i + 1..]) && (IsDigit(buf[i]) || CharDigit(buf[i]) == 10)
      invariant CharDigit(buf[i]) == 10 ==> forall j :: i < j < |buf| ==> buf[j] == '0'
    {
      CarryOnce(buf, i);
      buf := buf[i := '0'];
      buf := buf[i - 1 := DigitChar(CharDigit(buf[i - 1]) + 1)];
      i := i - 1;
    }
    DigitsFromFirst(buf, i);
  }

  lemma DigitsFromFirst(buf: seq<char>, i: nat)
    requires i < |buf| && AllDigits(buf[..i]) && AllDigits(buf[i + 1..]) && (i > 0 ==> IsDigit(buf[i]))
    ensures AllDigits(buf[1..]) && (i > 0 ==> IsDigit(buf[0]))
  {
    if i > 0 {
      assert buf[0] == buf[..i][0];
      assert buf[1..] == buf[..i][1..] + [buf[i]] + buf[i + 1..];
    }
  }

  lemma CarryOnce(buf: seq<char>, i: nat)
    requires 0 < i < |buf| && CharDigit(buf[i]) == 10 && IsDigit(buf[i - 1])
    ensures DigitsVal(buf[i := '0'][i - 1 := DigitChar(CharDigit(buf[i - 1]) + 1)]) == DigitsVal(buf)
  {
    var w := buf[i := '0'][i - 1 := DigitChar(CharDigit(buf[i - 1]) + 1)];
    DigitsPrefix(buf, i);
    DigitsPrefix(buf, i - 1);
    DigitsPrefix(w, i);
    DigitsPrefix(w, i - 1);
    assert w[..i - 1] == buf[..i - 1];
    assert w == w[..i + 1] + w[i + 1..] && buf == buf[..i + 1] + buf[i + 1..] && w[i + 1..] == buf[i + 1..];
    hide *;
    DigitsConcat(w[..i + 1], w[i + 1..]);
    DigitsConcat(buf[..i + 1], buf[i + 1..]);
  }

  function OneAndZeros(k: nat): seq<char> {
    ['1'] + seq(k, _ => '0')
  }

  /**
   * The text and exponent for the integer p, in units of 10^unit, with m digits. If p has one
   * digit more it is 10^m: then fixed mode has a digit more as well, and otherwise the
   * exponent is larger by one.
   */
  ghost predicate PrintsAs(digits: seq<char>, exp: int, p: int, m: nat, unit: int, fixed: bool)
    requires m > 0
  {
    && AllDigits(digits)
    && if p < Pow(10, m) then exp == unit && |digits| == m && DigitsVal(digits) == p
       else
         && p == Pow(10, m) && digits == OneAndZeros(if fixed then m else m - 1)
         && exp == if fixed then unit else unit + 1
  }

  /**
   * The text is that of the integer nearest to the number in units of its n-th digit, ties to
   * even. For n <= 0 the unit is 10^(1-n) first digits.
   */
  ghost predicate RoundedText(digits: seq<char>, exp: int, n: int, n0: nat, d: nat, unit: int, fixed: bool) {
    exists p: int :: RoundedTo(p, n, n0, d) && PrintsAs(digits, exp, p, Max(n, 1), unit, fixed)
  }

  ghost predicate RoundedTo(p: int, n: int, n0: nat, d: nat) {
    if n >= 1 then NearestEven(p, n0 * Pow(10, n - 1), d) else NearestEven(p, n0, d * Pow(10, 1 - n))
  }

  /**
   * The given number of digits, which may be zero or negative. If numerator and denominator
   * are equal and the comparison misses that, two or more digits come out as no digits at all.
   */
  method Precision(numerator: Bigint, denominator: Bigint, n: int, fixed: bool, exp10: int)
      returns (digits: seq<char>, exp: int)
    requires numerator != denominator && CanDivide(numerator, denominator)
    requires 0 < numerator.Value() < 10 * denominator.Value()
    requires numerator.exp <= denominator.exp || 10 * numerator.Value() > denominator.Value()
    modifies numerator, denominator
    ensures if n >= 2 && old(Missed(numerator, denominator)) then digits == MissedText(n) && exp == exp10 - n + 1
            else RoundedText(digits, exp, n, old(numerator.Value()), old(denominator.Value()), exp10 - n + 1, fixed)
  {
    exp := exp10 - (n - 1);
    if n <= 0 {
      hide Bigint.Value, Bigint.Valid, Bigint.NumBigits;
      var digit := '0';
      if n == 0 {
        denominator.Multiply(10);
        var c := AddCompare(numerator, numerator, denominator);
        digit := if c > 0 then '1' else '0';
      }
      NoDigits(n, numerator.Value(), old(denominator.Value()), digit, exp, fixed);
      digits := [digit];
      return;
    }
    hide *;
    digits, exp := PositivePrecision(numerator, denominator, n, fixed, exp);
  }

  lemma NoDigits(n: int, n0: nat, d: nat, digit: char, unit: int, fixed: bool)
    requires n <= 0 && n0 < 10 * d
    requires digit == if n == 0 && 2 * n0 > 10 * d then '1' else '0'
    ensures RoundedText([digit], unit, n, n0, d, unit, fixed)
  {
    OneDigit(digit);
    SmallPowersOfTen();
    if n < 0 {
      PowMono(10, 2, 1 - n);
      MulLe(d, 100, Pow(10, 1 - n));
    }
    assert RoundedTo(DigitsVal([digit]), n, n0, d);
    assert PrintsAs([digit], unit, DigitsVal([digit]), 1, unit, fixed);
  }

  /** At least one digit: the last one is rounded, and a nine that rounds up carries. */
  method PositivePrecision(numerator: Bigint, denominator: Bigint, n: nat, fixed: bool, unit: int)
      returns (digits: seq<char>, exp: int)
    requires n > 0 && numerator != denominator && CanDivide(numerator, denominator)
    requires 0 < numerator.Value() < 10 * denominator.Value()
    requires numerator.exp <= denominator.exp || 10 * numerator.Value() > denominator.Value()
    modifies numerator
    ensures if n >= 2 && old(Missed(numerator, denominator)) then digits == MissedText(n) && exp == unit
            else RoundedText(digits, exp, n, old(numerator.Value()), old(denominator.Value()), unit, fixed)
  {
    ghost var n0, d, missed := numerator.Value(), denominator.Value(), Missed(numerator, denominator);
    FirstDigit(numerator, denominator);
    hide *;
    exp := unit;
    var buf, done := LeadingDigits(numerator, denominator, n, missed);
    var digit := PrecisionDigit(numerator, denominator, n0, d, n - 1, done, missed);
    DividedFacts(numerator, denominator);
    var result := AddCompare(numerator, numerator, denominator);
    if missed {
      LastMissed(buf, done, digit, d, numerator.Value(), result, unit, fixed);
    } else {
      LastExact(buf, done, digit, n0, d, numerator.Value(), result, unit, fixed);
    }
    IncrementIs(result, digit);
    if result > 0 || (result == 0 && digit % 2 != 0) {
      if digit == 9 {
        buf := buf[n - 1 := DigitChar(10)];
        buf := PropagateCarry(buf);
        CarriedDigits(buf, n0, d, unit, fixed);
        if CharDigit(buf[0]) == 10 {
          buf := buf[0 := '1'];
          if fixed {
            buf := buf + ['0'];
          } else {
            exp := exp + 1;
          }
        }
        return buf, exp;
      }
      digit := digit + 1;
    }
    buf := buf[n - 1 := DigitChar(digit)];
    return buf, exp;
  }

  lemma FirstDigit(numerator: Bigint, denominator: Bigint)
    requires CanDivide(numerator, denominator) && 0 < numerator.Value() < 10 * denominator.Value()
    requires numerator.exp <= denominator.exp || 10 * numerator.Value() > denominator.Value()
    ensures Digit(numerator, denominator, numerator.Value(), denominator.Value(), 0, 0, Missed(numerator, denominator))
    ensures Missed(numerator, denominator) ==> numerator.Value() == denominator.Value()
  {
    PrintedStart(numerator.Value(), denominator.Value());
    hide Bigint.Value, Bigint.Valid, Bigint.NumBigits, Printed;
  }

  lemma DividedFacts(numerator: Bigint, denominator: Bigint)
    requires CanDivide(numerator, denominator)
    ensures numerator.Valid() && denominator.Valid() && denominator.Value() > 0
    ensures numerator.Value() == 0 ==> numerator.NumBigits() <= denominator.NumBigits()
  {}

  predicate Increment(result: int, digit: nat) {
    result > 0 || (result == 0 && digit % 2 != 0)
  }

  lemma IncrementIs(result: int, digit: nat)
    ensures Increment(result, digit) <==> result > 0 || (result == 0 && digit % 2 != 0)
  {}

  /** The last digit is written; a ten that comes from rounding becomes the carry character. */
  lemma LastExact(buf: seq<char>, done: nat, digit: nat, n0: nat, d: nat, r: nat, result: int, unit: int, fixed: bool)
    requires buf != [] && DigitLeft(n0, d, |buf| - 1, done, digit, r, false) && result == Sign(r + r, d)
    requires AllDigits(buf[..|buf| - 1]) && DigitsVal(buf[..|buf| - 1]) == done
    ensures digit <= 9
    ensures var n, last := |buf|, if Increment(result, digit) then digit + 1 else digit;
            var w := buf[n - 1 := DigitChar(last)];
            && (last <= 9 ==> RoundedText(w, unit, n, n0, d, unit, fixed))
            && (last == 10 ==> AllDigits(w[..n - 1]) && CharDigit(w[n - 1]) == 10 && RoundedTo(DigitsVal(w), n, n0, d))
  {
    hide RoundedText, RoundedTo, AllDigits, DigitsVal, Pow, IsDigit, CharDigit;
    var last := if Increment(result, digit) then digit + 1 else digit;
    LastRounded(|buf|, 10 * done + digit, digit, n0, d, r, last);
    LastDigit(buf, done, last, n0, d, unit, fixed);
  }

  /** After a missed first comparison a single digit is still right, but a second one is a ten. */
  lemma LastMissed(buf: seq<char>, done: nat, digit: nat, d: nat, r: nat, result: int, unit: int, fixed: bool)
    requires buf != [] && d > 0 && DigitLeft(d, d, |buf| - 1, done, digit, r, true) && result == Sign(r + r, d)
    requires buf[..|buf| - 1] == MissedText(|buf| - 1)
    ensures digit <= 10 && digit != 9 && (Increment(result, digit) <==> |buf| == 1)
    ensures |buf| == 1 ==> digit == 0 && RoundedText(buf[0 := DigitChar(1)], unit, 1, d, d, unit, fixed)
    ensures |buf| > 1 ==> buf[|buf| - 1 := DigitChar(digit)] == MissedText(|buf|)
  {
    hide RoundedText, DigitsVal, Pow;
    if |buf| == 1 {
      assert buf[0 := DigitChar(1)] == ['1'];
      ExactOne(d, unit, fixed);
    } else {
      var w := buf[|buf| - 1 := DigitChar(digit)];
      WriteMissed(buf, |buf| - 1, digit);
      assert w[..|buf|] == w;
    }
  }

  /** A number equal to the unit of its only digit is printed as 1. */
  lemma ExactOne(d: nat, unit: int, fixed: bool)
    requires d > 0
    ensures RoundedText(['1'], unit, 1, d, d, unit, fixed)
  {
    OneDigit('1');
    SmallPowersOfTen();
    hide DigitsVal, Pow;
    assert RoundedTo(1, 1, d, d);
    assert PrintsAs(['1'], unit, 1, 1, unit, fixed);
  }

  /** Digits that denote the rounded number. */
  lemma PlainText(w: seq<char>, n0: nat, d: nat, unit: int, fixed: bool)
    requires w != [] && AllDigits(w) && RoundedTo(DigitsVal(w), |w|, n0, d)
    ensures RoundedText(w, unit, |w|, n0, d, unit, fixed)
  {
    DigitsBound(w);
    hide Pow, DigitsVal, RoundedTo;
    assert PrintsAs(w, unit, DigitsVal(w), |w|, unit, fixed);
  }

  /** The last digit is written; a ten becomes the carry character. */
  lemma LastDigit(buf: seq<char>, done: nat, last: nat, n0: nat, d: nat, unit: int, fixed: bool)
    requires buf != [] && AllDigits(buf[..|buf| - 1]) && DigitsVal(buf[..|buf| - 1]) == done && last <= 10
    requires RoundedTo(10 * done + last, |buf|, n0, d)
    ensures var n := |buf|; var w := buf[n - 1 := DigitChar(last)];
            && (last <= 9 ==> RoundedText(w, unit, n, n0, d, unit, fixed))
            && (last == 10 ==> AllDigits(w[..n - 1]) && CharDigit(w[n - 1]) == 10 && RoundedTo(DigitsVal(w), n, n0, d))
  {
    hide RoundedTo, DigitsVal, RoundedText, Pow;
    var n := |buf|;
    var w := buf[n - 1 := DigitChar(last)];
    WriteDigit(buf, n - 1, last);
    assert w[..n] == w && w[..n - 1] == buf[..n - 1];
    if last <= 9 {
      PlainText(w, n0, d, unit, fixed);
    }
  }

  lemma LastRounded(n: nat, q: nat, digit: nat, n0: nat, d: nat, r: nat, last: nat)
    requires n > 0 && r < d && n0 * Pow(10, n - 1) == q * d + r && (q - digit) % 10 == 0
    requires last == if Sign(r + r, d) > 0 || (Sign(r + r, d) == 0 && digit % 2 != 0) then digit + 1 else digit
    ensures RoundedTo(q - digit + last, n, n0, d)
  {
    SameParity(q, digit);
    hide NearestEven, Pow;
    var m := n0 * Pow(10, n - 1);
    RoundHalfEven(m, d, q, r);
  }

  lemma SameParity(q: nat, digit: nat)
    requires (q - digit) % 10 == 0
    ensures q % 2 == digit % 2
  {
    assert q == digit + 2 * (5 * ((q - digit) / 10));
  }

  /** After the carry: either all characters are digits, or the number is a power of ten. */
  lemma CarriedDigits(buf: seq<char>, n0: nat, d: nat, unit: int, fixed: bool)
    requires buf != [] && AllDigits(buf[1..]) && RoundedTo(DigitsVal(buf), |buf|, n0, d)
    requires IsDigit(buf[0]) || (CharDigit(buf[0]) == 10 && forall j :: 0 < j < |buf| ==> buf[j] == '0')
    ensures CharDigit(buf[0]) != 10 ==> RoundedText(buf, unit, |buf|, n0, d, unit, fixed)
    ensures CharDigit(buf[0]) == 10 ==>
              if fixed then RoundedText(buf[0 := '1'] + ['0'], unit, |buf|, n0, d, unit, fixed)
              else RoundedText(buf[0 := '1'], unit + 1, |buf|, n0, d, unit, fixed)
  {
    hide RoundedText, RoundedTo, DigitsVal, Pow, AllDigits, OneAndZeros;
    if CharDigit(buf[0]) == 10 {
      AllNines(buf);
      PowerText(buf[0 := '1'] + (if fixed then ['0'] else []), |buf|, n0, d, unit, fixed);
      assert !fixed ==> buf[0 := '1'] + [] == buf[0 := '1'];
    } else {
      AllOfThem(buf);
      PlainText(buf, n0, d, unit, fixed);
    }
  }

  lemma AllOfThem(buf: seq<char>)
    requires buf != [] && IsDigit(buf[0]) && AllDigits(buf[1..])
    ensures AllDigits(buf)
  {
    assert forall i :: 0 < i < |buf| ==> buf[i] == buf[1..][i - 1];
  }

  /** The text of a power of ten. */
  lemma PowerText(w: seq<char>, n: nat, n0: nat, d: nat, unit: int, fixed: bool)
    requires n > 0 && w == OneAndZeros(if fixed then n else n - 1) && AllDigits(w) && RoundedTo(Pow(10, n), n, n0, d)
    ensures RoundedText(w, if fixed then unit else unit + 1, n, n0, d, unit, fixed)
  {
    hide RoundedTo, Pow, DigitsVal, AllDigits, OneAndZeros;
    assert PrintsAs(w, if fixed then unit else unit + 1, Pow(10, n), n, unit, fixed);
  }

  lemma AllNines(buf: seq<char>)
    requires buf != [] && CharDigit(buf[0]) == 10 && forall j :: 0 < j < |buf| ==> buf[j] == '0'
    ensures buf[0 := '1'] == OneAndZeros(|buf| - 1) && buf[0 := '1'] + ['0'] == OneAndZeros(|buf|)
    ensures AllDigits(buf[0 := '1'] + ['0']) && AllDigits(buf[0 := '1'])
    ensures DigitsVal(buf) == Pow(10, |buf|)
  {
    hide DigitsVal;
    ZerosAfter(buf);
    assert Pow(10, |buf|) == 10 * Pow(10, |buf| - 1);
    hide Pow;
  }

  lemma ZerosAfter(buf: seq<char>)
    requires buf != [] && forall j :: 0 < j < |buf| ==> buf[j] == '0'
    ensures DigitsVal(buf) == CharDigit(buf[0]) * Pow(10, |buf| - 1)
  {
    hide DigitsVal, Pow;
    var m := |buf| - 1;
    ZeroDigits(m);
    assert buf == [buf[0]] + seq(m, _ => '0');
    OneDigit(buf[0]);
    DigitsConcat([buf[0]], seq(m, _ => '0'));
  }
}
