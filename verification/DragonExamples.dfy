/** Inputs on which format_dragon prints something unexpected. */
module DragonExamples {
  import opened Powers
  import opened Digits
  import opened DragonLoops
  import opened DragonMeaning
  import opened DragonInterval
  import opened DragonSetup
  import opened DragonPrinter
  import opened DragonPrecision
  import opened DragonInputs

  const DEFAULT_FLAGS := Flags(false, false, false)

  // ----- The lower end -----

  /** A power of ten above 2^e divides (2 f - 1) 2^(e-1), the lower end of an interval with equal margins. */
  predicate DividesLowerEnd(f: nat, e: nat, j: nat)
    requires f > 0 && e > 0
  {
    Pow(10, j) > Pow(2, e) && (2 * f - 1) * Pow(2, e - 1) % Pow(10, j) == 0
  }

  /** For equal margins the condition on the lower end is one of divisibility, on natural numbers. */
  lemma LowerEndDivides(f: nat, e: nat)
    requires f > 0 && e > 0
    ensures RoundingInterval(f, e, false).LowerEndBest() <==> exists j: nat :: DividesLowerEnd(f, e, j)
  {
    var i := RoundingInterval(f, e, false);
    forall j: nat ensures i.LowerEndBestAt(j) <==> DividesLowerEnd(f, e, j) {
      LowerEndDividesAt(f, e, j);
    }
    hide Interval.LowerEndBestAt, DividesLowerEnd, RoundingInterval;
    if i.LowerEndBest() {
      var j: nat :| i.LowerEndBestAt(j);
      assert DividesLowerEnd(f, e, j);
    }
  }

  lemma LowerEndDividesAt(f: nat, e: nat, j: nat)
    requires f > 0 && e > 0
    ensures RoundingInterval(f, e, false).LowerEndBestAt(j) <==> DividesLowerEnd(f, e, j)
  {
    hide *;
    var i, w := RoundingInterval(f, e, false), (2 * f - 1) * Pow(2, e - 1);
    LowerEndNat(f, e);
    EqualMargins(f, e);
    EqualMarginsAt(i, j);
    PowersReal(e, j);
    MultipleNat(w, Pow(10, j));
    DividesIs(f, e, j);
  }

  lemma DividesIs(f: nat, e: nat, j: nat)
    requires f > 0 && e > 0
    ensures Pow(10, j) > 0
    ensures DividesLowerEnd(f, e, j) <==> Pow(10, j) > Pow(2, e) && (2 * f - 1) * Pow(2, e - 1) % Pow(10, j) == 0
  {}

  lemma EqualMargins(f: nat, e: nat)
    ensures var i := RoundingInterval(f, e, false); i.lower == i.upper == RTwo(e - 1) > 0.0
  {}

  lemma EqualMarginsAt(i: Interval, j: nat)
    requires i.lower == i.upper
    ensures i.LowerEndBestAt(j) <==> IsMultipleOf(i.LowerEnd(), RTen(j)) && RTen(j) > 2.0 * i.lower
  {
    hide IsMultipleOf, RTen;
  }

  lemma PowersReal(e: nat, j: nat)
    requires e > 0
    ensures RTen(j) == Pow(10, j) as real && (RTen(j) > 2.0 * RTwo(e - 1) <==> Pow(10, j) > Pow(2, e)) && Pow(10, j) > 0
  {
    RTenPow(j);
    RTwoPow(e);
    RTwoSucc(e - 1);
    assert e - 1 + 1 == e;
    hide RTen, RTwo, Pow;
  }

  lemma LowerEndNat(f: nat, e: nat)
    requires f > 0 && e > 0
    ensures RoundingInterval(f, e, false).LowerEnd() == ((2 * f - 1) * Pow(2, e - 1)) as real
  {
    RTwoPow(e - 1);
    RTwoSucc(e - 1);
    assert e - 1 + 1 == e;
    hide RTwo, Pow;
    CastProduct(2 * f - 1, Pow(2, e - 1));
    LowerEndProduct(f as real, RTwo(e - 1));
  }

  lemma LowerEndProduct(f: real, t: real)
    ensures f * (2.0 * t) - t == (2.0 * f - 1.0) * t
  {}

  lemma MultipleNat(w: nat, p: nat)
    requires p > 0
    ensures IsMultipleOf(w as real, p as real) <==> w % p == 0
  {
    if w % p == 0 {
      CastProduct(w / p, p);
      assert w == (w / p) * p;
      assert w as real == Times(w / p, p as real);
    }
    if IsMultipleOf(w as real, p as real) {
      var q: int :| w as real == Times(q, p as real);
      CastProduct(q, p);
      assert w == p * q;
      MultipleMod(p, q);
    }
  }

  /**
   * A 113-bit significand whose interval is open. The remainder has exponent 1 and the lower
   * margin exponent 0 when they are equal, so the loop stops at the lower end, and the text
   * does not read back as the number. With fixup the estimate 44 gives the same.
   */
  lemma OddLowerEnd(digits: seq<char>, exp: int)
    ensures GoodEstimate(5192296858534827628530496704101563, 31, false, true, 43)
            && GoodEstimate(5192296858534827628530496704101563, 31, true, true, 44)
    ensures LowerEndMisjudged(5192296858534827628530496704101563, 31, false, 43)
            && LowerEndMisjudged(5192296858534827628530496704101563, 31, false, 44)
    ensures ShortestMode(digits, exp, 5192296858534827628530496704101563, 31, DEFAULT_FLAGS, 43)
            ==> Times(DigitsVal(digits), RTen(exp)) == Times(11150372599265311570767859941376, RTen(12))
                && !ReadsBack(digits, exp, 5192296858534827628530496704101563, 31, false)
  {
    PowersOfTwo();
    PowersOfTen();
    var i := RoundingInterval(5192296858534827628530496704101563, 31, false);
    assert i.LowerEnd() == Times(11150372599265311570767859941376, RTen(12));
    assert IsMultipleOf(i.LowerEnd(), RTen(12));
    assert i.LowerEndBestAt(12);
    hide RTen, RTwo, Times, Interval.LowerEndBestAt, IsMultipleOf, IsNumber, IsShortest, Interval.Best, DigitsVal;
  }

  /**
   * A 64-bit significand whose interval is closed. The lower end is 48 * 10^27, which is the
   * shortest text; but the remainder has exponent 0 and the lower margin exponent 1 when they
   * are equal, so the loop goes on and prints another number. With fixup the estimate 29 gives the same.
   */
  lemma EvenLowerEnd(digits: seq<char>, exp: int)
    ensures GoodEstimate(11175870895385742188, 32, false, true, 28) && GoodEstimate(11175870895385742188, 32, true, true, 29)
    ensures LowerEndMisjudged(11175870895385742188, 32, false, 28) && LowerEndMisjudged(11175870895385742188, 32, false, 29)
    ensures IsShortest("48", 27, 11175870895385742188, 32, false)
    ensures ShortestMode(digits, exp, 11175870895385742188, 32, DEFAULT_FLAGS, 28)
            ==> !IsShortest(digits, exp, 11175870895385742188, 32, false)
  {
    EvenEstimate();
    EvenInterval();
    hide *;
    LowerEndFact(11175870895385742188, 32, false, 28);
    LowerEndFact(11175870895385742188, 32, false, 29);
    ShortestFact(digits, exp, 11175870895385742188, 32, DEFAULT_FLAGS, 28);
  }

  lemma EvenEstimate()
    ensures GoodEstimate(11175870895385742188, 32, false, true, 28) && GoodEstimate(11175870895385742188, 32, true, true, 29)
    ensures Even(11175870895385742188)
    ensures !CountsLowerEnd(11175870895385742188, 32, false, 28) && !CountsLowerEnd(11175870895385742188, 32, false, 29)
    ensures DEFAULT_FLAGS.predecessorCloser == false
  {
    PowersOfTwo();
    PowersOfTen();
    hide RTen, RTwo;
  }

  lemma EvenInterval()
    ensures RoundingInterval(11175870895385742188, 32, false).LowerEndBest()
    ensures IsShortest("48", 27, 11175870895385742188, 32, false)
  {
    PowersOfTwo();
    PowersOfTen();
    var i := RoundingInterval(11175870895385742188, 32, false);
    assert i.LowerEnd() == Times(48, RTen(27));
    assert IsMultipleOf(i.LowerEnd(), RTen(27));
    assert i.LowerEndBestAt(27);
    FortyEight(i);
    DigitsAppend(['4'], '8');
    OneDigit('4');
    assert ['4'] + ['8'] == "48";
    hide RTen, RTwo, Times, Interval.LowerEndBestAt, Interval.Best, IsMultipleOf, DigitsVal;
  }

  lemma LowerEndFact(f: nat, e: int, closer: bool, x: int)
    requires CountsLowerEnd(f, e, closer, x) != Even(f) && RoundingInterval(f, e, closer).LowerEndBest()
    ensures LowerEndMisjudged(f, e, closer, x)
  {}

  lemma ShortestFact(digits: seq<char>, exp: int, f: nat, e: int, flags: Flags, x: int)
    requires LowerEndMisjudged(f, e, flags.predecessorCloser, x)
    ensures ShortestMode(digits, exp, f, e, flags, x) ==> !IsShortest(digits, exp, f, e, flags.predecessorCloser)
  {
    hide LowerEndMisjudged, IsShortest;
  }

  lemma FortyEight(i: Interval)
    requires i.v == 48000000000000000002147483648.0 && i.lower == i.upper == 2147483648.0 && i.high
    requires RTen(27) == 1000000000000000000000000000.0 && RTen(28) == 10000000000000000000000000000.0
    ensures i.Best(48, 27, true)
  {
    hide RTen;
    forall p: int | i.Has(p, 27, true) ensures p == 48 {
    }
    var next := 28;
    forall p: int ensures !i.Has(p, next, true) {
    }
  }

  // ----- A trailing zero -----

  /**
   * 2 * 10^43 with the exponent 43 known: the single digit 2 is the shortest text, but the loop prints
   * a zero behind it. Callers estimate 44 for this number, and then nothing goes wrong: see QuadEstimate.
   */
  lemma TrailingZero(digits: seq<char>, exp: int)
    ensures GoodEstimate(9313225746154785156250000000000000, 31, false, true, 43)
    ensures PrintsTrailingZero(9313225746154785156250000000000000, 31, false, false, 43)
    ensures IsShortest("2", 43, 9313225746154785156250000000000000, 31, false)
    ensures ShortestMode(digits, exp, 9313225746154785156250000000000000, 31, DEFAULT_FLAGS, 43)
            ==> !IsShortest(digits, exp, 9313225746154785156250000000000000, 31, false)
  {
    PowersOfTwo();
    PowersOfTen();
    assert Real(9313225746154785156250000000000000, 31) == Times(2, RTen(43));
    assert IsMultipleOf(Real(9313225746154785156250000000000000, 31), RTen(43));
    TwoExactly(RoundingInterval(9313225746154785156250000000000000, 31, false));
    OneDigit('2');
    hide RTen, RTwo, Times, Interval.Best, IsMultipleOf, DigitsVal;
  }

  lemma TwoExactly(i: Interval)
    requires i.v == 20000000000000000000000000000000000000000000.0 && i.lower == i.upper == 1073741824.0 && i.high
    requires RTen(43) == 10000000000000000000000000000000000000000000.0
    requires RTen(44) == 100000000000000000000000000000000000000000000.0
    ensures i.Best(2, 43, true)
  {
    hide RTen;
    forall p: int | i.Has(p, 43, true) ensures p == 2 {
    }
    var next := 44;
    forall p: int ensures !i.Has(p, next, true) {
    }
  }

  // ----- A power of ten -----

  /**
   * 10^31 with a 72-bit significand: with two digits or more the text contains a character that is no
   * digit. The formats with wider significands have 113 bits, and for those see QuadSignificand.
   */
  lemma MissedPower(digits: seq<char>, exp: int, n: int)
    requires n >= 2
    ensures GoodEstimate(4656612873077392578125, 31, false, false, 31)
    ensures MissesPower(4656612873077392578125, 31, false, false, 31)
    ensures PrecisionMode(digits, exp, n, 4656612873077392578125, 31, DEFAULT_FLAGS, 31)
            ==> digits == MissedText(n) && !IsRounded(digits, exp, n, false, 4656612873077392578125, 31, 31 - n + 1)
  {
    PowersOfTwo();
    PowersOfTen();
    NotRounded(digits, exp, n, false, 4656612873077392578125, 31, 31 - n + 1);
    hide RTen, RTwo, IsRounded;
  }

  lemma NotRounded(digits: seq<char>, exp: int, n: nat, fixed: bool, f: nat, e: int, unit: int)
    requires n >= 2
    ensures digits == MissedText(n) ==> !IsRounded(digits, exp, n, fixed, f, e, unit)
  {
    assert digits == MissedText(n) ==> digits[1] == DigitChar(10) && !IsDigit(digits[1]);
    hide RNearest, RTen, Real, Pow, DigitsVal;
  }

  // ----- A leading zero -----

  /**
   * The 64-bit significand nearest to 10^28: with 21 digits and more the text begins with a zero,
   * with fewer it is rounded up.
   */
  lemma LeadingZeroExample(digits: seq<char>, exp: int, n: nat)
    requires n > 0 && PrecisionMode(digits, exp, n, 9313225746154785156, 30, DEFAULT_FLAGS.(fixup := true), 28)
    ensures GoodEstimate(9313225746154785156, 30, true, false, 28)
    ensures digits != [] && (digits[0] == '0' <==> n >= 21)
  {
    EstimateOfExample();
    hide *;
    LeadingZero(digits, exp, n, 9313225746154785156, 30, DEFAULT_FLAGS.(fixup := true), 28);
    HalfBillion(29 - n);
  }

  lemma EstimateOfExample()
    ensures GoodEstimate(9313225746154785156, 30, true, false, 28) && FirstExponent(9313225746154785156, 30, true, 28) == 28
    ensures 2.0 * (RTen(28) - Real(9313225746154785156, 30)) == 536870912.0
    ensures !MissesPower(9313225746154785156, 30, false, true, 28)
    ensures DEFAULT_FLAGS.(fixup := true).fixup && !DEFAULT_FLAGS.(fixup := true).predecessorCloser
  {
    PowersOfTwo();
    PowersOfTen();
    hide RTen, RTwo;
  }

  lemma HalfBillion(k: int)
    ensures 536870912.0 > RTen(k) <==> k <= 8
  {
    RTenPow(8);
    assert Pow(10, 4) == 10000;
    PowAdd(10, 4, 4);
    RTenSucc(8);
    if k <= 8 {
      RTenMono(k, 8);
    } else {
      RTenMono(9, k);
    }
    hide RTen, Pow;
  }
}
