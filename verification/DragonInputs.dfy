/** The inputs that format_dragon gets from its caller, and what cannot go wrong for them. */
module DragonInputs {
  import opened Powers
  import opened BigintArithmetic
  import opened Bigints
  import opened DragonMeaning
  import opened DragonInterval
  import opened DragonSetup
  import opened DragonPrinter

  // ----- Constants -----

  lemma PowersOfTwo()
    ensures RTwo(29) == 536870912.0 && RTwo(30) == 1073741824.0 && RTwo(31) == 2147483648.0 && RTwo(32) == 4294967296.0
  {
    RTwoPow(29);
    assert Pow(2, 15) == 32768 && Pow(2, 14) == 16384;
    PowAdd(2, 15, 14);
    RTwoSucc(29);
    RTwoSucc(30);
    RTwoSucc(31);
    hide RTwo, Pow;
  }

  lemma PowersOfTen()
    ensures RTen(12) == 1000000000000.0
    ensures RTen(27) == 1000000000000000000000000000.0 && RTen(28) == 10000000000000000000000000000.0
    ensures RTen(29) == 100000000000000000000000000000.0 && RTen(30) == 1000000000000000000000000000000.0
    ensures RTen(31) == 10000000000000000000000000000000.0 && RTen(32) == 100000000000000000000000000000000.0
    ensures RTen(43) == 10000000000000000000000000000000000000000000.0
    ensures RTen(44) == 100000000000000000000000000000000000000000000.0
    ensures RTen(45) == 1000000000000000000000000000000000000000000000.0
  {
    assert Pow(10, 4) == 10000;
    RTenPow(4);
    hide RTen, Pow;
    RTenAdd(4, 4);
    RTenAdd(8, 4);
    RTenAdd(12, 12);
    RTenSucc(24);
    RTenSucc(25);
    RTenSucc(26);
    RTenSucc(27);
    RTenSucc(28);
    RTenSucc(29);
    RTenAdd(27, 4);
    RTenSucc(31);
    RTenAdd(31, 12);
    RTenSucc(43);
    RTenSucc(44);
  }

  // ----- The estimate -----

  /** The estimate for a significand of w bits: the decimal logarithm of its top bit, rounded up. */
  predicate CallerEstimate(e: int, w: nat, x: int) {
    RTen(x - 1) < RTwo(e + w - 1) <= RTen(x)
  }

  /** Such an estimate is good, in the shortest mode too: the upper end stays below 2 * 10^x. */
  lemma CallerEstimateIsGood(f: nat, e: int, w: nat, shortest: bool, x: int)
    requires w > 0 && Pow(2, w - 1) <= f < Pow(2, w) && CallerEstimate(e, w, x)
    ensures GoodEstimate(f, e, true, shortest, x)
  {
    SignificandBounds(f, e, w);
    RTwoSucc(e + w - 1);
    RTenSucc(x);
    assert e + w - 1 + 1 == e + w;
    hide Real, RTen, RTwo, UpperMargin;
  }

  lemma SignificandBounds(f: nat, e: int, w: nat)
    requires w > 0 && Pow(2, w - 1) <= f < Pow(2, w)
    ensures RTwo(e + w - 1) <= Real(f, e) < Real(f, e) + UpperMargin(e) < RTwo(e + w)
  {
    hide *;
    TopPower(e, w - 1);
    TopPower(e, w);
    MarginSizes(e, false);
    RealIs(f, e);
    CastOrder(f, Pow(2, w - 1), Pow(2, w));
    assert e + (w - 1) == e + w - 1;
    BoundsBetween(Real(f, e), RTwo(e + w - 1), RTwo(e + w),
                  f as real, Pow(2, w - 1) as real, Pow(2, w) as real, RTwo(e), UpperMargin(e));
  }

  lemma BoundsBetween(v: real, from: real, to: real, f: real, low: real, high: real, t: real, u: real)
    requires v == f * t && from == low * t && to == high * t
    requires t == 2.0 * u && u > 0.0 && low <= f && f + 1.0 <= high
    ensures from <= v < v + u < to
  {
    BoundsArithmetic(f, low, high, t, u);
  }

  lemma RealIs(f: nat, e: int)
    ensures Real(f, e) == f as real * RTwo(e)
  {}

  lemma TopPower(e: int, k: nat)
    ensures RTwo(e + k) == Pow(2, k) as real * RTwo(e)
  {
    hide *;
    RTwoAdd(k, e);
    RTwoPow(k);
    assert k + e == e + k;
    SameProduct(RTwo(e + k), RTwo(k), Pow(2, k) as real, RTwo(e));
  }

  lemma CastOrder(f: nat, low: nat, high: nat)
    requires low <= f < high
    ensures low as real <= f as real && f as real + 1.0 <= high as real
  {}

  lemma BoundsArithmetic(f: real, low: real, high: real, t: real, u: real)
    requires t == 2.0 * u && u > 0.0 && low <= f && f + 1.0 <= high
    ensures low * t <= f * t && f * t + u < high * t
  {
    RCancelLe(t, low, f);
    RCancelLe(t, f + 1.0, high);
    assert t * (f + 1.0) == f * t + t;
    assert t * low == low * t && t * f == f * t && t * high == high * t;
  }

  // ----- 64-bit significands -----

  /**
   * For a significand below 2^64 with a good estimate, no power of ten is missed, no trailing
   * zero is printed, and the lower end is misjudged only for even significands: the text
   * always reads back as the number.
   */
  lemma NarrowSignificand(f: nat, e: int, closer: bool, fixup: bool, shortest: bool, x: int)
    requires 0 < f < 0x1_0000_0000_0000_0000 && GoodEstimate(f, e, fixup, shortest, x)
    ensures !MissesPower(f, e, closer, fixup, x) && !PrintsTrailingZero(f, e, closer, fixup, x)
    ensures LowerEndMisjudged(f, e, closer, x) ==> Even(f) && 0 <= e && 0 <= x && x / 32 < e / 32
  {
    if e >= 0 && x >= 0 {
      hide Real, RTen, GoodEstimate, FirstExponent, Interval.LowerEndBest, IsMultipleOf;
      NarrowPower(f, e, FirstExponent(f, e, fixup, x));
      NarrowExponent(f, e, x, fixup, shortest);
    }
  }

  /** A power of ten with a 64-bit significand has a small exponent. */
  lemma NarrowPower(f: nat, e: nat, y: int)
    requires 0 < f < 0x1_0000_0000_0000_0000
    ensures Real(f, e) == RTen(y) ==> e <= 27
  {
    if y < 0 {
      NoSmallPower(f, e, y);
    } else if Real(f, e) == RTen(y) {
      IntegerPower(f, e, y);
      hide *;
      IntegerPowerBound(f, e, y);
    }
  }

  lemma NoSmallPower(f: nat, e: nat, y: int)
    requires f > 0 && y < 0
    ensures Real(f, e) != RTen(y)
  {
    AtLeastPower(f, e, false);
    RTwoMono(0, e);
    RTwoZero();
    RTenMono(y, 0);
    RTenZero();
    hide Real, RTwo, RTen;
  }

  lemma IntegerPower(f: nat, e: nat, y: nat)
    requires Real(f, e) == RTen(y)
    ensures f * Pow(2, e) == Pow(10, y)
  {
    RTwoPow(e);
    RTenPow(y);
    hide RTen, RTwo, Pow;
    CastProduct(f, Pow(2, e));
  }

  lemma IntegerPowerBound(f: nat, e: nat, y: nat)
    requires 0 < f < 0x1_0000_0000_0000_0000 && f * Pow(2, e) == Pow(10, y)
    ensures e <= 27
  {
    hide *;
    PowerFactor(f, e, y);
    if y > 27 {
      PowMono(5, 28, y);
      TwentyEightFives();
    }
  }

  /** A multiple of 2^e that is 10^y: e is at most y, and the factor is a multiple of 5^y. */
  lemma PowerFactor(f: nat, e: nat, y: nat)
    requires f * Pow(2, e) == Pow(10, y)
    ensures e <= y && f >= Pow(5, y)
  {
    PowProduct(5, 2, y);
    if e > y {
      PowAdd(2, e - y - 1, y + 1);
      assert Pow(2, y + 1) == 2 * Pow(2, y);
      assert e - y - 1 + (y + 1) == e;
      OddPower(y);
      hide Pow;
      EvenMultiple(f, Pow(2, e - y - 1), Pow(2, y), Pow(5, y));
    } else {
      PowAdd(2, y - e, e);
      assert y - e + e == y;
      hide Pow;
      FactorOut(f, Pow(2, e), Pow(5, y), Pow(2, y - e));
    }
  }

  lemma FactorOut(f: nat, p: nat, five: nat, rest: nat)
    requires p > 0 && rest > 0 && f * p == five * (rest * p)
    ensures f >= five
  {
    assert f * p == p * f && five * (rest * p) == p * (five * rest);
    CancelNat(p, f, five * rest);
    MulLe(five, 1, rest);
  }

  lemma TwentyEightFives()
    ensures Pow(5, 28) > 0x1_0000_0000_0000_0000
  {
    assert Pow(5, 7) == 78125;
    hide Pow;
    PowAdd(5, 7, 7);
    PowAdd(5, 14, 14);
    assert Pow(5, 14) == 6103515625;
  }

  /** The exponents of a 64-bit significand do not cross a multiple of 32 in the forbidden way. */
  lemma NarrowExponent(f: nat, e: nat, x: nat, fixup: bool, shortest: bool)
    requires 0 < f < 0x1_0000_0000_0000_0000 && GoodEstimate(f, e, fixup, shortest, x)
    ensures x / 32 <= e / 32
  {
    var a := e / 32;
    RTenMono(x - 1, x);
    assert RTen(x - 1) <= Real(f, e);
    hide *;
    NarrowValue(f, e);
    if x / 32 > a {
      NextBlock(e, x);
      RTenMono(32 * a + 31, x - 1);
      RTwoMono(e + 64, 32 * a + 95);
      TenOverTwo(a);
      assert false;
    }
  }

  lemma NextBlock(e: nat, x: nat)
    requires x / 32 > e / 32
    ensures 32 * (e / 32) + 31 <= x - 1 && e + 64 <= 32 * (e / 32) + 95
  {}

  lemma NarrowValue(f: nat, e: nat)
    requires f < 0x1_0000_0000_0000_0000
    ensures Real(f, e) < RTwo(e + 64)
  {
    RTwoAdd(64, e);
    TwoTo64();
    hide RTwo, Pow;
    RCancelLe(RTwo(e), f as real, RTwo(64));
  }

  lemma TwoTo64()
    ensures RTwo(64) == 0x1_0000_0000_0000_0000 as real
  {
    RTwoPow(64);
    hide RTwo, Pow;
    TwoTo32();
    PowAdd(2, 32, 32);
    assert Pow(2, 64) == 0x1_0000_0000_0000_0000;
  }

  lemma TwoTo32()
    ensures Pow(2, 31) == 0x8000_0000 && Pow(2, 32) == 0x1_0000_0000
  {
    assert Pow(2, 15) == 32768 && Pow(2, 1) == 2;
    hide Pow;
    PowAdd(2, 15, 15);
    PowAdd(2, 15, 1);
    assert Pow(2, 30) == 1073741824 && Pow(2, 16) == 65536;
    PowAdd(2, 30, 1);
    PowAdd(2, 16, 16);
  }

  lemma TenOverTwo(a: nat)
    ensures RTen(32 * a + 31) > RTwo(32 * a + 95)
  {
    hide *;
    RTenAdd(32 * a, 31);
    RTwoAdd(32 * a, 95);
    TenAboveTwo(32 * a);
    ThirtyOneTens();
    ProductOrder(RTwo(32 * a), RTen(32 * a), RTwo(95), RTen(31));
  }

  lemma ProductOrder(a: real, b: real, c: real, d: real)
    requires 0.0 < a <= b && 0.0 < c < d
    ensures a * c < b * d
  {
    var m := b * c;
    RCancelLe(c, a, b);
    RCancelLe(b, c, d);
    assert c * a == a * c && c * b == m;
    assert a * c <= m && m < b * d;
  }

  lemma ThirtyOneTens()
    ensures RTen(31) > RTwo(95)
  {
    RTwoPow(95);
    PowersOfTen();
    hide RTen, RTwo, Pow;
    TwoTo95();
  }

  lemma TwoTo95()
    ensures Pow(2, 95) == 39614081257132168796771975168
  {
    hide Pow;
    TwoTo32();
    PowAdd(2, 32, 32);
    PowAdd(2, 64, 31);
  }

  // ----- 113-bit significands -----

  /** No power of ten is missed for a normalised 113-bit significand with a good estimate. */
  lemma QuadSignificand(f: nat, e: int, closer: bool, fixup: bool, shortest: bool, x: int)
    requires Pow(2, 112) <= f < Pow(2, 113) && GoodEstimate(f, e, fixup, shortest, x)
    ensures !MissesPower(f, e, closer, fixup, x)
  {
    var y := FirstExponent(f, e, fixup, x);
    QuadBounds(f, e);
    if MissesPower(f, e, closer, fixup, x) {
      MissFacts(f, e, closer, fixup, x);
      hide *;
      QuadPower(f, e, y);
      RTenMono(y, 31);
      PowersOfTen();
      RTwoMono(112, e + 112);
      LargePowersOfTwo();
      assert false;
    }
  }

  /** The exponents of a missed power, if the significand is not too wide. */
  lemma MissFacts(f: nat, e: int, closer: bool, fixup: bool, x: int)
    requires MissesPower(f, e, closer, fixup, x)
    ensures e >= 0 && FirstExponent(f, e, fixup, x) <= x && Real(f, e) == RTen(FirstExponent(f, e, fixup, x))
    ensures e <= 48 ==> x <= 31
  {
    hide Real, RTen;
  }

  lemma QuadBounds(f: nat, e: int)
    requires Pow(2, 112) <= f < Pow(2, 113)
    ensures f > 0 && RTwo(e + 112) <= Real(f, e) < RTwo(e + 113)
  {
    hide *;
    SignificandBounds(f, e, 113);
    assert e + 113 - 1 == e + 112;
  }

  /** A power of ten with such a significand has small exponents. */
  lemma QuadPower(f: nat, e: nat, y: int)
    requires Pow(2, 112) <= f < Pow(2, 113) && Real(f, e) == RTen(y)
    ensures e <= y <= 48
  {
    hide Real, RTen, Pow;
    if y < 0 {
      NoSmallPower(f, e, y);
    } else {
      IntegerPower(f, e, y);
      PowerFactor(f, e, y);
      if y > 48 {
        PowMono(5, 49, y);
        FortyNineFives();
      }
    }
  }

  lemma FortyNineFives()
    ensures Pow(5, 49) > Pow(2, 113)
  {
    FivesTo49();
    TwosTo113();
    hide Pow;
  }

  lemma FivesTo49()
    ensures Pow(5, 49) == 17763568394002504646778106689453125
  {
    assert Pow(5, 7) == 78125;
    hide Pow;
    PowAdd(5, 7, 7);
    assert Pow(5, 14) == 6103515625;
    PowAdd(5, 14, 7);
    assert Pow(5, 21) == 476837158203125;
    PowAdd(5, 21, 21);
    assert Pow(5, 42) == 227373675443232059478759765625;
    PowAdd(5, 42, 7);
    assert Pow(5, 49) == 17763568394002504646778106689453125;
  }

  lemma TwosTo113()
    ensures Pow(2, 112) == 5192296858534827628530496329220096 && Pow(2, 113) == 10384593717069655257060992658440192
  {
    assert Pow(2, 16) == 65536 && Pow(2, 1) == 2;
    hide Pow;
    PowAdd(2, 16, 16);
    assert Pow(2, 32) == 4294967296;
    PowAdd(2, 32, 32);
    assert Pow(2, 64) == 18446744073709551616;
    PowAdd(2, 64, 32);
    assert Pow(2, 96) == 79228162514264337593543950336;
    PowAdd(2, 96, 16);
    assert Pow(2, 112) == 5192296858534827628530496329220096;
    PowAdd(2, 112, 1);
    assert Pow(2, 113) == 10384593717069655257060992658440192;
  }

  lemma LargePowersOfTwo()
    ensures RTwo(112) == 5192296858534827628530496329220096.0
    ensures RTwo(143) == 11150372599265311570767859136324180752990208.0
    ensures RTwo(144) == 22300745198530623141535718272648361505980416.0
  {
    TwosTo113();
    RTwoPow(112);
    PowersOfTwo();
    hide RTwo, Pow;
    RTwoAdd(112, 31);
    RTwoSucc(143);
  }

  /**
   * With the estimate of the caller, no trailing zero is printed for a normalised 113-bit
   * significand either. Its predecessor is closer for powers of two only.
   */
  lemma QuadEstimate(f: nat, e: int, closer: bool, x: int)
    requires Pow(2, 112) <= f < Pow(2, 113) && (closer ==> f == Pow(2, 112)) && CallerEstimate(e, 113, x)
    ensures !PrintsTrailingZero(f, e, closer, true, x)
  {
    QuadBounds(f, e);
    if PrintsTrailingZero(f, e, closer, true, x) {
      TrailingFacts(f, e, closer, x);
      hide *;
      OnlyOnce(f, e, x);
      QuadPower(f, e, x);
      NotBetween(f, e, closer, x);
      assert false;
    }
  }

  lemma TrailingFacts(f: nat, e: int, closer: bool, x: int)
    requires PrintsTrailingZero(f, e, closer, true, x)
    ensures e >= 0 && x >= 32 && IsMultipleOf(Real(f, e), RTen(x))
    ensures e <= 48 && !closer ==> e == 31
    ensures CallerEstimate(e, 113, x) ==> RTwo(e + 112) <= RTen(x)
  {
    hide Real, RTen, RTwo, IsMultipleOf, FirstExponent;
  }

  lemma NotBetween(f: nat, e: nat, closer: bool, x: nat)
    requires closer ==> f == Pow(2, 112)
    requires !closer ==> e == 31
    requires x > 0 && RTwo(e + 112) <= Real(f, e) < RTwo(e + 113)
    ensures Real(f, e) != RTen(x)
  {
    if closer {
      PowerOfTwoOnly(e, x);
    } else {
      LargePowersOfTwo();
      PowersOfTen();
      hide *;
      if x <= 43 {
        RTenMono(x, 43);
      } else {
        RTenMono(44, x);
      }
    }
  }

  /** A multiple of 10^x below 2 * 10^x is that power. */
  lemma OnlyOnce(f: nat, e: int, x: int)
    requires f > 0 && IsMultipleOf(Real(f, e), RTen(x)) && Real(f, e) < RTwo(e + 113) && RTwo(e + 112) <= RTen(x)
    ensures Real(f, e) == RTen(x)
  {
    var c: int :| Real(f, e) == Times(c, RTen(x));
    AtLeastPower(f, e, false);
    RTwoSucc(e + 112);
    assert e + 112 + 1 == e + 113;
    PointSteps(c, RTen(x));
    hide Real, RTen, RTwo, Times;
  }

  lemma PointSteps(c: int, t: real)
    requires t > 0.0
    ensures c <= 0 ==> Times(c, t) <= 0.0
    ensures c == 1 ==> Times(c, t) == t
    ensures c >= 2 ==> Times(c, t) >= 2.0 * t
  {
    RCancelLe(t, c as real, 0.0);
    RCancelLe(t, 2.0, c as real);
    assert Times(c, t) == t * c as real && t * 0.0 == 0.0 && t * 2.0 == 2.0 * t;
  }

  lemma PowerOfTwoOnly(e: nat, x: nat)
    requires x > 0
    ensures Real(Pow(2, 112), e) != RTen(x)
  {
    hide *;
    if Real(Pow(2, 112), e) == RTen(x) {
      IntegerPower(Pow(2, 112), e, x);
      PowAdd(2, 112, e);
      PowersDifferNat(x, 112 + e);
      assert false;
    }
  }
}
