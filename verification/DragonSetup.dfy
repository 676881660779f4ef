/** The numbers format_dragon starts from, and the correction of the exponent estimate. */
module DragonSetup {
  import opened Powers
  import opened DragonArithmetic
  import opened BigintArithmetic
  import opened Bigints
  import opened DragonLoops
  import opened DragonMeaning

  /** The value f * 2^e. */
  function Real(f: nat, e: int): real {
    f as real * RTwo(e)
  }

  /** One extra bit, or two when the lower neighbour is closer, makes the margins integers. */
  function Shift(closer: bool): nat {
    if closer then 2 else 1
  }

  /** The distances to the interval ends below and above. */
  function LowerMargin(e: int, closer: bool): real {
    RTwo(e - Shift(closer))
  }

  function UpperMargin(e: int): real {
    RTwo(e - 1)
  }

  /**
   * The margins are half the distances to the neighbours: one significand more and one less; or,
   * where the predecessor is closer, the largest significand of the next smaller exponent.
   */
  lemma HalfGaps(f: nat, e: int)
    requires f > 0
    ensures Real(f + 1, e) - Real(f, e) == 2.0 * UpperMargin(e)
    ensures Real(f, e) - Real(f - 1, e) == 2.0 * LowerMargin(e, false)
    ensures Real(f, e) - Real(2 * f - 1, e - 1) == 2.0 * LowerMargin(e, true)
  {
    hide *;
    RTwoSucc(e - 1);
    RTwoSucc(e - 2);
    assert e - 1 + 1 == e && e - 2 + 1 == e - 1;
    ValueIs(f, e);
    ValueIs(f + 1, e);
    ValueIs(f - 1, e);
    ValueIs(2 * f - 1, e - 1);
    MarginsAre(e);
    GapArithmetic(f as real, RTwo(e), RTwo(e - 1));
    assert (f + 1) as real == f as real + 1.0 && (f - 1) as real == f as real - 1.0;
    assert (2 * f - 1) as real == 2.0 * f as real - 1.0;
  }

  lemma ValueIs(f: nat, e: int)
    ensures Real(f, e) == f as real * RTwo(e)
  {}

  lemma MarginsAre(e: int)
    ensures UpperMargin(e) == LowerMargin(e, false) == RTwo(e - 1) && LowerMargin(e, true) == RTwo(e - 2)
  {}

  lemma GapArithmetic(f: real, t: real, h: real)
    requires t == 2.0 * h
    ensures (f + 1.0) * t - f * t == t && f * t - (f - 1.0) * t == t && f * t - (2.0 * f - 1.0) * h == h
  {}

  function Term(a: nat, i: nat, j: nat): nat {
    a * (Pow(2, i) * Pow(10, j))
  }

  ghost predicate IsTerm(n: nat, a: nat, i: nat, j: nat) {
    n as real == a as real * (RTwo(i) * RTen(j))
  }

  lemma TermReal(a: nat, i: nat, j: nat)
    ensures IsTerm(Term(a, i, j), a, i, j)
  {
    RTwoPow(i);
    RTenPow(j);
    hide Pow, RTwo, RTen;
    CastProduct(Pow(2, i), Pow(10, j));
    CastProduct(a, Pow(2, i) * Pow(10, j));
  }

  /** (a 2^i 10^j) / (2^k 10^l) is a 2^(i-k) in units of 10^(l-j). */
  lemma TermsScaled(a: nat, i: nat, j: nat, k: nat, l: nat)
    ensures Scaled(Term(a, i, j), Term(1, k, l), l - j, a as real * RTwo(i - k))
  {
    hide *;
    TermReal(a, i, j);
    TermReal(1, k, l);
    TermRatio(Term(a, i, j), Term(1, k, l), a, i, j, k, l);
  }

  lemma TermRatio(n: nat, d: nat, a: nat, i: nat, j: nat, k: nat, l: nat)
    requires IsTerm(n, a, i, j) && IsTerm(d, 1, k, l)
    ensures Scaled(n, d, l - j, a as real * RTwo(i - k))
  {
    RTwoAdd(i - k, k);
    RTenAdd(j, l - j);
    hide RTwo, RTen;
    ScaledIs(n, d, a as real, RTwo(i), RTwo(i - k), RTwo(k), RTen(j), l - j, RTen(l));
  }

  lemma ScaledIs(n: nat, d: nat, a: real, i: real, t: real, k: real, j: real, x: int, l: real)
    requires n as real == a * (i * j) && d as real == 1.0 * (k * l) && i == t * k
    requires l == j * RTen(x) && k > 0.0 && l > 0.0
    ensures Scaled(n, d, x, a * t)
  {
    hide RTen;
    ScaledArithmetic(a, t, k, j, RTen(x), l);
    PositiveReal(k, l);
  }

  lemma PositiveReal(a: real, b: real)
    requires a > 0.0 && b > 0.0
    ensures a * b > 0.0
  {}

  lemma ScaledArithmetic(a: real, t: real, k: real, j: real, x: real, l: real)
    requires l == j * x
    ensures (a * ((t * k) * j)) * x == (a * t) * (k * l)
  {
    var m := (t * k) * j;
    RMulAssoc(a, m, x);
    RMulAssoc(t * k, j, x);
    RMulAssoc(t, k, l);
    RMulAssoc(a, t, k * l);
  }

  /**
   * numerator / denominator and the margins over the denominator are the value and its
   * margins in units of 10^x; the exponents are those the initial shifts leave.
   */
  ghost predicate Prepared(numerator: Bigint, denominator: Bigint, lower: Bigint, upper: Bigint,
                           f: nat, e: int, closer: bool, x: int)
    reads numerator, denominator, lower, upper
  {
    && Separate(numerator, denominator, lower, upper)
    && numerator.Valid() && denominator.Valid() && lower.Valid() && upper.Valid()
    && Scaled(numerator.Value(), denominator.Value(), x, Real(f, e))
    && Scaled(lower.Value(), denominator.Value(), x, LowerMargin(e, closer))
    && Scaled(upper.Value(), denominator.Value(), x, UpperMargin(e))
  }

  /**
   * The exponents of the numbers, which the correction of the estimate does not change. For
   * e >= 0 the lower margin is 2^e, times the factor by which the numbers have been scaled.
   */
  ghost predicate Exponents(numerator: Bigint, denominator: Bigint, lower: Bigint, e: int, closer: bool, x: int, factor: nat)
    reads numerator, denominator, lower
  {
    if e < 0 then numerator.exp <= denominator.exp && numerator.exp == lower.exp
    else
      && x >= 0 && numerator.exp == (e + Shift(closer)) / 32 && denominator.exp == x / 32 && lower.exp == e / 32
      && lower.Value() == factor * Pow(2, e)
  }

  method Setup(f: nat, e: int, closer: bool, x: int)
      returns (numerator: Bigint, denominator: Bigint, lower: Bigint, upper: Bigint)
    requires 0 < f < 0x1_0000_0000_0000_0000_0000_0000_0000_0000 && -0x4000_0000 < x < 0x4000_0000
    requires if e >= 0 then x >= 0 else -x <= -e
    ensures fresh(numerator) && fresh(denominator) && fresh(lower) && fresh(upper)
    ensures Prepared(numerator, denominator, lower, upper, f, e, closer, x)
    ensures Exponents(numerator, denominator, lower, e, closer, x, 1)
  {
    if e >= 0 {
      PowerTerm(e);
    }
    hide Bigint.Value, Bigint.Valid, Term, Scaled, Real, RTwo, Pow;
    numerator := new Bigint();
    denominator := new Bigint();
    lower := new Bigint();
    var store := new Bigint();
    upper := if closer then store else lower;
    if e >= 0 {
      SetupLarge(numerator, denominator, lower, store, f, e, closer, x);
      LargeScaled(f, e, closer, x);
    } else if x < 0 {
      SetupSmall(numerator, denominator, lower, store, f, e, closer, x);
      SmallScaled(f, e, closer, x);
    } else {
      SetupMiddle(numerator, denominator, lower, store, f, e, closer, x);
      MiddleScaled(f, e, closer, x);
    }
  }

  lemma PowerTerm(e: nat)
    ensures Term(1, e, 0) == 1 * Pow(2, e)
  {
    ShiftedTerm(1, e);
  }

  /** What the operations on the numbers give is a term. */
  lemma ShiftedTerm(a: nat, i: nat)
    ensures a * Pow(2, i) == Term(a, i, 0)
  {
    assert Pow(10, 0) == 1;
    hide Pow;
  }

  lemma PowersTerm(i: nat, j: nat)
    ensures Pow(10, j) * Pow(2, i) == Term(1, i, j)
  {
    hide Pow;
  }

  lemma ProductTerm(f: nat, i: nat, j: nat)
    ensures (Pow(10, j) * f) * Pow(2, i) == Term(f, i, j)
  {
    Reorder(Pow(10, j), f, Pow(2, i));
    hide Pow;
  }

  lemma SmallTerms()
    ensures Term(1, 0, 0) == 1 && Term(1, 1, 0) == 2
  {
    assert Pow(10, 0) == Pow(2, 0) == 1 && Pow(2, 1) == 2;
  }

  /** e >= 0: the power of two goes into the numerator, the power of ten into the denominator. */
  method SetupLarge(numerator: Bigint, denominator: Bigint, lower: Bigint, store: Bigint, f: nat, e: nat, closer: bool, x: nat)
    requires x < 0x4000_0000
    requires Separate(numerator, denominator, lower, store) && lower != store
    modifies numerator, denominator, lower, store
    ensures numerator.Valid() && numerator.Value() == Term(f, e + Shift(closer), 0) && numerator.exp == (e + Shift(closer)) / 32
    ensures denominator.Valid() && denominator.Value() == Term(1, Shift(closer), x) && denominator.exp == x / 32
    ensures lower.Valid() && lower.Value() == Term(1, e, 0) && lower.exp == e / 32
    ensures closer ==> store.Valid() && store.Value() == Term(1, e + 1, 0)
  {
    hide Bigint.Value, Bigint.Valid, Pow, Term;
    var s := Shift(closer);
    ShiftedTerm(f, e + s);
    ShiftedTerm(1, e);
    ShiftedTerm(1, e + 1);
    PowersTerm(s, x);
    numerator.Assign(f);
    numerator.ShiftLeft(e + s);
    lower.Assign(1);
    lower.ShiftLeft(e);
    if closer {
      store.Assign(1);
      store.ShiftLeft(e + 1);
    }
    denominator.AssignPow10(x);
    denominator.ShiftLeft(s);
  }

  lemma LargeScaled(f: nat, e: nat, closer: bool, x: nat)
    ensures var s, d := Shift(closer), Term(1, Shift(closer), x);
            && Scaled(Term(f, e + s, 0), d, x, Real(f, e)) && Scaled(Term(1, e, 0), d, x, LowerMargin(e, closer))
            && Scaled(Term(1, if closer then e + 1 else e, 0), d, x, UpperMargin(e))
  {
    var s := Shift(closer);
    hide Term, RTwo, Scaled;
    TermsScaled(f, e + s, 0, s, x);
    TermsScaled(1, e, 0, s, x);
    TermsScaled(1, if closer then e + 1 else e, 0, s, x);
  }

  /** x < 0: the power of ten goes into the numerator, the power of two into the denominator. */
  method SetupSmall(numerator: Bigint, denominator: Bigint, lower: Bigint, store: Bigint, f: nat, e: int, closer: bool, x: int)
    requires 0 < f < 0x1_0000_0000_0000_0000_0000_0000_0000_0000 && -0x4000_0000 < x < 0 && e < 0
    requires Separate(numerator, denominator, lower, store) && lower != store
    modifies numerator, denominator, lower, store
    ensures numerator.Valid() && numerator.Value() == Term(f, Shift(closer), -x) && numerator.exp == -x / 32
    ensures denominator.Valid() && denominator.Value() == Term(1, Shift(closer) - e, 0)
    ensures denominator.exp == (Shift(closer) - e) / 32
    ensures lower.Valid() && lower.Value() == Term(1, 0, -x) && lower.exp == numerator.exp
    ensures closer ==> store.Valid() && store.Value() == Term(1, 1, -x)
  {
    hide Bigint.Value, Bigint.Valid, Pow, Term;
    var s := Shift(closer);
    ProductTerm(f, s, -x);
    PowersTerm(0, -x);
    PowersTerm(1, -x);
    ShiftedTerm(1, s - e);
    OneTimes(Pow(10, -x));
    numerator.AssignPow10(-x);
    lower.AssignFrom(numerator);
    SameValue(lower, numerator);
    if closer {
      store.AssignFrom(numerator);
      SameValue(store, numerator);
      store.ShiftLeft(1);
    }
    numerator.MultiplyWide(f, true);
    numerator.ShiftLeft(s);
    denominator.Assign(1);
    denominator.ShiftLeft(s - e);
  }

  lemma OneTimes(p: nat)
    ensures p * Pow(2, 0) == p
  {}

  lemma SameValue(a: Bigint, b: Bigint)
    requires a.bigits == b.bigits && a.exp == b.exp
    ensures a.Value() == b.Value() && (a.Valid() <==> b.Valid())
  {}

  lemma Reorder(p: nat, f: nat, t: nat)
    ensures (p * f) * t == f * (t * p)
  {}

  lemma SmallScaled(f: nat, e: int, closer: bool, x: int)
    requires x < 0 && e < 0
    ensures var s := Shift(closer); var d := Term(1, s - e, 0);
            && Scaled(Term(f, s, -x), d, x, Real(f, e)) && Scaled(Term(1, 0, -x), d, x, LowerMargin(e, closer))
            && Scaled(Term(1, if closer then 1 else 0, -x), d, x, UpperMargin(e))
  {
    var s := Shift(closer);
    hide Term, RTwo, Scaled;
    TermsScaled(f, s, -x, s - e, 0);
    TermsScaled(1, 0, -x, s - e, 0);
    TermsScaled(1, if closer then 1 else 0, -x, s - e, 0);
  }

  /** e < 0 <= x: both powers go into the denominator. */
  method SetupMiddle(numerator: Bigint, denominator: Bigint, lower: Bigint, store: Bigint, f: nat, e: int, closer: bool, x: nat)
    requires x < 0x4000_0000 && e < 0
    requires Separate(numerator, denominator, lower, store) && lower != store
    modifies numerator, denominator, lower, store
    ensures numerator.Valid() && numerator.Value() == Term(f, Shift(closer), 0) && numerator.exp == 0
    ensures denominator.Valid() && denominator.Value() == Term(1, Shift(closer) - e, x)
    ensures lower.Valid() && lower.Value() == Term(1, 0, 0) && lower.exp == 0
    ensures closer ==> store.Valid() && store.Value() == Term(1, 1, 0)
  {
    hide Bigint.Value, Bigint.Valid, Pow, Term;
    var s := Shift(closer);
    ShiftedTerm(f, s);
    PowersTerm(s - e, x);
    SmallTerms();
    numerator.Assign(f);
    numerator.ShiftLeft(s);
    denominator.AssignPow10(x);
    denominator.ShiftLeft(s - e);
    lower.Assign(1);
    if closer {
      store.Assign(2);
    }
  }

  lemma MiddleScaled(f: nat, e: int, closer: bool, x: nat)
    requires e < 0
    ensures var s := Shift(closer); var d := Term(1, s - e, x);
            && Scaled(Term(f, s, 0), d, x, Real(f, e)) && Scaled(Term(1, 0, 0), d, x, LowerMargin(e, closer))
            && Scaled(Term(1, if closer then 1 else 0, 0), d, x, UpperMargin(e))
  {
    var s := Shift(closer);
    hide Term, RTwo, Scaled;
    TermsScaled(f, s, 0, s - e, x);
    TermsScaled(1, 0, 0, s - e, x);
    TermsScaled(1, if closer then 1 else 0, 0, s - e, x);
  }
}
