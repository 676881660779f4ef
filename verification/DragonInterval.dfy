/** Shortest decimals of an interval whose lower end may or may not count, and when that matters. */
module DragonInterval {
  import opened Powers
  import opened DragonMeaning

  // ----- Multiples of powers of ten -----

  /** A multiple of a power of ten is one of every smaller power. */
  lemma FinerMultiple(q: int, big: int, small: int) returns (p: int)
    requires small <= big
    ensures Times(q, RTen(big)) == Times(p, RTen(small))
  {
    hide *;
    UnitRatio(big, small);
    p := q * Pow(10, big - small);
    FinerProduct(q, Pow(10, big - small), RTen(small), RTen(big));
  }

  lemma UnitRatio(big: int, small: int)
    requires small <= big
    ensures RTen(big) == Pow(10, big - small) as real * RTen(small)
  {
    hide *;
    var k := big - small;
    RTenAdd(k, small);
    RTenPow(k);
    SameProduct(RTen(big), RTen(k), Pow(10, k) as real, RTen(small));
  }

  lemma SameProduct(x: real, a: real, b: real, t: real)
    requires x == a * t && a == b
    ensures x == b * t
  {}

  lemma FinerProduct(q: int, c: int, small: real, big: real)
    requires big == c as real * small
    ensures Times(q, big) == Times(q * c, small)
  {
    CastProduct(q, c);
    RMulAssoc(q as real, c as real, small);
  }

  /** A multiple above q * t is at least the next one; above that there is the one after it. */
  lemma GapBetween(p: int, q: int, t: real)
    requires t > 0.0
    ensures Times(q + 1, t) == Times(q, t) + t
    ensures Times(p, t) > Times(q, t) ==> p == q + 1 || Times(p, t) >= Times(q, t) + 2.0 * t
    ensures Times(p, t) == Times(q, t) ==> p == q
  {
    hide *;
    TimesIs(p, t);
    TimesIs(q, t);
    TimesIs(q + 1, t);
    GapArithmetic(p as real, q as real, (q + 1) as real, t, Times(p, t), Times(q, t), Times(q + 1, t));
    CastsOrdered(p, q);
  }

  lemma TimesIs(q: int, t: real)
    ensures Times(q, t) == t * q as real
  {}

  lemma CastsOrdered(p: int, q: int)
    ensures p as real > q as real <==> p > q
    ensures p as real == q as real <==> p == q
    ensures p >= q + 2 ==> p as real >= q as real + 2.0
  {}

  lemma GapArithmetic(a: real, b: real, c: real, t: real, ta: real, tb: real, tc: real)
    requires t > 0.0 && c == b + 1.0 && ta == t * a && tb == t * b && tc == t * c
    ensures tc == tb + t
    ensures ta > tb <==> a > b
    ensures ta == tb <==> a == b
    ensures a >= b + 2.0 ==> ta >= tb + 2.0 * t
  {
    StepProduct(b, c, t, 1.0);
    StepProduct(b, b + 2.0, t, 2.0);
    ScaledOrder(t, b, a, tb, ta);
    ScaledOrder(t, a, b, ta, tb);
    ScaledOrder(t, b + 2.0, a, tb + 2.0 * t, ta);
  }

  lemma ScaledOrder(t: real, x: real, y: real, tx: real, ty: real)
    requires t > 0.0 && tx == t * x && ty == t * y
    ensures tx <= ty <==> x <= y
  {
    RCancelLe(t, x, y);
  }

  lemma StepProduct(b: real, c: real, t: real, k: real)
    requires c == b + k
    ensures t * c == t * b + k * t
  {}

  /** A unit above one has a positive exponent. */
  lemma LargeUnit(exp: int)
    requires RTen(exp) > 1.0
    ensures exp > 0
  {
    RTenZero();
    if exp <= 0 {
      RTenMono(exp, 0);
    }
  }

  lemma NotAt(i: Interval, q: int, exp: int, low: bool)
    requires i.NoneAt(exp, low)
    ensures !i.Has(q, exp, low)
  {}

  /** The lower end, if it is q * 10^exp, and the next multiple of 10^exp. */
  lemma NextPoint(i: Interval, q: int, exp: int, low: bool)
    requires i.Proper() && Times(q, RTen(exp)) == i.LowerEnd()
    ensures Times(q + 1, RTen(exp)) == i.LowerEnd() + RTen(exp)
    ensures i.Has(q + 1, exp, low) <==> RBelow(RTen(exp), i.lower + i.upper, i.high)
    ensures i.Has(q, exp, true) && !i.Has(q, exp, false)
    ensures RNearer(q, q + 1, RTen(exp), i.v) ==> RTen(exp) >= 2.0 * i.lower
    ensures RNearer(q + 1, q, RTen(exp), i.v) ==> RTen(exp) <= 2.0 * i.lower
  {
    GapBetween(q, q, RTen(exp));
    hide RTen, Times;
  }

  // ----- The lower end in the closed interval -----

  /** The lower end as the best decimal. */
  lemma LowerEndIsBest(i: Interval, q: int, exp: int)
    requires i.Proper() && NoTie(i.lower) && i.Best(q, exp, true) && Times(q, RTen(exp)) == i.LowerEnd()
    ensures i.LowerEndBest()
  {
    NextPoint(i, q, exp, true);
    hide RTen, Times, Interval.Has, RNearer;
    assert RTen(exp) > 2.0 * i.lower;
    LargeUnit(exp);
    NextOutside(i, exp, true);
    assert i.LowerEndBestAt(exp);
  }

  /** The next multiple after the lower end is no multiple of the larger unit. */
  lemma NextOutside(i: Interval, exp: int, low: bool)
    requires i.Proper() && RTen(exp) > 0.0 && i.NoneAt(exp + 1, low)
    ensures RBelow(RTen(exp), i.lower + i.upper, i.high) ==> !IsMultipleOf(i.LowerEnd() + RTen(exp), RTen(exp + 1))
  {
    hide RTen, Times;
    if RBelow(RTen(exp), i.lower + i.upper, i.high) && IsMultipleOf(i.LowerEnd() + RTen(exp), RTen(exp + 1)) {
      var p: int :| i.LowerEnd() + RTen(exp) == Times(p, RTen(exp + 1));
      NotAt(i, p, exp + 1, low);
      assert false;
    }
  }

  /** If the lower end is to be printed, a best decimal of the closed interval is the lower end. */
  lemma BestIsLowerEnd(i: Interval, q: int, exp: int)
    requires i.Proper() && i.Best(q, exp, true) && i.LowerEndBest()
    ensures Times(q, RTen(exp)) == i.LowerEnd()
  {
    var j: nat :| i.LowerEndBestAt(j);
    var k: int :| i.LowerEnd() == Times(k, RTen(j));
    hide RTen, Times, Interval.Has, RNearer, RBelow;
    UnitOfBest(i, q, exp, j, k);
    if Times(q, RTen(exp)) != i.LowerEnd() {
      var p := FinerMultiple(q, exp, j);
      SamePoint(i, q, exp, p, j);
      NextPoint(i, k, j, true);
      NextIsTaken(i, p, k, j);
      if exp > j {
        var c := FinerMultiple(q, exp, j + 1);
        assert false;
      } else {
        GapBetween(q, p, RTen(j));
        NearerToHas(i, k + 1, k, j);
        assert false;
      }
    }
  }

  lemma NearerToHas(i: Interval, q: int, p: int, exp: int)
    requires i.ClosestAt(q, exp, true) && i.Has(p, exp, true)
    ensures RNearer(q, p, RTen(exp), i.v)
  {}

  lemma SamePoint(i: Interval, q: int, exp: int, p: int, j: int)
    requires Times(q, RTen(exp)) == Times(p, RTen(j))
    ensures i.Has(q, exp, true) <==> i.Has(p, j, true)
  {
    hide RTen, Times;
  }

  /** The unit of a best decimal is at least one of which the lower end is a multiple. */
  lemma UnitOfBest(i: Interval, q: int, exp: int, j: nat, k: int)
    requires i.Proper() && i.Best(q, exp, true) && i.LowerEnd() == Times(k, RTen(j))
    ensures exp >= j
  {
    if exp < j {
      var p := FinerMultiple(k, j, exp + 1);
      NextPoint(i, p, exp + 1, true);
      NotAt(i, p, exp + 1, true);
      assert false;
    }
  }

  /** A multiple in the closed interval other than the lower end is the next one. */
  lemma NextIsTaken(i: Interval, p: int, k: int, j: nat)
    requires i.Proper() && RTen(j) > 2.0 * i.lower && Times(k, RTen(j)) == i.LowerEnd()
    requires Times(p, RTen(j)) != i.LowerEnd() && i.Has(p, j, true)
    ensures p == k + 1 && RBelow(RTen(j), i.lower + i.upper, i.high)
  {
    GapBetween(p, k, RTen(j));
    hide RTen, Times;
  }

  // ----- The lower end left out -----

  /** What is best without the lower end is best with it, unless the lower end itself is to be printed. */
  lemma LowerEndMissed(i: Interval, q: int, exp: int)
    requires i.Proper() && NoTie(i.lower) && i.Best(q, exp, false) && !i.Best(q, exp, true)
    ensures i.LowerEndBest()
  {
    assert i.Has(q, exp, true);
    hide RTen, Times, Interval.Has, RNearer;
    if !i.ClosestAt(q, exp, true) {
      CloserLowerEnd(i, q, exp);
    } else {
      ShorterLowerEnd(i, exp);
    }
  }

  /** A multiple in the interval only if the lower end counts is the lower end. */
  lemma OnlyLowerEnd(i: Interval, p: int, exp: int)
    requires i.Has(p, exp, true) && !i.Has(p, exp, false)
    ensures Times(p, RTen(exp)) == i.LowerEnd()
  {
    hide RTen, Times;
  }

  lemma CloserLowerEnd(i: Interval, q: int, exp: int)
    requires i.Proper() && NoTie(i.lower) && i.Best(q, exp, false) && !i.ClosestAt(q, exp, true)
    ensures i.LowerEndBest()
  {
    var p: int :| i.Has(p, exp, true) && !RNearer(q, p, RTen(exp), i.v);
    assert !i.Has(p, exp, false);
    OnlyLowerEnd(i, p, exp);
    NextPoint(i, p, exp, false);
    FarFromNext(i, q, p, exp);
    hide RTen, Times, Interval.Has, RNearer;
    LargeUnit(exp);
    NextOutside(i, exp, false);
    assert i.LowerEndBestAt(exp);
  }

  /** A lower end nearer than the best number above it is so far from the next multiple. */
  lemma FarFromNext(i: Interval, q: int, p: int, exp: int)
    requires i.Proper() && NoTie(i.lower) && i.ClosestAt(q, exp, false) && !RNearer(q, p, RTen(exp), i.v)
    requires Times(p, RTen(exp)) == i.LowerEnd()
    ensures RTen(exp) > 2.0 * i.lower
  {
    NextPoint(i, p, exp, false);
    assert RTen(exp) != 2.0 * i.lower;
    if i.Has(p + 1, exp, false) {
      FartherThanNext(i, q, p, exp);
    }
    hide RTen, Times, Interval.Has;
  }

  lemma FartherThanNext(i: Interval, q: int, p: int, exp: int)
    requires i.Proper() && Times(p, RTen(exp)) == i.LowerEnd()
    requires RNearer(q, p + 1, RTen(exp), i.v) && !RNearer(q, p, RTen(exp), i.v)
    ensures RTen(exp) >= 2.0 * i.lower
  {
    NextPoint(i, p, exp, false);
    hide RTen, Times;
  }

  lemma ShorterLowerEnd(i: Interval, exp: int)
    requires i.Proper() && NoTie(i.lower) && i.NoneAt(exp + 1, false) && !i.NoneAt(exp + 1, true)
    ensures i.LowerEndBest()
  {
    var p: int :| i.Has(p, exp + 1, true);
    NotAt(i, p, exp + 1, false);
    OnlyLowerEnd(i, p, exp + 1);
    NextPoint(i, p, exp + 1, false);
    NotAt(i, p + 1, exp + 1, false);
    hide RTen, Times, Interval.Has;
    assert RTen(exp + 1) > 2.0 * i.lower;
    LargeUnit(exp + 1);
    assert i.LowerEndBestAt(exp + 1);
  }

  // ----- Both cases -----

  /** A best decimal of the closed interval is one without the lower end exactly when it is not the lower end. */
  lemma LowerEndTaken(i: Interval, q: int, exp: int)
    requires i.Proper() && NoTie(i.lower) && i.Best(q, exp, true)
    ensures Times(q, RTen(exp)) == i.LowerEnd() <==> i.LowerEndBest()
    ensures i.Has(q, exp, false) <==> !i.LowerEndBest()
    ensures i.Best(q, exp, false) <==> !i.LowerEndBest()
  {
    hide RTen, Times, Interval.Has, Interval.LowerEndBest, RNearer;
    if Times(q, RTen(exp)) == i.LowerEnd() {
      LowerEndIsBest(i, q, exp);
      NextPoint(i, q, exp, true);
    } else {
      if i.LowerEndBest() {
        BestIsLowerEnd(i, q, exp);
      }
      WithoutLowerEnd(i, q, exp);
    }
  }

  lemma WithoutLowerEnd(i: Interval, q: int, exp: int)
    requires i.Best(q, exp, true) && Times(q, RTen(exp)) != i.LowerEnd()
    ensures i.Best(q, exp, false)
  {
    hide RTen, RNearer, Times;
    forall p: int | i.Has(p, exp, false) ensures RNearer(q, p, RTen(exp), i.v) {
      assert i.Has(p, exp, true);
    }
    var next := exp + 1;
    forall p: int ensures !i.Has(p, next, false) {
      NotAt(i, p, next, true);
    }
  }

  /** A best decimal without the lower end is best with it exactly when the lower end is not the one to print. */
  lemma LowerEndLeftOut(i: Interval, q: int, exp: int)
    requires i.Proper() && NoTie(i.lower) && i.Best(q, exp, false)
    ensures i.Best(q, exp, true) <==> !i.LowerEndBest()
  {
    hide RTen, Times, Interval.LowerEndBest, RNearer;
    if i.Best(q, exp, true) {
      LowerEndTaken(i, q, exp);
    } else {
      LowerEndMissed(i, q, exp);
    }
  }
}
