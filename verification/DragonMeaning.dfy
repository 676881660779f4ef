/** What the digits of format_dragon mean as real numbers. */
module DragonMeaning {
  import opened Powers
  import opened Digits
  import opened DragonArithmetic
  import opened DragonLoops

  /** x < y, or x <= y when the end is closed. */
  predicate RBelow(x: real, y: real, closed: bool) {
    if closed then x <= y else x < y
  }

  function Times(q: int, unit: real): real {
    q as real * unit
  }

  function RDistance(p: int, unit: real, v: real): real {
    if v >= Times(p, unit) then v - Times(p, unit) else Times(p, unit) - v
  }

  predicate RNearer(p: int, q: int, unit: real, v: real) {
    && RDistance(p, unit, v) <= RDistance(q, unit, v)
    && (RDistance(p, unit, v) == RDistance(q, unit, v) ==> p == q || p % 2 == 0)
  }

  /** The interval around v: the distances to its ends, and whether the upper end belongs to it. */
  datatype Interval = Interval(v: real, lower: real, upper: real, high: bool)
  {
    function LowerEnd(): real {
      v - lower
    }

    /** The lower neighbour is as far as the upper one, or half as far. */
    predicate Proper() {
      0.0 < lower <= upper <= 2.0 * lower
    }

    /** q * 10^exp is in the interval, to which the lower end belongs if low. */
    predicate Has(q: int, exp: int, low: bool) {
      RBelow(v, Times(q, RTen(exp)) + lower, low) && RBelow(Times(q, RTen(exp)), v + upper, high)
    }

    ghost predicate NoneAt(exp: int, low: bool) {
      forall q: int :: !Has(q, exp, low)
    }

    /** No multiple of 10^exp in the interval is nearer to v, and none as near unless q is even. */
    ghost predicate ClosestAt(q: int, exp: int, low: bool) {
      forall p: int :: Has(p, exp, low) ==> RNearer(q, p, RTen(exp), v)
    }

    /** q * 10^exp is in the interval and closest to v, and no multiple of a larger power of ten is in it. */
    ghost predicate Best(q: int, exp: int, low: bool) {
      Has(q, exp, low) && ClosestAt(q, exp, low) && NoneAt(exp + 1, low)
    }

    /**
     * The lower end is a multiple of 10^j, v is nearer to it than to the next such multiple,
     * and that one, if it is in the interval, is not a multiple of 10^(j+1).
     */
    ghost predicate LowerEndBestAt(j: nat) {
      && IsMultipleOf(LowerEnd(), RTen(j)) && RTen(j) > 2.0 * lower
      && (RBelow(RTen(j), lower + upper, high) ==> !IsMultipleOf(LowerEnd() + RTen(j), RTen(j + 1)))
    }

    /** The decimal to print, if the lower end belongs to the interval, is the lower end itself. */
    ghost predicate LowerEndBest() {
      exists j: nat :: LowerEndBestAt(j)
    }
  }

  ghost predicate IsMultipleOf(x: real, unit: real) {
    exists q: int :: x == Times(q, unit)
  }

  /** Twice the lower margin is at least one but no power of ten, as it is for 2^k with k > 0. */
  ghost predicate NoTie(lower: real) {
    2.0 * lower >= 1.0 && forall j: int :: RTen(j) != 2.0 * lower
  }

  /** p * unit is the multiple of unit nearest to v, ties to the even multiple. */
  predicate RNearest(p: int, unit: real, v: real) {
    && -unit <= 2.0 * (v - p as real * unit) <= unit
    && (2.0 * (v - p as real * unit) == unit || 2.0 * (v - p as real * unit) == -unit ==> p % 2 == 0)
  }

  /** The fraction n / d in units of 10^x is the real v. */
  ghost predicate Scaled(n: nat, d: nat, x: int, v: real) {
    d > 0 && n as real * RTen(x) == v * d as real
  }

  /** A smaller unit takes a larger numerator. */
  lemma FinerUnit(n: nat, d: nat, x: int, v: real, k: nat)
    requires Scaled(n, d, x, v)
    ensures Scaled(n * Pow(10, k), d, x - k, v)
  {
    RTenAdd(k, x - k);
    RTenPow(k);
    hide RTen, Pow;
    CastProduct(n, Pow(10, k));
    RMulAssoc(n as real, Pow(10, k) as real, RTen(x - k));
  }

  /** A larger unit takes a larger denominator. */
  lemma CoarserUnit(n: nat, d: nat, x: int, v: real, k: nat)
    requires Scaled(n, d, x, v)
    ensures Pow(10, k) > 0 && Scaled(n, d * Pow(10, k), x + k, v)
  {
    RTenAdd(x, k);
    RTenPow(k);
    hide RTen, Pow;
    CastProduct(d, Pow(10, k));
    RMulAssoc(n as real, RTen(x), Pow(10, k) as real);
    RMulAssoc(v, d as real, Pow(10, k) as real);
    PositiveProduct(d, Pow(10, k));
  }

  lemma PositiveProduct(a: nat, b: nat)
    requires a > 0 && b > 0
    ensures a * b > 0
  {}

  lemma CastProduct(a: int, b: int)
    ensures (a * b) as real == a as real * b as real
  {}

  /** Comparing sums of numerators and multiples of the denominator compares the reals. */
  lemma CompareScaled(a: int, p: int, d: nat, unit: real, ra: real)
    requires d > 0 && unit > 0.0 && a as real * unit == ra * d as real
    ensures a <= p * d <==> ra <= p as real * unit
    ensures a < p * d <==> ra < p as real * unit
  {
    var t, c := p as real * unit, d as real;
    CastProduct(p, d);
    var m := (p * d) as real;
    assert unit * m == c * t by {
      RMulAssoc(p as real, c, unit);
      RMulAssoc(p as real, unit, c);
    }
    RCancelLe(unit, a as real, m);
    RCancelLe(c, ra, t);
    assert (a <= p * d) == (a as real <= m);
  }

  lemma AddScaled(a: int, b: int, d: nat, unit: real, ra: real, rb: real)
    requires a as real * unit == ra * d as real && b as real * unit == rb * d as real
    ensures (a + b) as real * unit == (ra + rb) * d as real
    ensures (a - b) as real * unit == (ra - rb) * d as real
  {}

  /** n / d with its margins l / d and u / d is the interval, in units of 10^x. */
  ghost predicate ScaledInterval(n: nat, d: nat, l: nat, u: nat, x: int, i: Interval) {
    Scaled(n, d, x, i.v) && Scaled(l, d, x, i.lower) && Scaled(u, d, x, i.upper)
  }

  /** The integer and the real forms of being within the margins agree. */
  lemma InsideReal(p: int, n: nat, d: nat, l: nat, u: nat, low: bool, x: int, i: Interval)
    requires ScaledInterval(n, d, l, u, x, i)
    ensures Inside(p, n, d, l, u, low, i.high) <==> i.Has(p, x, low)
  {
    var unit := RTen(x);
    hide RTen;
    AddScaled(n, l, d, unit, i.v, i.lower);
    AddScaled(n, u, d, unit, i.v, i.upper);
    CompareScaled(n - l, p, d, unit, i.v - i.lower);
    CompareScaledAbove(n + u, p, d, unit, i.v + i.upper);
  }

  lemma SumScaled(a: nat, b: nat, d: nat, x: int, ra: real, rb: real)
    requires Scaled(a, d, x, ra) && Scaled(b, d, x, rb)
    ensures Scaled(a + b, d, x, ra + rb)
  {
    hide RTen;
    AddScaled(a, b, d, RTen(x), ra, rb);
  }

  /** Comparing numerators compares the reals; zero is zero. */
  lemma OrderScaled(a: nat, b: nat, d: nat, x: int, ra: real, rb: real)
    requires Scaled(a, d, x, ra) && Scaled(b, d, x, rb)
    ensures d > 0 && (a <= b <==> ra <= rb) && (a > 0 <==> ra > 0.0)
  {
    hide RTen;
    OrderReal(a, b, d, RTen(x), ra, rb);
    OrderReal(a, 0, d, RTen(x), ra, 0.0);
  }

  /** Comparing with one or ten denominators compares with a power of ten. */
  lemma PowerScaled(a: nat, d: nat, x: int, ra: real)
    requires Scaled(a, d, x, ra)
    ensures (a <= d <==> ra <= RTen(x)) && (a < d <==> ra < RTen(x))
    ensures (a <= 10 * d <==> ra <= RTen(x + 1)) && (a < 10 * d <==> ra < RTen(x + 1))
  {
    RTenSucc(x);
    hide RTen;
    CompareScaled(a, 1, d, RTen(x), ra);
    CompareScaled(a, 10, d, RTen(x), ra);
  }

  lemma CompareScaledAbove(a: int, p: int, d: nat, unit: real, ra: real)
    requires d > 0 && unit > 0.0 && a as real * unit == ra * d as real
    ensures p * d <= a <==> p as real * unit <= ra
    ensures p * d < a <==> p as real * unit < ra
  {
    CompareScaled(a, p, d, unit, ra);
  }

  lemma NoneInsideReal(n: nat, d: nat, l: nat, u: nat, low: bool, x: int, i: Interval)
    requires ScaledInterval(n, d, l, u, x, i) && NoneInside(n, d, l, u, low, i.high)
    ensures i.NoneAt(x, low)
  {
    hide RTen, Inside, Interval.Has, Scaled;
    forall q: int ensures !i.Has(q, x, low) {
      InsideReal(q, n, d, l, u, low, x, i);
      assert !Inside(q, n, d, l, u, low, i.high);
    }
  }

  lemma DistanceReal(p: int, n: nat, d: nat, x: int, v: real)
    requires Scaled(n, d, x, v)
    ensures Distance(p, n, d) as real * RTen(x) == RDistance(p, RTen(x), v) * d as real
  {
    var unit := RTen(x);
    hide RTen;
    CompareScaledAbove(n, p, d, unit, v);
    PointScaled(p, d, unit);
    AddScaled(n, p * d, d, unit, v, p as real * unit);
    AddScaled(p * d, n, d, unit, p as real * unit, v);
  }

  lemma PointScaled(p: int, d: nat, unit: real)
    ensures (p * d) as real * unit == (p as real * unit) * d as real
  {
    CastProduct(p, d);
    RMulAssoc(p as real, d as real, unit);
    RMulAssoc(p as real, unit, d as real);
  }

  lemma OrderReal(a: int, b: int, d: nat, unit: real, ra: real, rb: real)
    requires d > 0 && unit > 0.0 && a as real * unit == ra * d as real && b as real * unit == rb * d as real
    ensures a <= b <==> ra <= rb
    ensures a == b <==> ra == rb
  {
    RCancelLe(unit, a as real, b as real);
    RCancelLe(d as real, ra, rb);
    RCancelLe(unit, b as real, a as real);
    RCancelLe(d as real, rb, ra);
  }

  lemma ClosestReal(p: int, n: nat, d: nat, l: nat, u: nat, low: bool, x: int, i: Interval)
    requires ScaledInterval(n, d, l, u, x, i) && Closest(p, n, d, l, u, low, i.high)
    ensures i.ClosestAt(p, x, low)
  {
    hide RTen, Inside, Interval.Has, Scaled, Nearer, RNearer;
    forall q: int | i.Has(q, x, low) ensures RNearer(p, q, RTen(x), i.v) {
      InsideReal(q, n, d, l, u, low, x, i);
      assert Nearer(p, q, n, d);
      NearerReal(p, q, n, d, x, i.v);
    }
  }

  lemma NearerReal(p: int, q: int, n: nat, d: nat, x: int, v: real)
    requires Scaled(n, d, x, v) && Nearer(p, q, n, d)
    ensures RNearer(p, q, RTen(x), v)
  {
    hide RTen, Distance, RDistance;
    DistanceReal(p, n, d, x, v);
    DistanceReal(q, n, d, x, v);
    OrderReal(Distance(p, n, d), Distance(q, n, d), d, RTen(x), RDistance(p, RTen(x), v), RDistance(q, RTen(x), v));
  }

  lemma NearestReal(p: int, n: nat, d: nat, x: int, v: real)
    requires Scaled(n, d, x, v) && NearestEven(p, n, d)
    ensures RNearest(p, RTen(x), v)
  {
    var unit := RTen(x);
    hide RTen;
    PointScaled(p, d, unit);
    AddScaled(n, p * d, d, unit, v, p as real * unit);
    var t, r := n - p * d, v - p as real * unit;
    AddScaled(t, t, d, unit, r, r);
    OrderReal(2 * t, d, d, unit, 2.0 * r, unit);
    OrderReal(0 - d as int, 2 * t, d, unit, -unit, 2.0 * r);
  }
}
