/**
 * The regular-interval path of to_decimal in Dragonbox for binary64: the shortest decimal in
 * the rounding interval of f * 2^e, found with one multiplication by a cached power of ten.
 * The cache accessors are taken as exact: they answer floor, integrality and parity
 * questions about multiples of one real number.
 */
module Dragonbox {
  import opened Powers
  import TrailingZeros

  /** significand * 10^exponent. */
  datatype DecimalFp = DecimalFp(significand: int, exponent: int)

  datatype MulResult = MulResult(result: int, isInteger: bool)

  datatype ParityResult = ParityResult(parity: bool, isInteger: bool)

  // ----- What the answers mean -----

  /** The real numbers that round to f * 2^e: the ends belong to it when f is even. */
  ghost predicate InRoundingInterval(f: nat, e: int, d: real) {
    var lo, hi := Multiple(2 * f - 1, RTwo(e - 1)), Multiple(2 * f + 1, RTwo(e - 1));
    if f % 2 == 0 then lo <= d <= hi else lo < d < hi
  }

  /** l == floor(log10(2^e)): what floor_log10_pow2 computes on its range. */
  ghost predicate IsFloorLog10Pow2(e: int, l: int) {
    RTen(l) <= RTwo(e) < RTen(l + 1)
  }

  // ----- Accessors: u is an even or odd multiple of half a unit, cache the scaled half unit -----

  function Multiple(u: int, h: real): real {
    u as real * h
  }

  function ComputeMul(u: int, cache: real): MulResult {
    var z := Multiple(u, cache);
    MulResult(z.Floor, z.Floor as real == z)
  }

  function ComputeMulParity(u: int, cache: real): ParityResult {
    var z := Multiple(u, cache);
    ParityResult(z.Floor % 2 != 0, z.Floor as real == z)
  }

  function ComputeDelta(cache: real): int {
    (2.0 * cache).Floor
  }

  /** floor(n / 1000) by the magic number ceil(2^71 / 1000); exact up to 2^63. */
  function DivideBy1000(n: nat): (q: nat)
    requires n < 0x8000_0000_0000_0000
    ensures q == n / 1000
  {
    n * 2361183241434822607 / 0x1_0000_0000_0000_0000 / 128
  }

  /** Replaces n by n / 10^p for p = 1 or 2 and tells whether the division was exact. */
  function CheckDivisibilityAndDivide(n: nat, divisor: nat): (r: (bool, nat))
    requires divisor == 10 || divisor == 100
    requires n <= 10 * divisor
    ensures r.0 <==> n % divisor == 0
    ensures r.1 == n / divisor
  {
    if divisor == 10 then
      MagicDivision(n, 10, 6554, 4, n / 10, n % 10);
      (n * 6554 % 0x1_0000 < 6554, n * 6554 / 0x1_0000)
    else
      MagicDivision(n, 100, 656, 64, n / 100, n % 100);
      (n * 656 % 0x1_0000 < 656, n * 656 / 0x1_0000)
  }

  lemma MagicDivision(n: nat, divisor: nat, magic: nat, excess: nat, q: nat, r: nat)
    requires (divisor == 10 && magic == 6554 && excess == 4) || (divisor == 100 && magic == 656 && excess == 64)
    requires n == q * divisor + r && r < divisor && n <= 10 * divisor
    ensures n * magic / 0x1_0000 == q
    ensures n * magic % 0x1_0000 < magic <==> r == 0
  {
    assert n * magic == q * 0x1_0000 + (q * excess + r * magic);
  }

  // ----- The search in scaled units, where candidates are integers -----

  /** The scaled interval from x to z. */
  ghost predicate Inside(m: int, x: real, z: real, closed: bool) {
    if closed then x <= m as real <= z else x < m as real < z
  }

  /** No multiple of 1000 lies in the interval. */
  ghost predicate NoThousand(x: real, z: real, closed: bool) {
    forall k: int :: !Inside(1000 * k, x, z, closed)
  }

  /** 100 * q is the multiple of 100 nearest to y, with ties to even. */
  ghost predicate NearestHundred(q: int, y: real) {
    && -50.0 <= (100 * q) as real - y <= 50.0
    && ((100 * q) as real - y == -50.0 || (100 * q) as real - y == 50.0 ==> q % 2 == 0)
  }

  function Abs(x: real): real {
    if x < 0.0 then -x else x
  }

  lemma AtMostOneThousand(x: real, z: real, closed: bool, s: int, k: int)
    requires z - x < 1000.0 && Inside(1000 * s, x, z, closed) && Inside(1000 * k, x, z, closed)
    ensures k == s
  {
    assert -1000.0 < (1000 * k) as real - (1000 * s) as real < 1000.0;
    WithinThousand(s, k);
  }

  lemma WithinThousand(s: int, k: int)
    requires -1000.0 < (1000 * k) as real - (1000 * s) as real < 1000.0
    ensures k == s
  {
    var d := 1000 * k - 1000 * s;
    assert -1000.0 < d as real < 1000.0;
    assert -1000 < d < 1000;
  }

  /** The only multiples of 1000 that matter are the two below z. */
  lemma ThousandsBelow(x: real, z: real, closed: bool, s: int)
    requires z - x < 1000.0 && s == z.Floor / 1000
    requires !Inside(1000 * s, x, z, closed)
    requires (1000 * s) as real <= x || (!closed && (1000 * s) as real == z)
    ensures NoThousand(x, z, closed)
  {
    forall k: int
      ensures !Inside(1000 * k, x, z, closed)
    {
      if k > s {
        assert 1000 * k >= 1000 * s + 1000 > z.Floor;
        assert (1000 * k) as real > z;
      } else if k < s {
        assert (1000 * k) as real <= (1000 * s) as real - 1000.0;
      }
    }
  }

  lemma FractionCompare(z: real, delta: real, s: int)
    requires delta > 0.0 && z.Floor == 1000 * s + delta.Floor
    ensures (z - delta).Floor % 2 != 0 <==> z - delta < (1000 * s) as real
    ensures z - delta == (z - delta).Floor as real <==> z - delta == (1000 * s) as real
  {
    var x := z - delta;
    assert -1.0 < x - (1000 * s) as real < 1.0;
    assert x.Floor == 1000 * s || x.Floor == 1000 * s - 1;
  }

  /** Step 2 decides correctly in each of its branches. */
  lemma BigDivisor(x: real, z: real, closed: bool, s: int, r: int, deltai: int)
    requires 100.0 <= z - x < 1000.0 && deltai == (z - x).Floor
    requires s == z.Floor / 1000 && r == z.Floor - 1000 * s
    ensures 100 <= deltai < 1000
    ensures r < deltai && !(r == 0 && z.Floor as real == z && !closed) ==> Inside(1000 * s, x, z, closed)
    ensures r < deltai && r == 0 && z.Floor as real == z && !closed ==> NoThousand(x, z, closed)
    ensures r > deltai ==> NoThousand(x, z, closed)
    ensures r == deltai && (x.Floor % 2 != 0 || (x.Floor as real == x && closed)) ==> Inside(1000 * s, x, z, closed)
    ensures r == deltai && !(x.Floor % 2 != 0 || (x.Floor as real == x && closed)) ==> NoThousand(x, z, closed)
  {
    var delta := z - x;
    assert z - delta == x;
    if r < deltai {
      assert z - (1000 * s) as real < delta;
      if (1000 * s) as real == z && !closed {
        ThousandsBelow(x, z, closed, s);
      }
    } else if r > deltai {
      assert z - (1000 * s) as real > delta;
      ThousandsBelow(x, z, closed, s);
    } else {
      FractionCompare(z, delta, s);
      if x >= (1000 * s) as real && !(closed && x == (1000 * s) as real) {
        ThousandsBelow(x, z, closed, s);
      }
    }
  }

  /** Step 3: rounding y to the nearest hundred through the integer dist and one parity bit. */
  lemma SmallDivisor(y: real, z: real, delta: real, s: int, r: int, dist: int, q: int)
    requires 100.0 <= delta && y == z - delta / 2.0
    requires z.Floor == 1000 * s + r && dist == r - delta.Floor / 2 + 50
    requires q == 10 * s + dist / 100
    ensures dist % 100 != 0 ==> NearestHundred(q, y)
    ensures dist % 100 == 0 && (y.Floor % 2 != 0) != (dist % 2 != 0) ==> NearestHundred(q - 1, y)
    ensures dist % 100 == 0 && (y.Floor % 2 != 0) == (dist % 2 != 0) ==>
              NearestHundred(if y.Floor as real == y && q % 2 != 0 then q - 1 else q, y)
  {
    HalfFloor(y, z, delta);
    var yi := z.Floor - delta.Floor / 2;
    var rest := dist % 100;
    assert 100 * q + rest == yi + 50;
    SameParity(s, dist, yi);
    hide *;
    if rest != 0 {
      RoundNotDivisible(q, y, yi, rest);
    } else {
      RoundDivisible(q, y, yi);
    }
  }

  lemma SameParity(s: int, dist: int, yi: int)
    requires 1000 * s + dist == yi + 50
    ensures yi % 2 == dist % 2
  {
    assert yi == dist + 2 * (500 * s - 25);
  }

  lemma HalfFloor(y: real, z: real, delta: real)
    requires delta > 0.0 && y == z - delta / 2.0
    ensures var yi := z.Floor - delta.Floor / 2;
            && (y.Floor == yi || y.Floor == yi - 1)
            && (y.Floor as real == y ==> y.Floor == yi)
  {
    var half := delta.Floor / 2;
    assert half as real <= delta / 2.0 < half as real + 1.0;
    assert z.Floor as real <= z < z.Floor as real + 1.0;
  }

  lemma RoundNotDivisible(q: int, y: real, yi: int, rest: int)
    requires y.Floor == yi || y.Floor == yi - 1
    requires y.Floor as real == y ==> y.Floor == yi
    requires 0 < rest < 100 && 100 * q + rest == yi + 50
    ensures NearestHundred(q, y)
  {
    assert y.Floor as real <= y < y.Floor as real + 1.0;
    assert (100 * q) as real == (yi + 50 - rest) as real;
  }

  lemma RoundDivisible(q: int, y: real, yi: int)
    requires y.Floor == yi || y.Floor == yi - 1
    requires y.Floor as real == y ==> y.Floor == yi
    requires 100 * q == yi + 50
    ensures (y.Floor % 2 != 0) != (yi % 2 != 0) ==> NearestHundred(q - 1, y)
    ensures (y.Floor % 2 != 0) == (yi % 2 != 0) ==>
              NearestHundred(if y.Floor as real == y && q % 2 != 0 then q - 1 else q, y)
  {
    if y.Floor == yi {
      RoundUp(q, y, yi);
    } else {
      RoundDown(q, y, yi);
    }
  }

  lemma RoundUp(q: int, y: real, yi: int)
    requires y.Floor == yi && 100 * q == yi + 50
    ensures NearestHundred(if yi as real == y && q % 2 != 0 then q - 1 else q, y)
  {
    var d := y - yi as real;
    assert 0.0 <= d < 1.0;
    assert (100 * q) as real == yi as real + 50.0;
    assert (100 * (q - 1)) as real == yi as real - 50.0;
  }

  lemma RoundDown(q: int, y: real, yi: int)
    requires y.Floor == yi - 1 && y.Floor as real != y && 100 * q == yi + 50
    ensures NearestHundred(q - 1, y)
  {
    assert (yi - 1) as real < y < yi as real;
    assert (100 * (q - 1)) as real == yi as real - 50.0;
  }

  /** A nearest hundred lies in the interval: the half unit 50 reaches an end only when y is itself a hundred. */
  lemma SmallInside(f: nat, h: real, x: real, y: real, z: real, q: int)
    requires 50.0 <= h && y == Multiple(2 * f, h) && x == y - h && z == y + h
    requires NearestHundred(q, y)
    ensures Inside(100 * q, x, z, f % 2 == 0)
  {
    var d := (100 * q) as real - y;
    if h == 50.0 {
      var k := 100 * q - 100 * f;
      assert y == (100 * f) as real;
      assert d == k as real;
      assert k != 50 && k != -50;
    }
  }

  /** The scaled ends and centre are one half unit apart, and small enough for the magic division. */
  lemma ScaledPoints(f: nat, h: real)
    requires 0 < f < 0x20_0000_0000_0000 && 50.0 <= h < 500.0
    ensures Multiple(2 * f - 1, h) == Multiple(2 * f, h) - h
    ensures Multiple(2 * f + 1, h) == Multiple(2 * f, h) + h
    ensures Multiple(2 * f - 1, h) > 0.0
    ensures 0 <= Multiple(2 * f + 1, h).Floor < 0x8000_0000_0000_0000
  {
    var a := f as real;
    assert (2 * f) as real == 2.0 * a;
    assert (2 * f - 1) as real == 2.0 * a - 1.0;
    assert (2 * f + 1) as real == 2.0 * a + 1.0;
    PointsArithmetic(a, h);
  }

  lemma PointsArithmetic(a: real, h: real)
    requires 1.0 <= a <= 9007199254740991.0 && 50.0 <= h < 500.0
    ensures (2.0 * a - 1.0) * h == (2.0 * a) * h - h
    ensures (2.0 * a + 1.0) * h == (2.0 * a) * h + h
    ensures (2.0 * a - 1.0) * h > 0.0
    ensures 0.0 <= (2.0 * a + 1.0) * h < 9223372036854775807.0
  {
    var b := 2.0 * a + 1.0;
    RCancelLe(b, h, 500.0);
    RCancelLe(b, 0.0, h);
    RCancelLe(2.0 * a - 1.0, 0.0, h);
    RLt(b * h, b * 500.0, 9223372036854775807.0);
  }

  /** Steps 2 and 3: the candidate in units of 1000 (big) or of 100. */
  method SearchScaled(f: nat, cache: real) returns (sig: int, big: bool)
    requires 0 < f < 0x20_0000_0000_0000 && 50.0 <= cache < 500.0
    ensures var x, y, z := Multiple(2 * f - 1, cache), Multiple(2 * f, cache), Multiple(2 * f + 1, cache);
            && (big ==> 0 < sig < 10_000_000_000_000_000 && Inside(1000 * sig, x, z, f % 2 == 0))
            && (!big ==> NoThousand(x, z, f % 2 == 0) && Inside(100 * sig, x, z, f % 2 == 0)
                         && NearestHundred(sig, y))
  {
    var includeLeft, includeRight := f % 2 == 0, f % 2 == 0;
    ghost var x, y, z := Multiple(2 * f - 1, cache), Multiple(2 * f, cache), Multiple(2 * f + 1, cache);
    ScaledPoints(f, cache);
    hide Multiple, Inside, NoThousand, NearestHundred;
    var deltai := ComputeDelta(cache);
    var zMul := ComputeMul(2 * f + 1, cache);
    var s := DivideBy1000(zMul.result);
    var r := zMul.result - 1000 * s;
    var small := false;
    BigDivisor(x, z, includeLeft, s, r, deltai);
    if r < deltai {
      if r == 0 && zMul.isInteger && !includeRight {
        s := s - 1;
        r := 1000;
        small := true;
      }
    } else if r > deltai {
      small := true;
    } else {
      var xMul := ComputeMulParity(2 * f - 1, cache);
      if !(xMul.parity || (xMul.isInteger && includeLeft)) {
        small := true;
      }
    }
    if !small {
      BigPositive(x, z, includeLeft, s);
      return s, true;
    }
    sig := RoundToHundred(f, cache, s, r, deltai);
    big := false;
  }

  /** Step 3, from the label on. */
  method RoundToHundred(f: nat, cache: real, s: int, r: int, deltai: int) returns (sig: int)
    requires 50.0 <= cache && deltai == ComputeDelta(cache) && 100 <= deltai <= r <= 1000
    requires Multiple(2 * f - 1, cache) == Multiple(2 * f, cache) - cache
    requires Multiple(2 * f + 1, cache) == Multiple(2 * f, cache) + cache
    requires Multiple(2 * f + 1, cache).Floor == 1000 * s + r
    ensures NearestHundred(sig, Multiple(2 * f, cache))
    ensures Inside(100 * sig, Multiple(2 * f - 1, cache), Multiple(2 * f + 1, cache), f % 2 == 0)
  {
    ghost var x, y, z := Multiple(2 * f - 1, cache), Multiple(2 * f, cache), Multiple(2 * f + 1, cache);
    hide Multiple, Inside, NearestHundred;
    sig := s * 10;
    var dist := r - deltai / 2 + 50;
    var approxYParity := dist % 2 != 0;
    var (divisible, tens) := CheckDivisibilityAndDivide(dist, 100);
    sig := sig + tens;
    SmallDivisor(y, z, 2.0 * cache, s, r, dist, sig);
    if divisible {
      var yMul := ComputeMulParity(2 * f, cache);
      if yMul.parity != approxYParity {
        sig := sig - 1;
      } else if yMul.isInteger && sig % 2 != 0 {
        sig := sig - 1;
      }
    }
    SmallInside(f, cache, x, y, z, sig);
  }

  lemma BigPositive(x: real, z: real, closed: bool, s: int)
    requires x > 0.0 && z.Floor < 0x8000_0000_0000_0000 && Inside(1000 * s, x, z, closed)
    ensures 0 < s < 10_000_000_000_000_000
  {
    assert (1000 * s) as real > 0.0;
    assert 1000 * s <= z.Floor;
  }

  // ----- From scaled units back to decimals -----

  /** Scaling by 10^-k maps the rounding interval to the scaled one. */
  lemma ScaleInterval(f: nat, e: int, k: int, m: int)
    requires f > 0
    ensures var h := HalfUnit(e, k);
            var inside := Inside(m, Multiple(2 * f - 1, h), Multiple(2 * f + 1, h), f % 2 == 0);
            InRoundingInterval(f, e, Multiple(m, RTen(k))) <==> inside
  {
    TenInverse(k);
    hide RTwo, RTen;
    ScaleEnd((2 * f - 1) as real, RTwo(e - 1), RTen(k), RTen(-k), m as real);
    ScaleEnd((2 * f + 1) as real, RTwo(e - 1), RTen(k), RTen(-k), m as real);
  }

  lemma TenInverse(k: int)
    ensures RTen(k) * RTen(-k) == 1.0
  {
    hide *;
    RTenAdd(k, -k);
    RTenZero();
    assert k + -k == 0;
  }

  lemma ScaleEnd(a: real, t: real, c: real, inverse: real, m: real)
    requires c > 0.0 && c * inverse == 1.0
    ensures a * t <= m * c <==> a * (t * inverse) <= m
    ensures a * t < m * c <==> a * (t * inverse) < m
    ensures m * c <= a * t <==> m <= a * (t * inverse)
    ensures m * c < a * t <==> m < a * (t * inverse)
  {
    assert c * (a * (t * inverse)) == (a * t) * (c * inverse);
    RCancelLe(c, a * (t * inverse), m);
    RCancelLe(c, m, a * (t * inverse));
  }

  /** Half a unit of f * 2^e in units of 10^k. */
  function HalfUnit(e: int, k: int): real {
    RTwo(e - 1) * RTen(-k)
  }

  /** The scaled half unit is between 50 and 500 when minus_k is chosen as in the source. */
  lemma ScaledUnit(e: int, k: int)
    requires IsFloorLog10Pow2(e, k + 2)
    ensures 50.0 <= HalfUnit(e, k) < 500.0
  {
    hide RTen, RTwo;
    TenInverse(k);
    RTenSucc(k);
    RTenSucc(k + 1);
    RTenSucc(k + 2);
    RTwoSucc(e - 1);
    assert k + 1 + 1 == k + 2 && e - 1 + 1 == e;
    UnitArithmetic(RTen(k), RTen(-k), RTwo(e - 1));
  }

  lemma UnitArithmetic(c: real, inverse: real, t: real)
    requires c > 0.0 && inverse > 0.0 && c * inverse == 1.0 && 100.0 * c <= 2.0 * t < 1000.0 * c
    ensures 50.0 <= t * inverse < 500.0
  {
    RCancelLe(inverse, 50.0 * c, t);
    RCancelLe(inverse, t, 500.0 * c);
    assert inverse * (50.0 * c) == 50.0 * (c * inverse);
    assert inverse * (500.0 * c) == 500.0 * (c * inverse);
    RLt(inverse * t, inverse * (500.0 * c), 500.0);
  }

  // ----- The whole path -----

  ghost function Denotes(d: DecimalFp): real {
    Multiple(d.significand, RTen(d.exponent))
  }

  /** Some decimal with this exponent lies in the rounding interval. */
  ghost predicate HasDecimal(f: nat, e: int, k: int) {
    exists a: int :: InRoundingInterval(f, e, Multiple(a, RTen(k)))
  }

  /** d is a decimal with exponent k nearest to f * 2^e, and the one with the even significand on a tie. */
  ghost predicate NearestDecimal(f: nat, e: int, d: DecimalFp) {
    forall a: int :: a != d.significand ==> Closer(f, e, d, a)
  }

  /** d is closer to f * 2^e than a with the same exponent, or as close and even. */
  ghost predicate Closer(f: nat, e: int, d: DecimalFp, a: int) {
    var v := Multiple(2 * f, RTwo(e - 1));
    var mine, other := Abs(Denotes(d) - v), Abs(Multiple(a, RTen(d.exponent)) - v);
    mine < other || (mine == other && d.significand % 2 == 0)
  }

  /**
   * The decimal returned lies in the rounding interval of f * 2^e. No decimal in the
   * interval has a larger exponent, so none is shorter. A multiple of 10^(minusK + 3) is
   * used exactly when one lies in the interval; otherwise the result is the multiple of
   * 10^(minusK + 2) nearest to the input, ties to even.
   */
  method ToDecimal(f: nat, e: int, minusK: int) returns (d: DecimalFp)
    requires 0 < f < 0x20_0000_0000_0000 && IsFloorLog10Pow2(e, minusK + 2)
    ensures InRoundingInterval(f, e, Denotes(d))
    ensures forall k :: k > d.exponent ==> !HasDecimal(f, e, k)
    ensures d.exponent >= minusK + 3 <==> HasDecimal(f, e, minusK + 3)
    ensures d.exponent < minusK + 3 ==> d.exponent == minusK + 2 && NearestDecimal(f, e, d)
  {
    ScaledUnit(e, minusK);
    hide *;
    var cache := HalfUnit(e, minusK);
    var sig, big := SearchScaled(f, cache);
    if big {
      var n, t := TrailingZeros.RemoveTrailingZeros64(sig);
      d := DecimalFp(n, minusK + 2 + 1 + t);
      BigMeaning(f, e, minusK, sig, n, t);
    } else {
      d := DecimalFp(sig, minusK + 2);
      SmallMeaning(f, e, minusK, sig);
    }
  }

  lemma TenMultiple(a: int, k: int, j: nat)
    ensures Multiple(a, RTen(k + j)) == Multiple(a * Pow(10, j), RTen(k))
  {
    hide RTen, Pow;
    RTenAdd(k, j);
    RTenPow(j);
    ProductOfCasts(a, Pow(10, j));
    RMulAssoc(a as real, Pow(10, j) as real, RTen(k));
  }

  lemma ProductOfCasts(a: int, p: int)
    ensures (a * p) as real == a as real * p as real
  {}

  /** A decimal with exponent at least k + 3 is a multiple of 1000 in units of 10^k. */
  lemma ThousandFromExponent(f: nat, e: int, k: int, a: int, j: nat)
    requires f > 0
    ensures InRoundingInterval(f, e, Multiple(a, RTen(k + 3 + j))) <==>
            Inside(1000 * (a * Pow(10, j)), Multiple(2 * f - 1, HalfUnit(e, k)),
                   Multiple(2 * f + 1, HalfUnit(e, k)), f % 2 == 0)
  {
    hide *;
    TenMultiple(a, k, 3 + j);
    assert k + (3 + j) == k + 3 + j;
    PowAdd(10, 3, j);
    SmallPowersOfTen();
    Thousandfold(a, Pow(10, j));
    ScaleInterval(f, e, k, 1000 * (a * Pow(10, j)));
  }

  lemma Thousandfold(a: int, p: nat)
    ensures a * (1000 * p) == 1000 * (a * p)
  {}

  lemma NoLargerExponent(f: nat, e: int, minusK: int, k: int)
    requires f > 0 && k >= minusK + 3
    requires NoThousand(Multiple(2 * f - 1, HalfUnit(e, minusK)), Multiple(2 * f + 1, HalfUnit(e, minusK)), f % 2 == 0)
    ensures !HasDecimal(f, e, k)
  {
    var j := k - (minusK + 3);
    forall a: int ensures !InRoundingInterval(f, e, Multiple(a, RTen(k))) {
      ThousandFromExponent(f, e, minusK, a, j);
      assert minusK + 3 + j == k;
    }
  }

  lemma SmallMeaning(f: nat, e: int, minusK: int, sig: int)
    requires f > 0
    requires var h := HalfUnit(e, minusK);
             var x, z := Multiple(2 * f - 1, h), Multiple(2 * f + 1, h);
             && NoThousand(x, z, f % 2 == 0) && Inside(100 * sig, x, z, f % 2 == 0)
             && NearestHundred(sig, Multiple(2 * f, h))
    ensures var d := DecimalFp(sig, minusK + 2);
            && InRoundingInterval(f, e, Denotes(d)) && NearestDecimal(f, e, d)
    ensures forall k :: k > minusK + 2 ==> !HasDecimal(f, e, k)
  {
    forall k | k > minusK + 2 ensures !HasDecimal(f, e, k) {
      NoLargerExponent(f, e, minusK, k);
    }
    SmallInInterval(f, e, minusK, sig);
    SmallNearest(f, e, minusK, sig);
  }

  lemma SmallInInterval(f: nat, e: int, minusK: int, sig: int)
    requires f > 0
    requires Inside(100 * sig, Multiple(2 * f - 1, HalfUnit(e, minusK)), Multiple(2 * f + 1, HalfUnit(e, minusK)), f % 2 == 0)
    ensures InRoundingInterval(f, e, Denotes(DecimalFp(sig, minusK + 2)))
  {
    TenMultiple(sig, minusK, 2);
    assert Pow(10, 2) == 100;
    ScaleInterval(f, e, minusK, 100 * sig);
    hide Multiple, RTen, Inside, InRoundingInterval, HalfUnit;
  }

  lemma SmallNearest(f: nat, e: int, k: int, sig: int)
    requires NearestHundred(sig, Multiple(2 * f, HalfUnit(e, k)))
    ensures NearestDecimal(f, e, DecimalFp(sig, k + 2))
  {
    var d := DecimalFp(sig, k + 2);
    forall a: int | a != sig ensures Closer(f, e, d, a) {
      CloserThanOther(f, e, k, sig, a);
    }
  }

  lemma CloserThanOther(f: nat, e: int, k: int, sig: int, a: int)
    requires NearestHundred(sig, Multiple(2 * f, HalfUnit(e, k))) && a != sig
    ensures Closer(f, e, DecimalFp(sig, k + 2), a)
  {
    hide Multiple, HalfUnit, RTen, RTwo, Abs, NearestHundred;
    var y := Multiple(2 * f, HalfUnit(e, k));
    NearestAmongHundreds(sig, a, y);
    ScaledDistance(f, e, k, sig);
    ScaledDistance(f, e, k, a);
    ScaledOrder(RTen(k), Abs((100 * sig) as real - y), Abs((100 * a) as real - y));
  }

  lemma ScaledOrder(c: real, p: real, q: real)
    requires c > 0.0
    ensures p < q ==> c * p < c * q
    ensures p == q ==> c * p == c * q
  {}

  /** The rounding of step 3 is to the nearest multiple of 100, and to the even one of two that are as near. */
  lemma NearestAmongHundreds(q: int, a: int, y: real)
    requires NearestHundred(q, y) && a != q
    ensures var mine, other := Abs((100 * q) as real - y), Abs((100 * a) as real - y);
            mine < other || (mine == other && q % 2 == 0)
  {
    if a > q {
      assert (100 * a) as real >= (100 * q) as real + 100.0;
    } else {
      assert (100 * a) as real <= (100 * q) as real - 100.0;
    }
  }

  /** Distances shrink by the factor 10^k. */
  lemma ScaledDistance(f: nat, e: int, k: int, a: int)
    ensures var y := Multiple(2 * f, HalfUnit(e, k));
            Abs(Multiple(a, RTen(k + 2)) - Multiple(2 * f, RTwo(e - 1))) == RTen(k) * Abs((100 * a) as real - y)
  {
    hide RTen, RTwo, Pow, Abs;
    TenMultiple(a, k, 2);
    SmallPowersOfTen();
    assert Multiple(a, RTen(k + 2)) == RTen(k) * (100 * a) as real;
    TenInverse(k);
    ScaleBack((2 * f) as real, RTwo(e - 1), RTen(k), RTen(-k));
    assert Multiple(2 * f, RTwo(e - 1)) == RTen(k) * Multiple(2 * f, HalfUnit(e, k));
    AbsScale(RTen(k), (100 * a) as real, Multiple(2 * f, HalfUnit(e, k)),
             Multiple(a, RTen(k + 2)), Multiple(2 * f, RTwo(e - 1)));
  }

  lemma ScaleBack(a: real, t: real, c: real, inverse: real)
    requires c * inverse == 1.0
    ensures a * t == c * (a * (t * inverse))
  {
    assert c * (a * (t * inverse)) == (a * t) * (c * inverse);
  }

  lemma AbsScale(c: real, p: real, y: real, cp: real, cy: real)
    requires c > 0.0 && cp == c * p && cy == c * y
    ensures Abs(cp - cy) == c * Abs(p - y)
  {
    RCancelLe(c, p, y);
    RCancelLe(c, y, p);
    assert c * (p - y) == cp - cy;
    assert c * -(p - y) == cy - cp;
  }

  lemma BigMeaning(f: nat, e: int, minusK: int, sig: nat, n: nat, t: nat)
    requires f > 0 && sig > 0 && TrailingZeros.Stripped(sig, n, t)
    requires HalfUnit(e, minusK) < 500.0
    requires Inside(1000 * sig, Multiple(2 * f - 1, HalfUnit(e, minusK)), Multiple(2 * f + 1, HalfUnit(e, minusK)), f % 2 == 0)
    ensures InRoundingInterval(f, e, Denotes(DecimalFp(n, minusK + 2 + 1 + t)))
    ensures forall k :: k > minusK + 2 + 1 + t ==> !HasDecimal(f, e, k)
    ensures HasDecimal(f, e, minusK + 3)
  {
    ThousandFromExponent(f, e, minusK, n, t);
    ThousandFromExponent(f, e, minusK, sig, 0);
    assert minusK + 3 + 0 == minusK + 3 && minusK + 2 + 1 + t == minusK + 3 + t;
    forall k | k > minusK + 2 + 1 + t ensures !HasDecimal(f, e, k) {
      forall a: int ensures !InRoundingInterval(f, e, Multiple(a, RTen(k))) {
        TooLong(f, e, minusK, sig, n, t, a, k - (minusK + 3));
      }
    }
  }

  lemma TooLong(f: nat, e: int, minusK: int, sig: nat, n: nat, t: nat, a: int, j: nat)
    requires f > 0 && sig > 0 && TrailingZeros.Stripped(sig, n, t) && j > t
    requires HalfUnit(e, minusK) < 500.0
    requires Inside(1000 * sig, Multiple(2 * f - 1, HalfUnit(e, minusK)), Multiple(2 * f + 1, HalfUnit(e, minusK)), f % 2 == 0)
    ensures !InRoundingInterval(f, e, Multiple(a, RTen(minusK + 3 + j)))
  {
    hide *;
    ThousandFromExponent(f, e, minusK, a, j);
    TrailingZeros.StrippedIsMaximal(sig, n, t, j);
    IntervalWidth(f, HalfUnit(e, minusK));
    MultipleMod(Pow(10, j), a);
    MulComm(Pow(10, j), a);
    if InRoundingInterval(f, e, Multiple(a, RTen(minusK + 3 + j))) {
      AtMostOneThousand(Multiple(2 * f - 1, HalfUnit(e, minusK)), Multiple(2 * f + 1, HalfUnit(e, minusK)),
                        f % 2 == 0, sig, a * Pow(10, j));
      assert false;
    }
  }

  lemma MulComm(a: int, b: int)
    ensures a * b == b * a
  {}

  lemma IntervalWidth(f: nat, h: real)
    ensures Multiple(2 * f + 1, h) - Multiple(2 * f - 1, h) == 2.0 * h
  {
    var a := (2 * f) as real;
    assert (2 * f - 1) as real == a - 1.0 && (2 * f + 1) as real == a + 1.0;
  }
}
