/** Arithmetic of the loops of bigint: carries, borrows, shifts and comparisons in base 2^32. */
module BigintArithmetic {
  import opened Powers
  import opened Bigits
  import opened Convolution

  /** Size at least one, and a nonzero top bigit unless there is just one bigit. */
  predicate Normal(s: seq<Bigit>) {
    s != [] && (s[|s| - 1] != 0 || |s| == 1)
  }

  /** The order of two integers as compare reports it. */
  function Sign(x: int, y: int): int {
    if x < y then -1 else if x > y then 1 else 0
  }

  // ----- Steps of the loops -----

  /** Multiplication by v has reached position i with the given carry. */
  ghost predicate Multiplied(now: seq<Bigit>, was: seq<Bigit>, i: nat, carry: nat, v: nat)
    requires i <= |now| == |was|
  {
    && Num(now[..i]) + carry * BPow(i) == Num(was[..i]) * v
    && now[i..] == was[i..]
  }

  lemma MultipliedStart(s: seq<Bigit>, v: nat)
    ensures Multiplied(s, s, 0, 0, v)
  {}

  lemma MultipliedStep(now: seq<Bigit>, was: seq<Bigit>, i: nat, carry: nat, v: nat, lo: Bigit, hi: nat)
    requires i < |now| == |was| && Multiplied(now, was, i, carry, v)
    requires lo + 0x1_0000_0000 * hi == was[i] * v + carry
    ensures Multiplied(now[i := lo], was, i + 1, hi, v)
  {
    var next := now[i := lo];
    assert next[..i] == now[..i] && next[i + 1..] == was[i..][1..];
    NumPrefix(next, i);
    NumPrefix(was, i);
    BPowSucc(i);
    MulArithmetic(Num(now[..i]), Num(was[..i]), BPow(i), carry, was[i], v, lo, hi);
  }

  lemma MulArithmetic(n: nat, o: nat, p: nat, c: nat, b: nat, v: nat, lo: nat, hi: nat)
    requires n + c * p == o * v && lo + 0x1_0000_0000 * hi == b * v + c
    ensures (n + lo * p) + hi * (0x1_0000_0000 * p) == (o + b * p) * v
  {
    assert (lo + 0x1_0000_0000 * hi) * p == lo * p + hi * (0x1_0000_0000 * p);
    assert (b * v + c) * p == (b * p) * v + c * p;
    assert (o + b * p) * v == o * v + (b * p) * v;
  }

  /** At the end only the carry is missing. */
  lemma MultipliedEnd(now: seq<Bigit>, was: seq<Bigit>, carry: nat, v: nat)
    requires |now| == |was| && Multiplied(now, was, |now|, carry, v)
    ensures Num(now) + carry * BPow(|now|) == Num(was) * v
  {
    assert now[..|now|] == now && was[..|was|] == was;
  }

  /** A product by a positive number keeps the top bigit nonzero. */
  lemma KeepsNormal(now: seq<Bigit>, was: seq<Bigit>, v: nat)
    requires |now| == |was| && v > 0 && Normal(was) && Num(now) == Num(was) * v
    ensures Normal(now)
    ensures Num(was) > 0 ==> Num(now) > 0
  {
    TopNonzero(now);
    TopNonzero(was);
    MulLe(Num(was), 1, v);
  }

  lemma NormalPush(s: seq<Bigit>, d: Bigit)
    requires d > 0
    ensures Normal(s + [d]) && Num(s + [d]) == Num(s) + d * BPow(|s|)
  {
    NumAppend(s, d);
  }

  /** 2^32 or 2^64: half of the width of the multiplier. */
  function Half(wide: bool): (h: nat)
    ensures h > 0
  {
    if wide then 0x1_0000_0000_0000_0000 else 0x1_0000_0000
  }

  /** x << (half width - 32). */
  function UpShift(x: nat, wide: bool): nat {
    if wide then x * 0x1_0000_0000 else x
  }

  /** x truncated to the width of the multiplier. */
  function Truncate(x: nat, wide: bool): (r: nat)
    ensures !wide && x < 0x1_0000_0000_0000_0000 ==> r == x
    ensures wide && x < 0x1_0000_0000_0000_0000_0000_0000_0000_0000 ==> r == x
  {
    if wide then x % 0x1_0000_0000_0000_0000_0000_0000_0000_0000 else x % 0x1_0000_0000_0000_0000
  }

  predicate Fits(x: nat, wide: bool) {
    x < if wide then 0x1_0000_0000_0000_0000_0000_0000_0000_0000 else 0x1_0000_0000_0000_0000
  }

  /**
   * One step of the 64- or 128-bit multiplication by v = upper * Half + lower. No
   * intermediate result is truncated, because the carry never exceeds the multiplier.
   */
  lemma WideStep(b: Bigit, v: nat, wide: bool, lower: nat, upper: nat, carry: nat)
    requires v == upper * Half(wide) + lower && lower < Half(wide) && upper < Half(wide) && carry <= v
    ensures var result := lower * b + carry % 0x1_0000_0000;
            var next := UpShift(upper * b, wide) + result / 0x1_0000_0000 + carry / 0x1_0000_0000;
            && Fits(result, wide) && Fits(next, wide) && next <= v
            && result % 0x1_0000_0000 + 0x1_0000_0000 * next == b * v + carry
  {
    SplitProduct(b, v, Half(wide), lower, upper);
    MulLe(v, b + 1, 0x1_0000_0000);
    MulLe(lower, b, 0xffff_ffff);
    var ub, lb, bv := upper * b, lower * b, b * v;
    StepArithmetic(wide, ub, lb, carry, bv, v, lower, upper);
  }

  /** The step on the products. */
  lemma StepArithmetic(wide: bool, ub: nat, lb: nat, carry: nat, bv: nat, v: nat, lower: nat, upper: nat)
    requires bv == ub * Half(wide) + lb && bv + v <= 0x1_0000_0000 * v && carry <= v && lb <= lower * 0xffff_ffff
    requires v == upper * Half(wide) + lower && lower < Half(wide) && upper < Half(wide)
    ensures var result := lb + carry % 0x1_0000_0000;
            var next := UpShift(ub, wide) + result / 0x1_0000_0000 + carry / 0x1_0000_0000;
            && Fits(result, wide) && Fits(next, wide) && next <= v
            && result % 0x1_0000_0000 + 0x1_0000_0000 * next == bv + carry
  {
    if wide {
      WideCarry(ub, lb, carry, bv, v);
    } else {
      NarrowCarry(ub, lb, carry, bv, v);
    }
  }

  lemma SplitProduct(b: nat, v: nat, half: nat, lower: nat, upper: nat)
    requires v == upper * half + lower
    ensures b * v == (upper * b) * half + lower * b
    ensures v * (b + 1) == b * v + v
  {
    assert b * (upper * half) == (upper * b) * half;
    assert b * (upper * half + lower) == b * (upper * half) + b * lower;
  }

  lemma NarrowCarry(ub: nat, lb: nat, carry: nat, bv: nat, v: nat)
    requires bv == ub * 0x1_0000_0000 + lb && bv + carry <= 0x1_0000_0000 * v
    ensures var result := lb + carry % 0x1_0000_0000;
            var next := ub + result / 0x1_0000_0000 + carry / 0x1_0000_0000;
            next <= v && result % 0x1_0000_0000 + 0x1_0000_0000 * next == bv + carry
  {}

  lemma WideCarry(ub: nat, lb: nat, carry: nat, bv: nat, v: nat)
    requires bv == ub * 0x1_0000_0000_0000_0000 + lb && bv + carry <= 0x1_0000_0000 * v
    ensures var result := lb + carry % 0x1_0000_0000;
            var next := ub * 0x1_0000_0000 + result / 0x1_0000_0000 + carry / 0x1_0000_0000;
            next <= v && result % 0x1_0000_0000 + 0x1_0000_0000 * next == bv + carry
  {}

  /** Splitting a bigit at a bit position is multiplying it by a power of two. */
  lemma ShiftSplit(b: Bigit, p: nat, q: nat)
    requires p > 0 && q > 0 && p * q == 0x1_0000_0000
    ensures b / q == b * p / 0x1_0000_0000
    ensures b * p % 0x1_0000_0000 == (b % q) * p <= 0x1_0000_0000 - p
    ensures b / q < p
  {
    var h, l := b / q, b % q;
    assert b == q * h + l;
    assert b * p == 0x1_0000_0000 * h + l * p by {
      assert (q * h) * p == (p * q) * h;
    }
    MulLe(p, l, q - 1);
    assert p * (q - 1) == 0x1_0000_0000 - p;
    DivModUnique(b * p, 0x1_0000_0000, h, l * p);
    MulLeCancel(q, h, p);
  }

  lemma {:induction false} BitsOfBigits(k: nat)
    ensures BPow(k) == Pow(2, 32 * k)
  {
    if k > 0 {
      BitsOfBigits(k - 1);
      BPowSucc(k - 1);
      PowAdd(2, 32, 32 * (k - 1));
      assert Pow(2, 32) == 0x1_0000_0000 by { TwoTo32(); }
    }
  }

  lemma TwoTo32()
    ensures Pow(2, 32) == 0x1_0000_0000
  {
    PowAdd(2, 16, 16);
    PowAdd(2, 8, 8);
    assert Pow(2, 8) == 256;
  }

  lemma ShiftValue(n: nat, m: nat, e: nat, shift: nat)
    requires m == n * Pow(2, shift % 32)
    ensures m * BPow(e + shift / 32) == (n * BPow(e)) * Pow(2, shift)
  {
    var q, r := shift / 32, shift % 32;
    assert 32 * q + r == shift;
    hide Pow, BPow;
    BPowAdd(e, q);
    BitsOfBigits(q);
    PowAdd(2, 32 * q, r);
    FourFactors(n, Pow(2, r), BPow(e), BPow(q));
  }

  lemma FourFactors(n: nat, a: nat, b: nat, c: nat)
    ensures (n * a) * (b * c) == (n * b) * (c * a)
  {}
}
