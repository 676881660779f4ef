/** remove_trailing_zeros of the Dragonbox code: division by powers of ten with modular inverses and rotations. */
module TrailingZeros {
  import opened Powers

  /** Rotation right of a word of modulus w (2^32 or 2^64) by one or two bits; p is 2 or 4. */
  function Rotr(x: nat, p: nat, w: nat): nat
    requires p > 0 && w > 0
  {
    x / p + (x % p) * (w / p)
  }

  /** (x * y) mod w: unsigned multiplication with wrap-around. */
  function WrapMul(x: nat, y: nat, w: nat): (r: nat)
    requires w > 0
    ensures r < w
  {
    (x * y) % w
  }

  /** n0 is n followed by s zeros. */
  predicate Scaled(n0: nat, n: nat, s: nat) {
    n * Pow(10, s) == n0
  }

  predicate DivisibleBy(n: nat, d: nat)
    requires d > 0
  {
    n % d == 0
  }

  /** n0 is n followed by s zeros, and s is as large as possible. */
  predicate Stripped(n0: nat, n: nat, s: nat) {
    Scaled(n0, n, s) && !DivisibleBy(n, 10)
  }

  /** Stripped pins down both results: s is the largest exponent with 10^s dividing n0. */
  lemma StrippedIsMaximal(n0: nat, n: nat, s: nat, t: nat)
    requires n0 > 0 && Stripped(n0, n, s)
    ensures n0 % Pow(10, t) == 0 <==> t <= s
  {
    if t <= s {
      PowAdd(10, t, s - t);
      Multiple(n0, n, Pow(10, t), Pow(10, s - t));
    } else {
      PowAdd(10, s, t - s);
      NotMultiple(n0, n, Pow(10, s), Pow(10, t - s), Pow(10, t - s - 1));
    }
  }

  lemma Multiple(n0: nat, n: nat, p: nat, q: nat)
    requires p > 0 && n0 == n * (p * q)
    ensures n0 % p == 0
  {
    assert n0 == p * (n * q);
    MultipleMod(p, n * q);
  }

  lemma NotMultiple(n0: nat, n: nat, p: nat, q: nat, q10: nat)
    requires p > 0 && q > 0 && n0 == n * p && q == 10 * q10 && n % 10 != 0
    ensures n0 % (p * q) != 0
  {
    var k := n0 / (p * q);
    assert n0 == (p * q) * k + n0 % (p * q);
    assert (p * q) * k == p * (10 * (q10 * k));
    if n0 % (p * q) == 0 {
      CancelNat(p, n, 10 * (q10 * k));
      assert false;
    }
  }

  /** o * (n * inv mod w) is n modulo w. */
  lemma TimesInverse(n: nat, w: nat, o: nat, inv: nat, c: nat, a: nat, m: nat)
    requires o * inv == 1 + c * w && n * inv == a * w + m
    ensures o * m == n + (n * c - o * a) * w
  {
    assert o * (n * inv) == n * (o * inv);
    assert o * (a * w + m) == (o * a) * w + o * m;
    assert n * (1 + c * w) == n + (n * c) * w;
  }

  lemma Congruent(x: int, y: int, t: int, w: int)
    requires 0 <= x < w && 0 <= y < w && x == y + t * w
    ensures x == y
  {
    assert t * w == w * t;
    SmallMultiple(w, t);
  }

  /** If o is invertible modulo w, o * m is n modulo w, and o * k is n, then m is k. */
  lemma InverseUnique(m: nat, k: nat, n: nat, w: nat, o: nat, inv: nat, c: nat, t: int)
    requires m < w && k < w
    requires o * inv == 1 + c * w
    requires o * m == n + t * w && o * k == n
    ensures m == k
  {
    var d := m - k;
    assert o * d == t * w;
    assert inv * (o * d) == (o * inv) * d;
    assert (1 + c * w) * d == d + (c * d) * w;
    assert inv * (t * w) == (inv * t) * w;
    assert d == (inv * t) * w - (c * d) * w == (inv * t - c * d) * w;
    Congruent(m, k, inv * t - c * d, w);
  }

  lemma RotrSmall(m: nat, w: nat, p: nat, lim: nat)
    requires p > 1 && w % p == 0 && m < w
    requires Rotr(m, p, w) <= lim < w / p
    ensures m == p * Rotr(m, p, w)
  {
    var b := m % p;
    assert b * (w / p) <= lim;
    MulLeCancel(w / p, b, 1);
    assert m == p * (m / p) + b;
  }

  lemma RotrMultiple(k: nat, w: nat, p: nat)
    requires p > 0 && w > 0
    ensures Rotr(p * k, p, w) == k
  {
    MultipleMod(p, k);
  }

  lemma QuotientFromTest(n: nat, w: nat, o: nat, p: nat, m: nat, q: nat, t: int, lim: nat)
    requires o > 0 && p > 0 && n < w
    requires o * m == n + t * w && m == p * q
    requires (o * p) * lim < w && q <= lim
    ensures n == (o * p) * q
  {
    assert o * m == (o * p) * q;
    MulLe(o * p, q, lim);
    Congruent((o * p) * q, n, t, w);
  }

  lemma TestFromQuotient(n: nat, w: nat, o: nat, p: nat, inv: nat, c: nat, m: nat, k: nat, t: int, lim: nat)
    requires o > 0 && p > 0 && n < w && m < w
    requires o * inv == 1 + c * w
    requires o * m == n + t * w && n == (o * p) * k
    requires w <= (o * p) * (lim + 1)
    ensures m == p * k && k <= lim
  {
    MulLeCancel(o * p, k, lim + 1);
    assert n == o * (p * k);
    MulLe(p * k, 1, o);
    InverseUnique(m, p * k, n, w, o, inv, c, t);
  }

  /**
   * The divisibility test behind both variants: inv is the inverse of the odd part o of
   * the divisor o * p modulo w. The rotated product is small exactly when o * p divides
   * n, and it is then the quotient.
   */
  lemma InverseTest(n: nat, w: nat, o: nat, p: nat, d: nat, inv: nat, c: nat, lim: nat)
    requires o > 0 && p > 1 && d == o * p && w % p == 0 && n < w
    requires o * inv == 1 + c * w
    requires d * lim < w <= d * (lim + 1) && lim < w / p
    ensures var q := Rotr(WrapMul(n, inv, w), p, w);
            && (q <= lim <==> n % d == 0)
            && (q <= lim ==> n == d * q)
  {
    var m, t := InverseProduct(n, w, o, inv, c);
    hide *;
    var q := Rotr(m, p, w);
    if q <= lim {
      RotrSmall(m, w, p, lim);
      QuotientFromTest(n, w, o, p, m, q, t, lim);
      MultipleMod(d, q);
    }
    if n % d == 0 {
      var k := ExactQuotient(n, d);
      TestFromQuotient(n, w, o, p, inv, c, m, k, t, lim);
      RotrMultiple(k, w, p);
    }
  }

  lemma InverseProduct(n: nat, w: nat, o: nat, inv: nat, c: nat) returns (m: nat, t: int)
    requires w > 0 && o * inv == 1 + c * w
    ensures m == WrapMul(n, inv, w) && o * m == n + t * w
  {
    m := WrapMul(n, inv, w);
    var a := n * inv / w;
    t := n * c - o * a;
    TimesInverse(n, w, o, inv, c, a, m);
  }

  lemma ExactQuotient(n: nat, d: nat) returns (k: nat)
    requires d > 0 && n % d == 0
    ensures n == d * k
  {
    k := n / d;
  }

  const MOD_INV_5_32: nat := 0xcccccccd
  const MOD_INV_25_32: nat := 0xc28f5c29
  const MOD_INV_5_64: nat := 0xcccccccccccccccd
  const MOD_INV_25_64: nat := 0x8f5c28f5c28f5c29

  /** The rotated product that either variant compares with max/100 (or max/10). */
  function Rotated100(n: nat, wide: bool): nat {
    if wide then Rotr(WrapMul(n, MOD_INV_25_64, 0x1_0000_0000_0000_0000), 4, 0x1_0000_0000_0000_0000)
    else Rotr(WrapMul(n, MOD_INV_25_32, 0x1_0000_0000), 4, 0x1_0000_0000)
  }

  function Rotated10(n: nat, wide: bool): nat {
    if wide then Rotr(WrapMul(n, MOD_INV_5_64, 0x1_0000_0000_0000_0000), 2, 0x1_0000_0000_0000_0000)
    else Rotr(WrapMul(n, MOD_INV_5_32, 0x1_0000_0000), 2, 0x1_0000_0000)
  }

  function MaxUInt(wide: bool): nat {
    if wide then 0xffff_ffff_ffff_ffff else 0xffff_ffff
  }

  /** 100 divides n exactly when the rotated product is at most max/100, which is then the quotient. */
  lemma Test100(n: nat, wide: bool)
    requires n <= MaxUInt(wide)
    ensures if Rotated100(n, wide) <= MaxUInt(wide) / 100 then n == 100 * Rotated100(n, wide) else !DivisibleBy(n, 100)
  {
    if wide {
      InverseTest(n, 0x1_0000_0000_0000_0000, 25, 4, 100, MOD_INV_25_64, 14, MaxUInt(wide) / 100);
    } else {
      InverseTest(n, 0x1_0000_0000, 25, 4, 100, MOD_INV_25_32, 19, MaxUInt(wide) / 100);
    }
  }

  lemma Test10(n: nat, wide: bool)
    requires n <= MaxUInt(wide)
    ensures if Rotated10(n, wide) <= MaxUInt(wide) / 10 then n == 10 * Rotated10(n, wide) else !DivisibleBy(n, 10)
  {
    if wide {
      InverseTest(n, 0x1_0000_0000_0000_0000, 5, 2, 10, MOD_INV_5_64, 4, MaxUInt(wide) / 10);
    } else {
      InverseTest(n, 0x1_0000_0000, 5, 2, 10, MOD_INV_5_32, 4, MaxUInt(wide) / 10);
    }
  }

  /**
   * Portable 64 x 64 -> 128 bit multiplication from 32-bit halves. Every product and sum
   * is reduced modulo 2^64 as in the source; the contract says nothing is lost.
   */
  function Umul128(x: nat, y: nat): (r: (nat, nat))
    requires x < 0x1_0000_0000_0000_0000 && y < 0x1_0000_0000_0000_0000
    ensures r.0 * 0x1_0000_0000_0000_0000 + r.1 == x * y && r.0 < 0x1_0000_0000_0000_0000 && r.1 < 0x1_0000_0000_0000_0000
  {
    var a, b, c, d := x / 0x1_0000_0000, x % 0x1_0000_0000, y / 0x1_0000_0000, y % 0x1_0000_0000;
    HalfProducts(x, y, a, b, c, d);
    AddHalves(Wrap(a * c), Wrap(b * c), Wrap(a * d), Wrap(b * d))
  }

  /** A 64-bit result. */
  function Wrap(x: nat): (r: nat)
    ensures x < 0x1_0000_0000_0000_0000 ==> r == x
  {
    x % 0x1_0000_0000_0000_0000
  }

  function AddHalves(ac: nat, bc: nat, ad: nat, bd: nat): (r: (nat, nat))
    requires ac <= 0xffff_fffe_0000_0001 && bc <= 0xffff_fffe_0000_0001
    requires ad <= 0xffff_fffe_0000_0001 && bd <= 0xffff_fffe_0000_0001
    ensures r.0 * 0x1_0000_0000_0000_0000 + r.1 == ac * 0x1_0000_0000_0000_0000 + (bc + ad) * 0x1_0000_0000 + bd
    ensures r.0 < 0x1_0000_0000_0000_0000 && r.1 < 0x1_0000_0000_0000_0000
  {
    Carries(ac, bc, ad, bd);
    var intermediate := Wrap(bd / 0x1_0000_0000 + ad % 0x1_0000_0000 + bc % 0x1_0000_0000);
    (Wrap(ac + intermediate / 0x1_0000_0000 + ad / 0x1_0000_0000 + bc / 0x1_0000_0000),
     Wrap(Wrap(intermediate * 0x1_0000_0000) + bd % 0x1_0000_0000))
  }

  lemma Carries(ac: nat, bc: nat, ad: nat, bd: nat)
    requires ac <= 0xffff_fffe_0000_0001 && bc <= 0xffff_fffe_0000_0001
    requires ad <= 0xffff_fffe_0000_0001 && bd <= 0xffff_fffe_0000_0001
    ensures var intermediate := bd / 0x1_0000_0000 + ad % 0x1_0000_0000 + bc % 0x1_0000_0000;
            var high := ac + intermediate / 0x1_0000_0000 + ad / 0x1_0000_0000 + bc / 0x1_0000_0000;
            var low := Wrap(intermediate * 0x1_0000_0000) + bd % 0x1_0000_0000;
            && intermediate < 0x1_0000_0000_0000_0000 && low < 0x1_0000_0000_0000_0000 && high < 0x1_0000_0000_0000_0000
            && high * 0x1_0000_0000_0000_0000 + low == ac * 0x1_0000_0000_0000_0000 + (bc + ad) * 0x1_0000_0000 + bd
  {}

  lemma HalfBound(x: nat, y: nat)
    requires x < 0x1_0000_0000 && y < 0x1_0000_0000
    ensures 0 <= x * y <= 0xffff_fffe_0000_0001
  {
    MulBound(x, y, 0xffff_ffff);
  }

  lemma HalfProducts(x: nat, y: nat, a: nat, b: nat, c: nat, d: nat)
    requires x == a * 0x1_0000_0000 + b && y == c * 0x1_0000_0000 + d
    requires a < 0x1_0000_0000 && b < 0x1_0000_0000 && c < 0x1_0000_0000 && d < 0x1_0000_0000
    ensures 0 <= a * c <= 0xffff_fffe_0000_0001 && 0 <= b * c <= 0xffff_fffe_0000_0001
    ensures 0 <= a * d <= 0xffff_fffe_0000_0001 && 0 <= b * d <= 0xffff_fffe_0000_0001
    ensures x * y == (a * c) * 0x1_0000_0000_0000_0000 + (b * c + a * d) * 0x1_0000_0000 + b * d
  {
    HalfBound(a, c);
    HalfBound(b, c);
    HalfBound(a, d);
    HalfBound(b, d);
    assert x * y == 0x1_0000_0000 * (a * y) + b * y;
    assert a * y == 0x1_0000_0000 * (a * c) + a * d;
    assert b * y == 0x1_0000_0000 * (b * c) + b * d;
  }

  /** ceil(2^90 / 10^8). */
  const MAGIC: nat := 12379400392853802749

  /** The product with the magic number, the divisibility test on it, and the quotient cast to 32 bits. */
  function MagicProduct(n: nat): (nat, nat)
    requires n < 0x1_0000_0000_0000_0000
  {
    Umul128(n, MAGIC)
  }

  predicate LooksDivisible(nm: (nat, nat)) {
    nm.0 % 0x400_0000 == 0 && nm.1 < MAGIC
  }

  function CastQuotient(nm: (nat, nat)): nat {
    nm.0 / 0x400_0000 % 0x1_0000_0000
  }

  /** The test recognizes exactly the multiples of 10^8; the cast keeps the quotient modulo 2^32. */
  lemma MagicTest(n: nat)
    requires n < 0x1_0000_0000_0000_0000
    ensures var nm := MagicProduct(n);
            && (LooksDivisible(nm) <==> n % 100_000_000 == 0)
            && (LooksDivisible(nm) ==> CastQuotient(nm) == n / 100_000_000 % 0x1_0000_0000)
  {
    var nm := MagicProduct(n);
    hide Umul128;
    MagicSplit(n / 100_000_000, n % 100_000_000, nm.0, nm.1);
  }

  lemma MagicSplit(q: nat, r: nat, high: nat, low: nat)
    requires q < 0x100_0000_0000 && r < 100_000_000 && low < 0x1_0000_0000_0000_0000
    requires high * 0x1_0000_0000_0000_0000 + low == (100_000_000 * q + r) * 12379400392853802749
    ensures LooksDivisible((high, low)) <==> r == 0
    ensures r == 0 ==> high / 0x400_0000 == q
  {
    var h, l := high / 0x400_0000, high % 0x400_0000;
    hide *;
    MagicRest(q, r, h, l, low);
  }

  /** 10^8 times the magic number exceeds 2^90 by 875776. */
  lemma MagicRest(q: nat, r: nat, h: nat, l: nat, low: nat)
    requires q < 0x100_0000_0000 && r < 100_000_000 && l < 0x400_0000 && low < 0x1_0000_0000_0000_0000
    requires (h * 0x400_0000 + l) * 0x1_0000_0000_0000_0000 + low == (100_000_000 * q + r) * 12379400392853802749
    ensures h == q
    ensures l == 0 && low < 12379400392853802749 <==> r == 0
  {
    var rest := q * 875776 + r * 12379400392853802749;
    var x := l * 0x1_0000_0000_0000_0000 + low;
    assert (h - q) * 0x400_0000_0000_0000_0000_0000 == rest - x;
    assert 0 <= rest < 0x400_0000_0000_0000_0000_0000;
    assert 0 <= x < 0x400_0000_0000_0000_0000_0000;
    assert h - q < 1 && h - q > -1;
  }

  predicate EvenCount(s: nat) {
    s % 2 == 0
  }

  /** s | 1 */
  function WithLowBit(s: nat): nat {
    if s % 2 == 0 then s + 1 else s
  }

  /** The count is even throughout the loop, so setting its low bit adds one. */
  lemma EvenCounts(s: nat)
    requires EvenCount(s)
    ensures EvenCount(s + 2) && WithLowBit(s) == s + 1
  {}

  /** The two loops are the same code for 32 and for 64 bits; s0 is 0, or 8 when called from the 64-bit variant. */
  method StripByInverse(n0: nat, s0: nat, wide: bool) returns (n: nat, s: nat)
    requires 0 < n0 <= MaxUInt(wide) && EvenCount(s0)
    ensures s >= s0 && Stripped(n0, n, s - s0)
  {
    n, s := n0, s0;
    assert Scaled(n0, n, 0);
    hide *;
    while true
      invariant 0 < n <= MaxUInt(wide) && s >= s0 && EvenCount(s)
      invariant Scaled(n0, n, s - s0)
      decreases n
    {
      EvenCounts(s);
      TwoZeros(n0, n, s - s0, wide);
      var q := Rotated100(n, wide);
      if q > MaxUInt(wide) / 100 {
        break;
      }
      n := q;
      s := s + 2;
    }
    LastZero(n0, n, s - s0, wide);
    var q := Rotated10(n, wide);
    if q <= MaxUInt(wide) / 10 {
      n := q;
      s := WithLowBit(s);
    }
  }

  /** One round of the loop: two zeros less, or none that come in pairs. */
  lemma TwoZeros(n0: nat, n: nat, s: nat, wide: bool)
    requires 0 < n <= MaxUInt(wide) && Scaled(n0, n, s)
    ensures var q := Rotated100(n, wide);
            if q > MaxUInt(wide) / 100 then !DivisibleBy(n, 100) else 0 < q < n <= MaxUInt(wide) && Scaled(n0, q, s + 2)
  {
    hide *;
    Test100(n, wide);
    MoreZeros(n0, n, Rotated100(n, wide), s);
  }

  /** The step after the loop. */
  lemma LastZero(n0: nat, n: nat, s: nat, wide: bool)
    requires 0 < n <= MaxUInt(wide) && Scaled(n0, n, s) && !DivisibleBy(n, 100)
    ensures var q := Rotated10(n, wide);
            if q <= MaxUInt(wide) / 10 then Stripped(n0, q, s + 1) else Stripped(n0, n, s)
  {
    hide *;
    Test10(n, wide);
    var q := Rotated10(n, wide);
    if q <= MaxUInt(wide) / 10 {
      MoreZeros(n0, n, q, s);
      LastDigit(n, q);
      StrippedIntro(n0, q, s + 1);
    } else {
      StrippedIntro(n0, n, s);
    }
  }

  lemma LastDigit(n: nat, q: nat)
    requires n == 10 * q && !DivisibleBy(n, 100)
    ensures !DivisibleBy(q, 10)
  {}

  lemma StrippedIntro(n0: nat, n: nat, s: nat)
    requires Scaled(n0, n, s) && !DivisibleBy(n, 10)
    ensures Stripped(n0, n, s)
  {}

  lemma MoreZeros(n0: nat, n: nat, q: nat, s: nat)
    requires Scaled(n0, n, s)
    ensures n == 100 * q ==> Scaled(n0, q, s + 2)
    ensures n == 10 * q ==> Scaled(n0, q, s + 1)
  {
    assert Pow(10, s + 1) == 10 * Pow(10, s);
    assert Pow(10, s + 2) == 10 * Pow(10, s + 1);
  }

  /** The 32-bit variant. */
  method RemoveTrailingZeros32(n0: nat, s0: nat) returns (n: nat, s: nat)
    requires 0 < n0 < 0x1_0000_0000 && EvenCount(s0)
    ensures s >= s0 && Stripped(n0, n, s - s0)
  {
    n, s := StripByInverse(n0, s0, false);
  }

  /**
   * The 64-bit variant. The quotient by 10^8 is cast to 32 bits, so an n that is a multiple
   * of 10^8 must have a quotient below 2^32; see TruncatedQuotient for the rest.
   */
  method RemoveTrailingZeros64(n0: nat) returns (n: nat, s: nat)
    requires 0 < n0 < 0x1_0000_0000_0000_0000
    requires n0 % 100_000_000 == 0 ==> n0 / 100_000_000 < 0x1_0000_0000
    ensures Stripped(n0, n, s)
  {
    CastExact(n0);
    assert EvenCount(0) && EvenCount(8);
    hide *;
    var nm := MagicProduct(n0);
    if LooksDivisible(nm) {
      var n32 := CastQuotient(nm);
      n, s := RemoveTrailingZeros32(n32, 8);
      EightZeros(n0, n32, n, s);
    } else {
      n, s := StripByInverse(n0, 0, true);
    }
  }

  lemma CastExact(n0: nat)
    requires 0 < n0 < 0x1_0000_0000_0000_0000
    requires n0 % 100_000_000 == 0 ==> n0 / 100_000_000 < 0x1_0000_0000
    ensures n0 <= MaxUInt(true)
    ensures LooksDivisible(MagicProduct(n0)) ==>
              && 0 < CastQuotient(MagicProduct(n0)) < 0x1_0000_0000
              && n0 == 100_000_000 * CastQuotient(MagicProduct(n0))
  {
    MagicTest(n0);
    assert n0 <= MaxUInt(true);
    hide *;
    CastArithmetic(n0, CastQuotient(MagicProduct(n0)), LooksDivisible(MagicProduct(n0)));
  }

  lemma CastArithmetic(n0: nat, q: nat, b: bool)
    requires n0 > 0
    requires n0 % 100_000_000 == 0 ==> n0 / 100_000_000 < 0x1_0000_0000
    requires b ==> n0 % 100_000_000 == 0 && q == n0 / 100_000_000 % 0x1_0000_0000
    ensures b ==> 0 < q < 0x1_0000_0000 && n0 == 100_000_000 * q
  {}

  lemma EightZeros(n0: nat, q: nat, n: nat, s: nat)
    requires n0 == 100_000_000 * q && s >= 8 && Stripped(q, n, s - 8)
    ensures Stripped(n0, n, s)
  {
    PowAdd(10, 8, s - 8);
    assert Pow(10, 8) == 100_000_000;
    HundredMillion(n, Pow(10, s - 8));
  }

  /**
   * Outside the precondition of RemoveTrailingZeros64 the cast drops high bits of the
   * quotient, so no way of stripping the cast value yields a pair that denotes n0 again.
   */
  lemma TruncatedQuotient(n0: nat, n: nat, s: nat)
    requires 0 < n0 < 0x1_0000_0000_0000_0000 && n0 % 100_000_000 == 0 && s >= 8
    requires Scaled(CastQuotient(MagicProduct(n0)), n, s - 8)
    ensures Scaled(n0, n, s) <==> n0 / 100_000_000 < 0x1_0000_0000
  {
    MagicTest(n0);
    PowAdd(10, 8, s - 8);
    assert Pow(10, 8) == 100_000_000;
    hide MagicProduct, LooksDivisible, CastQuotient, Pow;
    TruncatedArithmetic(n0, CastQuotient(MagicProduct(n0)), n, Pow(10, s - 8));
  }

  /**
   * 2^32 * 10^8 is the smallest such input. Its quotient is cast to zero, which the 32-bit
   * variant excludes by an assertion; its loop accepts zero as a multiple of 100 and stays at zero.
   */
  lemma TruncatedToZero()
    ensures var nm := MagicProduct(429_496_729_600_000_000);
            LooksDivisible(nm) && CastQuotient(nm) == 0
    ensures Rotated100(0, false) == 0 && Rotated100(0, false) <= MaxUInt(false) / 100
    ensures forall n: nat :: 0 < n < 429_496_729_600_000_000 && LooksDivisible(MagicProduct(n)) ==>
                               CastQuotient(MagicProduct(n)) == n / 100_000_000
  {
    ZeroRotated();
    hide *;
    LargeQuotient();
    MagicTest(429_496_729_600_000_000);
    forall n: nat | 0 < n < 429_496_729_600_000_000 && LooksDivisible(MagicProduct(n))
      ensures CastQuotient(MagicProduct(n)) == n / 100_000_000
    {
      MagicTest(n);
      SmallQuotient(n);
    }
  }

  lemma ZeroRotated()
    ensures Rotated100(0, false) == 0 && Rotated100(0, false) <= MaxUInt(false) / 100
  {}

  lemma LargeQuotient()
    ensures 429_496_729_600_000_000 % 100_000_000 == 0 && 429_496_729_600_000_000 / 100_000_000 % 0x1_0000_0000 == 0
  {}

  lemma SmallQuotient(n: nat)
    requires n < 429_496_729_600_000_000
    ensures n / 100_000_000 % 0x1_0000_0000 == n / 100_000_000
  {}

  lemma TruncatedArithmetic(n0: nat, q: nat, n: nat, p: nat)
    requires n0 % 100_000_000 == 0 && q == n0 / 100_000_000 % 0x1_0000_0000 && n * p == q
    ensures n * (100_000_000 * p) == n0 <==> n0 / 100_000_000 < 0x1_0000_0000
  {
    HundredMillion(n, p);
  }

  lemma HundredMillion(n: nat, p: nat)
    ensures n * (100_000_000 * p) == 100_000_000 * (n * p)
  {}
}
