/** Integer and real powers, and the few laws about them that the other modules use. */
module Powers {

  function Pow(b: nat, e: nat): (r: nat)
    ensures b > 0 ==> r > 0
  {
    if e == 0 then 1 else b * Pow(b, e - 1)
  }

  /** 2^e and 10^e for any integer exponent. */
  function RTwo(e: int): (r: real)
    ensures r > 0.0
  {
    if e >= 0 then Pow(2, e) as real else 1.0 / Pow(2, -e) as real
  }

  function RTen(e: int): (r: real)
    ensures r > 0.0
  {
    if e >= 0 then Pow(10, e) as real else 1.0 / Pow(10, -e) as real
  }

  lemma RTwoSucc(e: int)
    ensures RTwo(e + 1) == 2.0 * RTwo(e)
  {
    if e < 0 {
      assert Pow(2, -e) == 2 * Pow(2, -e - 1);
      var p := Pow(2, -e - 1) as real;
      HalfOf(2.0, p);
    }
  }

  lemma RTenSucc(e: int)
    ensures RTen(e + 1) == 10.0 * RTen(e)
  {
    if e < 0 {
      assert Pow(10, -e) == 10 * Pow(10, -e - 1);
      var p := Pow(10, -e - 1) as real;
      HalfOf(10.0, p);
    }
  }

  lemma HalfOf(c: real, p: real)
    requires c > 0.0 && p > 0.0
    ensures c * p > 0.0 && 1.0 / p == c * (1.0 / (c * p))
  {}

  lemma {:induction false} PowAdd(b: nat, m: nat, n: nat)
    ensures Pow(b, m + n) == Pow(b, m) * Pow(b, n)
  {
    if m > 0 {
      PowAdd(b, m - 1, n);
      assert Pow(b, m + n) == b * Pow(b, m - 1 + n);
      MulAssoc(b, Pow(b, m - 1), Pow(b, n));
    }
  }

  lemma SmallPowersOfTen()
    ensures Pow(10, 0) == 1 && Pow(10, 1) == 10 && Pow(10, 2) == 100 && Pow(10, 3) == 1000
  {}

  lemma MulAssoc(a: int, b: int, c: int)
    ensures a * (b * c) == (a * b) * c
  {}

  lemma {:induction false} PowMono(b: nat, m: nat, n: nat)
    requires b > 0 && m <= n
    ensures Pow(b, m) <= Pow(b, n)
  {
    if m < n {
      PowMono(b, m, n - 1);
      assert Pow(b, n) == b * Pow(b, n - 1) >= Pow(b, n - 1);
    }
  }

  /** A geometric progression over all integers turns sums into products. */
  ghost predicate Ratio(f: int -> real, c: real, e: int) {
    f(e + 1) == c * f(e)
  }

  lemma {:induction false} GeometricAdd(f: int -> real, c: real, m: int, n: int)
    requires c > 0.0 && f(0) == 1.0
    requires forall e :: Ratio(f, c, e)
    ensures f(m + n) == f(m) * f(n)
    decreases if m < 0 then -m else m
  {
    if m > 0 {
      GeometricAdd(f, c, m - 1, n);
      assert Ratio(f, c, m - 1) && Ratio(f, c, m - 1 + n);
      RMulAssoc(c, f(m - 1), f(n));
    } else if m < 0 {
      GeometricAdd(f, c, m + 1, n);
      assert Ratio(f, c, m) && Ratio(f, c, m + n);
      RMulAssoc(c, f(m), f(n));
      assert c * f(m + n) == c * (f(m) * f(n));
      RCancel(c, f(m + n), f(m) * f(n));
    }
  }

  lemma RTwoZero()
    ensures RTwo(0) == 1.0
  {}

  lemma RTwoAdd(m: int, n: int)
    ensures RTwo(m + n) == RTwo(m) * RTwo(n)
  {
    RTwoZero();
    hide RTwo, Pow;
    var f := (e: int) => RTwo(e);
    forall e ensures Ratio(f, 2.0, e) { RTwoSucc(e); }
    GeometricAdd(f, 2.0, m, n);
  }

  lemma RTenZero()
    ensures RTen(0) == 1.0
  {}

  lemma RTenAdd(m: int, n: int)
    ensures RTen(m + n) == RTen(m) * RTen(n)
  {
    RTenZero();
    hide RTen, Pow;
    var f := (e: int) => RTen(e);
    forall e ensures Ratio(f, 10.0, e) { RTenSucc(e); }
    GeometricAdd(f, 10.0, m, n);
  }

  lemma RMulAssoc(a: real, b: real, c: real)
    ensures a * (b * c) == (a * b) * c
  {}

  lemma RCancel(a: real, x: real, y: real)
    requires a != 0.0 && a * x == a * y
    ensures x == y
  {}

  /** Chains of inequalities between products, which the solver does not see by itself. */
  lemma RLt(p: real, q: real, r: real)
    requires p < q <= r
    ensures p < r
  {}

  lemma RCancelLe(a: real, x: real, y: real)
    requires a > 0.0
    ensures a * x <= a * y <==> x <= y
    ensures a * x < a * y <==> x < y
  {}

  lemma {:induction false} RTenMono(m: int, n: int)
    requires m <= n
    ensures RTen(m) <= RTen(n)
    ensures m < n ==> RTen(m) < RTen(n)
    decreases n - m
  {
    if m < n {
      RTenMono(m, n - 1);
      RTenSucc(n - 1);
    }
  }

  lemma {:induction false} RTwoMono(m: int, n: int)
    requires m <= n
    ensures RTwo(m) <= RTwo(n)
    decreases n - m
  {
    if m < n {
      RTwoMono(m, n - 1);
      RTwoSucc(n - 1);
    }
  }

  lemma CancelNat(p: int, x: int, y: int)
    requires p != 0 && p * x == p * y
    ensures x == y
  {}

  lemma MulLe(p: nat, x: int, y: int)
    requires x <= y
    ensures p * x <= p * y
  {}

  lemma MulBound(x: nat, y: nat, m: nat)
    requires x <= m && y <= m
    ensures 0 <= x * y <= m * m
  {
    MulLe(x, y, m);
    MulLe(m, x, m);
  }

  lemma MulLeCancel(p: nat, x: int, y: int)
    requires p > 0
    ensures p * x <= p * y <==> x <= y
    ensures p * x < p * y <==> x < y
  {}

  /** A multiple of d strictly between -d and d is zero. */
  lemma SmallMultiple(d: int, k: int)
    requires -d < d * k < d
    ensures k == 0
  {
    MulLeCancel(d, k, 1);
    MulLeCancel(d, -1, k);
    assert d * 1 == d && d * -1 == -d;
  }

  lemma DivModUnique(n: int, d: int, q: int, r: int)
    requires n == d * q + r && 0 <= r < d
    ensures n / d == q && n % d == r
  {
    assert n == d * (n / d) + n % d;
    assert d * (q - n / d) == n % d - r;
    SmallMultiple(d, q - n / d);
  }

  lemma MultipleMod(d: int, q: int)
    requires d > 0
    ensures (d * q) % d == 0 && (d * q) / d == q
  {
    DivModUnique(d * q, d, q, 0);
  }

  /** The integer and the real powers agree on natural exponents. */
  lemma {:induction false} RTenPow(e: nat)
    ensures RTen(e) == Pow(10, e) as real
  {
    if e > 0 {
      RTenPow(e - 1);
    }
  }

  lemma {:induction false} RTwoPow(e: nat)
    ensures RTwo(e) == Pow(2, e) as real
  {
    if e > 0 {
      RTwoPow(e - 1);
    }
  }
}
