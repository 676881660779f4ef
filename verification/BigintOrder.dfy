/** Order and subtraction of bigit sequences with exponents: what compare, add_compare and subtract_aligned rely on. */
module BigintOrder {
  import opened Powers
  import opened Bigits
  import opened BigintArithmetic

  function Val(s: seq<Bigit>, e: nat): nat {
    Num(s) * BPow(e)
  }

  /** The bigit at position i of the number s * 2^(32 e): get_bigit. */
  function Digit(s: seq<Bigit>, e: nat, i: nat): nat {
    if e <= i < e + |s| then s[i - e] else 0
  }

  /** The number without its bigits below position p. */
  function High(s: seq<Bigit>, e: nat, p: nat): (h: nat) {
    Div(Val(s, e), BPow(p))
  }

  function Div(x: nat, d: nat): (q: nat)
    requires d > 0
    ensures q * d <= x < (q + 1) * d
  {
    assert x == d * (x / d) + x % d;
    MulLeCancel(d, 0, x / d + 1);
    assert (x / d + 1) * d == d * (x / d) + d;
    x / d
  }

  lemma DivIs(x: nat, d: nat, q: nat, r: nat)
    requires x == q * d + r && r < d
    ensures Div(x, d) == q
  {
    DivModUnique(x, d, q, r);
  }

  lemma HighStep(s: seq<Bigit>, e: nat, p: nat)
    ensures High(s, e, p) == Digit(s, e, p) + 0x1_0000_0000 * High(s, e, p + 1)
  {
    if p < e {
      HighExact(s, e, p);
      HighExact(s, e, p + 1);
      BPowSucc(e - (p + 1));
      assert e - (p + 1) + 1 == e - p;
      assert Num(s) * (0x1_0000_0000 * BPow(e - p - 1)) == 0x1_0000_0000 * (Num(s) * BPow(e - p - 1));
    } else if p < e + |s| {
      BigitAt(s, p - e);
      HighInside(s, e, p);
      HighInside(s, e, p + 1);
    } else {
      HighTop(s, e, p);
      HighTop(s, e, p + 1);
    }
  }

  /** Below the exponent nothing is lost. */
  lemma HighExact(s: seq<Bigit>, e: nat, p: nat)
    requires p <= e
    ensures High(s, e, p) == Num(s) * BPow(e - p)
    ensures Val(s, e) == High(s, e, p) * BPow(p)
  {
    BPowAdd(e - p, p);
    assert e - p + p == e;
    hide Num, BPow;
    ExactQuotient(Num(s), BPow(e - p), BPow(p));
  }

  lemma ExactQuotient(n: nat, a: nat, b: nat)
    requires b > 0
    ensures n * (a * b) == (n * a) * b && Div(n * (a * b), b) == n * a
  {
    DivIs((n * a) * b, b, n * a, 0);
  }

  lemma HighInside(s: seq<Bigit>, e: nat, p: nat)
    requires p >= e
    ensures High(s, e, p) == Num(s) / BPow(p - e)
  {
    BPowAdd(p - e, e);
    assert p - e + e == p;
    hide Num, BPow;
    CancelQuotient(Num(s), BPow(p - e), BPow(e));
  }

  lemma CancelQuotient(n: nat, a: nat, b: nat)
    requires a > 0 && b > 0
    ensures Div(n * b, a * b) == n / a
  {
    var q, r := n / a, n % a;
    assert n == a * q + r;
    assert n * b == q * (a * b) + r * b by {
      assert (a * q + r) * b == (a * q) * b + r * b;
      assert (a * q) * b == q * (a * b);
    }
    MulLeCancel(b, r, a);
    DivIs(n * b, a * b, q, r * b);
  }

  lemma HighTop(s: seq<Bigit>, e: nat, p: nat)
    requires p >= e + |s|
    ensures High(s, e, p) == 0 && Val(s, e) < BPow(p)
  {
    ValBound(s, e);
    BPowMono(e + |s|, p);
    DivIs(Val(s, e), BPow(p), 0, Val(s, e));
  }

  lemma ValBound(s: seq<Bigit>, e: nat)
    ensures Val(s, e) < BPow(e + |s|)
  {
    NumBound(s);
    BPowAdd(|s|, e);
    assert |s| + e == e + |s|;
    MulLeCancel(BPow(e), Num(s), BPow(|s|));
    assert BPow(e) * Num(s) == Val(s, e);
  }

  /** A nonzero normal number is as large as its number of bigits says. */
  lemma ValLow(s: seq<Bigit>, e: nat)
    requires Normal(s) && Val(s, e) > 0
    ensures Val(s, e) >= BPow(e + |s| - 1)
  {
    if |s| == 1 {
      assert s[..0] == [];
      BPowZero();
      assert Num(s) == s[0];
      ZeroTimes(BPow(e));
    }
    TopNonzero(s);
    BPowAdd(|s| - 1, e);
    assert |s| - 1 + e == e + |s| - 1;
    MulLe(BPow(e), BPow(|s| - 1), Num(s));
  }

  lemma ZeroTimes(p: nat)
    ensures 0 * p == 0
  {}

  /** Bigits above position p decide the order. */
  lemma HighOrder(s: seq<Bigit>, e: nat, t: seq<Bigit>, f: nat, p: nat)
    requires High(s, e, p) > High(t, f, p)
    ensures Val(s, e) > Val(t, f)
  {
    var a, b, q := High(s, e, p), High(t, f, p), BPow(p);
    hide *;
    HighBounds(s, e, p);
    HighBounds(t, f, p);
    MulLe(q, b + 1, a);
  }

  lemma HighBounds(s: seq<Bigit>, e: nat, p: nat)
    ensures BPow(p) * High(s, e, p) <= Val(s, e) < BPow(p) * (High(s, e, p) + 1)
  {}

  // ----- compare -----

  /** What compare returns: the order, and for equal numbers the reversed order of the exponents. */
  function CompareResult(x: int, ex: int, y: int, ey: int): int {
    if x != y then Sign(x, y) else Sign(ey, ex)
  }

  /** The same bigits, but for zeros below those of t. */
  ghost predicate Padded(s: seq<Bigit>, e: nat, t: seq<Bigit>, f: nat) {
    e <= f && s == seq<Bigit>(f - e, _ => 0) + t
  }

  /**
   * compare is exact except when the exponents differ and the number with the smaller one
   * has the bigits of the other, with zeros below.
   */
  lemma CompareExactness(s: seq<Bigit>, e: nat, t: seq<Bigit>, f: nat)
    requires Normal(s) && Normal(t) && Val(s, e) > 0 && Val(t, f) > 0
    ensures CompareResult(Val(s, e), e, Val(t, f), f) == Sign(Val(s, e), Val(t, f))
            <==> e == f || !(Padded(s, e, t, f) || Padded(t, f, s, e))
  {
    if e <= f {
      EqualMeansPadded(s, e, t, f);
    } else {
      EqualMeansPadded(t, f, s, e);
    }
    hide Val, Padded;
    if e < f {
      NotPaddedBack(s, e, t, f);
    } else if f < e {
      NotPaddedBack(t, f, s, e);
    }
  }

  lemma NotPaddedBack(s: seq<Bigit>, e: nat, t: seq<Bigit>, f: nat)
    requires e < f
    ensures !Padded(t, f, s, e)
  {}

  /** Two positive numbers are equal exactly when the bigits are, up to zeros below. */
  lemma EqualMeansPadded(s: seq<Bigit>, e: nat, t: seq<Bigit>, f: nat)
    requires Normal(s) && Normal(t) && e <= f && Val(s, e) > 0 && Val(t, f) > 0
    ensures Val(s, e) == Val(t, f) <==> Padded(s, e, t, f)
  {
    var z := seq<Bigit>(f - e, _ => 0);
    ValZeros(f - e, t, e);
    assert f - e + e == f;
    TopBigitNonzero(t, f);
    if Val(s, e) == Val(t, f) {
      TopBigitNonzero(s, e);
      assert (z + t)[|z + t| - 1] == t[|t| - 1];
      CancelVal(s, z + t, e);
      NumUnique(s, z + t);
    }
  }

  lemma TopBigitNonzero(s: seq<Bigit>, e: nat)
    requires Normal(s) && Val(s, e) > 0
    ensures s != [] && s[|s| - 1] != 0
  {
    if |s| == 1 && s[0] == 0 {
      assert s[..0] == [];
      assert Num(s) == 0;
      ZeroTimes(BPow(e));
    }
  }

  lemma CancelVal(s: seq<Bigit>, t: seq<Bigit>, e: nat)
    requires Val(s, e) == Val(t, e)
    ensures Num(s) == Num(t)
  {
    var p := BPow(e);
    hide Num, BPow;
    assert p * Num(s) == p * Num(t);
    CancelNat(p, Num(s), Num(t));
  }

  /** Sequences with nonzero tops that denote the same number are the same. */
  lemma NumUnique(s: seq<Bigit>, t: seq<Bigit>)
    requires Num(s) == Num(t)
    requires (s != [] ==> s[|s| - 1] != 0) && (t != [] ==> t[|t| - 1] != 0)
    ensures s == t
  {
    SameLength(s, t);
    SameNumber(s, t);
  }

  lemma SameLength(s: seq<Bigit>, t: seq<Bigit>)
    requires Num(s) == Num(t)
    requires (s != [] ==> s[|s| - 1] != 0) && (t != [] ==> t[|t| - 1] != 0)
    ensures |s| == |t|
  {
    NumBound(s);
    NumBound(t);
    BPowZero();
    if |s| < |t| {
      TopNonzero(t);
      BPowMono(|s|, |t| - 1);
    } else if |t| < |s| {
      TopNonzero(s);
      BPowMono(|t|, |s| - 1);
    }
  }

  lemma {:induction false} SameNumber(s: seq<Bigit>, t: seq<Bigit>)
    requires Num(s) == Num(t) && |s| == |t|
    ensures s == t
  {
    hide *;
    if s != [] {
      var n := |s| - 1;
      NumTop(s);
      NumTop(t);
      SameTop(Num(s[..n]), s[n], Num(t[..n]), t[n], BPow(n));
      SameNumber(s[..n], t[..n]);
      SameParts(s, t, n);
    }
  }

  lemma NumTop(s: seq<Bigit>)
    requires s != []
    ensures var n := |s| - 1; Num(s) == Num(s[..n]) + s[n] * BPow(n) && Num(s[..n]) < BPow(n)
  {
    NumBound(s[..|s| - 1]);
    hide BPow;
  }

  lemma SameTop(a: nat, x: nat, b: nat, y: nat, p: nat)
    requires a < p && b < p && a + x * p == b + y * p
    ensures a == b && x == y
  {
    assert a + x * p == p * x + a && b + y * p == p * y + b;
    DivModUnique(a + x * p, p, x, a);
    DivModUnique(b + y * p, p, y, b);
  }

  lemma SameParts(s: seq<Bigit>, t: seq<Bigit>, n: nat)
    requires |s| == |t| == n + 1 && s[..n] == t[..n] && s[n] == t[n]
    ensures s == t
  {
    assert s == s[..n] + [s[n]] && t == t[..n] + [t[n]];
  }

  /** Two bigits with a zero below, and one bigit with exponent one, are equal but compare as different. */
  lemma CompareExample()
    ensures Val([0, 1], 0) == Val([1], 1)
    ensures CompareResult(Val([0, 1], 0), 0, Val([1], 1), 1) == 1
  {
    NumPrefix([0, 1], 1);
    assert [0, 1][..1] == [0] && [0, 1][..2] == [0, 1];
    NumPrefix([0], 0);
    NumPrefix([1], 0);
    assert [0][..1] == [0] && [0][..0] == [] && [1][..1] == [1] && [1][..0] == [];
    BPowZero();
    BPowSucc(0);
  }

  /** A nonzero bigit below the other exponent makes the numbers differ. */
  lemma LowBigit(s: seq<Bigit>, e: nat, t: seq<Bigit>, f: nat, i: nat)
    requires e <= i < f && i < e + |s| && s[i - e] != 0
    ensures Val(s, e) != Val(t, f)
  {
    HighStep(s, e, i);
    HighStep(t, f, i);
  }

  lemma DifferentSizes(s: seq<Bigit>, e: nat, t: seq<Bigit>, f: nat)
    requires Normal(s) && Val(s, e) > 0 && e + |s| > f + |t|
    ensures Val(s, e) > Val(t, f)
  {
    ValLow(s, e);
    ValBound(t, f);
    BPowMono(f + |t|, e + |s| - 1);
  }

  lemma CompareEnd(s: seq<Bigit>, e: nat, t: seq<Bigit>, f: nat)
    requires f >= e && High(s, e, f) == High(t, f, f)
    ensures Val(s, e) >= Val(t, f)
    ensures e == f ==> Val(s, e) == Val(t, f)
  {
    HighExact(t, f, f);
    HighBounds(s, e, f);
    if e == f {
      HighExact(s, e, f);
    }
  }

  // ----- add_compare -----

  lemma SumTooSmall(s: seq<Bigit>, e: nat, t: seq<Bigit>, f: nat, r: seq<Bigit>, g: nat)
    requires Normal(r) && Val(r, g) > 0
    requires e + |s| + 1 < g + |r| && f + |t| + 1 < g + |r|
    ensures Val(s, e) + Val(t, f) < Val(r, g)
  {
    ValBound(s, e);
    ValBound(t, f);
    ValLow(r, g);
    var m := g + |r| - 2;
    BPowMono(e + |s|, m);
    BPowMono(f + |t|, m);
    BPowSucc(m);
    assert m + 1 == g + |r| - 1;
  }

  /** One bigit of add_compare: s and t are the high parts of the sum, r that of the right side. */
  lemma AddDecided(s1: seq<Bigit>, e1: nat, s2: seq<Bigit>, e2: nat, r: seq<Bigit>, g: nat, p: nat)
    ensures High(s1, e1, p) + High(s2, e2, p) > High(r, g, p) ==> Val(s1, e1) + Val(s2, e2) > Val(r, g)
    ensures High(r, g, p) >= High(s1, e1, p) + High(s2, e2, p) + 2 ==> Val(s1, e1) + Val(s2, e2) < Val(r, g)
  {
    HighBounds(s1, e1, p);
    HighBounds(s2, e2, p);
    HighBounds(r, g, p);
    hide *;
    AddArithmetic(Val(s1, e1), Val(s2, e2), Val(r, g), High(s1, e1, p), High(s2, e2, p), High(r, g, p), BPow(p));
  }

  lemma AddArithmetic(x: nat, y: nat, z: nat, a: nat, b: nat, c: nat, q: nat)
    requires q > 0
    requires q * a <= x < q * (a + 1) && q * b <= y < q * (b + 1) && q * c <= z < q * (c + 1)
    ensures a + b > c ==> x + y > z
    ensures c >= a + b + 2 ==> x + y < z
  {
    assert q * (a + b) == q * a + q * b;
    assert q * (a + b + 2) == q * (a + 1) + q * (b + 1);
    if a + b > c {
      MulLe(q, c + 1, a + b);
    }
    if c >= a + b + 2 {
      MulLe(q, a + b + 2, c);
    }
  }

  lemma AddEnd(s1: seq<Bigit>, e1: nat, s2: seq<Bigit>, e2: nat, r: seq<Bigit>, g: nat, p: nat)
    requires p <= e1 && p <= e2 && p <= g && High(s1, e1, p) + High(s2, e2, p) <= High(r, g, p)
    ensures High(r, g, p) == High(s1, e1, p) + High(s2, e2, p) ==> Val(s1, e1) + Val(s2, e2) == Val(r, g)
    ensures High(r, g, p) > High(s1, e1, p) + High(s2, e2, p) ==> Val(s1, e1) + Val(s2, e2) < Val(r, g)
  {
    HighExact(s1, e1, p);
    HighExact(s2, e2, p);
    HighExact(r, g, p);
    hide *;
    EndArithmetic(High(s1, e1, p), High(s2, e2, p), High(r, g, p), BPow(p));
  }

  lemma EndArithmetic(a: nat, b: nat, c: nat, q: nat)
    requires q > 0
    ensures c == a + b ==> a * q + b * q == c * q
    ensures c > a + b ==> a * q + b * q < c * q
  {
    assert (a + b) * q == a * q + b * q;
    MulLeCancel(q, a + b, c);
  }

  // ----- subtract_aligned -----

  /** subtract_bigits: 64-bit subtraction with the borrow taken from the top bit. */
  function SubtractBigit(b: Bigit, other: Bigit, borrow: nat): (r: (Bigit, nat))
    requires borrow <= 1
    ensures r.1 <= 1 && r.0 == b - other - borrow + 0x1_0000_0000 * r.1
  {
    var result := (b - other - borrow) % 0x1_0000_0000_0000_0000;
    (result % 0x1_0000_0000, result / 0x8000_0000_0000_0000)
  }

  /** Subtraction of a number t has reached position i with the given borrow. */
  ghost predicate Subtracted(now: seq<Bigit>, was: seq<Bigit>, i: nat, borrow: nat, t: nat)
    requires i <= |now| == |was|
  {
    Num(now[..i]) + t == Num(was[..i]) + borrow * BPow(i) && now[i..] == was[i..]
  }

  lemma SubtractedStep(now: seq<Bigit>, was: seq<Bigit>, i: nat, borrow: nat, t: nat, d: Bigit, lo: Bigit, next: nat)
    requires i < |now| == |was| && Subtracted(now, was, i, borrow, t)
    requires lo == now[i] - d - borrow + 0x1_0000_0000 * next
    ensures Subtracted(now[i := lo], was, i + 1, next, t + d * BPow(i))
  {
    var now' := now[i := lo];
    assert now[i] == was[i] by { assert now[i..][0] == was[i..][0]; }
    assert now'[..i] == now[..i] && now'[i + 1..] == was[i..][1..];
    NumPrefix(now', i);
    NumPrefix(was, i);
    BPowSucc(i);
    hide *;
    SubtractArithmetic(BPow(i), lo, was[i], d, borrow, next);
  }

  lemma SubtractArithmetic(p: nat, lo: nat, b: nat, d: nat, borrow: nat, next: nat)
    requires lo == b - d - borrow + 0x1_0000_0000 * next
    ensures lo * p + d * p + borrow * p == b * p + next * (0x1_0000_0000 * p)
  {
    assert (lo + d + borrow) * p == (b + 0x1_0000_0000 * next) * p;
    assert (lo + d + borrow) * p == lo * p + d * p + borrow * p;
    assert (b + 0x1_0000_0000 * next) * p == b * p + next * (0x1_0000_0000 * p);
  }

  /** A borrow cannot be left over when the number subtracted is not larger. */
  lemma NoBorrowLeft(now: seq<Bigit>, was: seq<Bigit>, i: nat, borrow: nat, t: nat)
    requires i <= |now| == |was| && Subtracted(now, was, i, borrow, t) && t <= Num(was) && borrow == 1
    ensures i < |now|
  {
    if i == |now| {
      assert now[..i] == now && was[..i] == was;
      NumBound(now);
    }
  }

  /** After the last borrow the rest of the bigits is unchanged. */
  lemma SubtractedEnd(now: seq<Bigit>, was: seq<Bigit>, i: nat, t: nat)
    requires i <= |now| == |was| && Subtracted(now, was, i, 0, t)
    ensures Num(now) + t == Num(was)
  {
    assert now == now[..i] + now[i..] && was == was[..i] + was[i..];
    NumConcat(now[..i], now[i..]);
    NumConcat(was[..i], was[i..]);
  }

  /** One more bigit of the number to subtract, shifted by d positions. */
  lemma ShiftedPrefix(other: seq<Bigit>, j: nat, d: nat)
    requires j < |other|
    ensures Val(other[..j + 1], d) == Val(other[..j], d) + other[j] * BPow(d + j)
  {
    NumPrefix(other, j);
    BPowAdd(j, d);
    assert j + d == d + j;
    ConcatStep(0, Num(other[..j]), other[j], BPow(j), BPow(d));
  }

  lemma ValExponents(s: seq<Bigit>, d: nat, e: nat)
    ensures Val(s, d + e) == Val(s, d) * BPow(e)
  {
    BPowAdd(d, e);
    MulAssoc(Num(s), BPow(d), BPow(e));
  }

  lemma ValZeros(d: nat, s: seq<Bigit>, e: nat)
    ensures Val(seq<Bigit>(d, _ => 0) + s, e) == Val(s, d + e)
  {
    var z := seq<Bigit>(d, _ => 0);
    NumZeros(z);
    NumConcat(z, s);
    ValExponents(s, d, e);
  }
}
