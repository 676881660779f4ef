/** The schoolbook product of two bigit sequences, summed diagonal by diagonal. */
module Convolution {
  import opened Powers
  import opened Bigits

  function At(s: seq<Bigit>, i: int): nat {
    if 0 <= i < |s| then s[i] else 0
  }

  /** The first n cross products a[i] * b[k - i] of diagonal k. */
  function Part(a: seq<Bigit>, b: seq<Bigit>, k: nat, n: nat): nat {
    if n == 0 then 0 else Part(a, b, k, n - 1) + At(a, n - 1) * At(b, k - (n - 1))
  }

  function Diagonal(a: seq<Bigit>, b: seq<Bigit>, k: nat): nat {
    Part(a, b, k, k + 1)
  }

  /** The diagonals below m, each with its weight. */
  function Diagonals(a: seq<Bigit>, b: seq<Bigit>, m: nat): nat {
    if m == 0 then 0 else Diagonals(a, b, m - 1) + Diagonal(a, b, m - 1) * BPow(m - 1)
  }

  /** Appending a bigit d to a adds d times a shifted b to every diagonal. */
  lemma {:induction false} PartAppend(a: seq<Bigit>, d: Bigit, b: seq<Bigit>, k: nat, n: nat)
    ensures Part(a + [d], b, k, n) == Part(a, b, k, n) + if n > |a| then d * At(b, k - |a|) else 0
  {
    if n > 0 {
      PartAppend(a, d, b, k, n - 1);
      if n - 1 < |a| {
        assert At(a + [d], n - 1) == At(a, n - 1);
      } else if n - 1 == |a| {
        assert At(a + [d], n - 1) == d && At(a, n - 1) == 0;
      }
    }
  }

  /** b shifted by n bigits, as a sum of its bigits below position m. */
  function Shifted(b: seq<Bigit>, n: nat, m: nat): nat {
    if m == 0 then 0 else Shifted(b, n, m - 1) + At(b, m - 1 - n) * BPow(m - 1)
  }

  lemma {:induction false} ShiftedIs(b: seq<Bigit>, n: nat, m: nat)
    ensures Shifted(b, n, m) == if m <= n then 0 else Num(b[..if m - n < |b| then m - n else |b|]) * BPow(n)
  {
    if m > 0 {
      ShiftedIs(b, n, m - 1);
      var i := m - 1 - n;
      if 0 <= i < |b| {
        NumPrefix(b, i);
        BPowAdd(i, n);
        assert i + n == m - 1;
        ShiftedStep(Num(b[..i]), b[i], BPow(i), BPow(n));
      }
    }
  }

  lemma ShiftedStep(low: nat, d: nat, p: nat, q: nat)
    ensures low * q + d * (p * q) == (low + d * p) * q
  {
    assert d * (p * q) == (d * p) * q;
  }

  lemma {:induction false} DiagonalsAppend(a: seq<Bigit>, d: Bigit, b: seq<Bigit>, m: nat)
    ensures Diagonals(a + [d], b, m) == Diagonals(a, b, m) + d * Shifted(b, |a|, m)
  {
    if m > 0 {
      DiagonalsAppend(a, d, b, m - 1);
      PartAppend(a, d, b, m - 1, m);
      var x := At(b, m - 1 - |a|);
      hide Shifted, Diagonals, Diagonal, Part, BPow, At;
      DiagonalStep(a, d, b, m);
    }
  }

  lemma DiagonalStep(a: seq<Bigit>, d: Bigit, b: seq<Bigit>, m: nat)
    requires m > 0
    requires Diagonals(a + [d], b, m - 1) == Diagonals(a, b, m - 1) + d * Shifted(b, |a|, m - 1)
    requires Part(a + [d], b, m - 1, m) == Part(a, b, m - 1, m) + if m > |a| then d * At(b, m - 1 - |a|) else 0
    ensures Diagonals(a + [d], b, m) == Diagonals(a, b, m) + d * Shifted(b, |a|, m)
  {
    var x, p := At(b, m - 1 - |a|), BPow(m - 1);
    assert Shifted(b, |a|, m) == Shifted(b, |a|, m - 1) + x * p;
    hide BPow, At;
    StepArithmetic(Part(a, b, m - 1, m), d, x, p, Shifted(b, |a|, m - 1));
  }

  lemma StepArithmetic(c: nat, d: nat, x: nat, p: nat, s: nat)
    ensures (c + d * x) * p == c * p + d * (x * p)
    ensures d * (s + x * p) == d * s + d * (x * p)
  {
    assert (d * x) * p == d * (x * p);
  }

  /** All diagonals together make the product. */
  lemma {:induction false} DiagonalsAreProduct(a: seq<Bigit>, b: seq<Bigit>, m: nat)
    requires m >= |a| + |b|
    ensures Diagonals(a, b, m) == Num(a) * Num(b)
    decreases |a|
  {
    if a == [] {
      EmptyDiagonals(b, m);
    } else {
      var n := |a| - 1;
      DiagonalsAreProduct(a[..n], b, m);
      assert a == a[..n] + [a[n]];
      DiagonalsAppend(a[..n], a[n], b, m);
      ShiftedIs(b, n, m);
      assert b[..|b|] == b;
      ProductStep(Num(a[..n]), a[n], BPow(n), Num(b));
    }
  }

  lemma ProductStep(low: nat, d: nat, p: nat, b: nat)
    ensures low * b + d * (b * p) == (low + d * p) * b
  {
    assert d * (b * p) == (d * p) * b;
  }

  lemma {:induction false} EmptyDiagonals(b: seq<Bigit>, m: nat)
    ensures Diagonals([], b, m) == 0
  {
    if m > 0 {
      EmptyDiagonals(b, m - 1);
      EmptyPart(b, m - 1, m);
    }
  }

  lemma {:induction false} EmptyPart(b: seq<Bigit>, k: nat, n: nat)
    ensures Part([], b, k, n) == 0
  {
    if n > 0 {
      EmptyPart(b, k, n - 1);
    }
  }

  /** Cross products with an index outside b contribute nothing. */
  lemma {:induction false} PartBelow(a: seq<Bigit>, b: seq<Bigit>, k: nat, n: nat)
    requires n <= k - |b| + 1
    ensures Part(a, b, k, n) == 0
  {
    if n > 0 {
      PartBelow(a, b, k, n - 1);
    }
  }

  lemma {:induction false} PartAbove(a: seq<Bigit>, b: seq<Bigit>, k: nat, n: nat)
    requires |a| <= n
    ensures Part(a, b, k, n) == Part(a, b, k, |a|)
  {
    if n > |a| {
      PartAbove(a, b, k, n - 1);
    }
  }

  lemma CrossBound(x: Bigit, y: Bigit)
    ensures 0 <= x * y <= 0xffff_fffe_0000_0001
  {
    MulBound(x, y, 0xffff_ffff);
  }

  lemma {:induction false} PartBound(a: seq<Bigit>, b: seq<Bigit>, k: nat, n: nat)
    ensures Part(a, b, k, n) <= n * 0xffff_fffe_0000_0001
  {
    if n > 0 {
      PartBound(a, b, k, n - 1);
      CrossBound(At(a, n - 1), At(b, k - (n - 1)));
    }
  }
}
