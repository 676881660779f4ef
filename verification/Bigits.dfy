/** Little-endian numbers in base 2^32, as sequences of bigits. */
module Bigits {
  import opened Powers

  type Bigit = x: nat | x < 0x1_0000_0000

  /** 2^(32 k). */
  function BPow(k: nat): (r: nat)
    ensures r > 0
  {
    Pow(0x1_0000_0000, k)
  }

  /** The number denoted by a sequence of bigits, least significant first. */
  function Num(s: seq<Bigit>): nat {
    if s == [] then 0 else Num(s[..|s| - 1]) + s[|s| - 1] * BPow(|s| - 1)
  }

  lemma BPowZero()
    ensures BPow(0) == 1
  {}

  lemma BPowSucc(k: nat)
    ensures BPow(k + 1) == 0x1_0000_0000 * BPow(k)
  {}

  lemma BPowAdd(m: nat, n: nat)
    ensures BPow(m + n) == BPow(m) * BPow(n)
  {
    PowAdd(0x1_0000_0000, m, n);
  }

  lemma BPowMono(m: nat, n: nat)
    requires m <= n
    ensures BPow(m) <= BPow(n)
  {
    PowMono(0x1_0000_0000, m, n);
  }

  /** One more bigit of a prefix. */
  lemma NumPrefix(s: seq<Bigit>, i: nat)
    requires i < |s|
    ensures Num(s[..i + 1]) == Num(s[..i]) + s[i] * BPow(i)
  {
    assert s[..i + 1][..i] == s[..i];
  }

  lemma NumAppend(s: seq<Bigit>, d: Bigit)
    ensures Num(s + [d]) == Num(s) + d * BPow(|s|)
  {
    assert (s + [d])[..|s|] == s;
  }

  lemma {:induction false} NumBound(s: seq<Bigit>)
    ensures Num(s) < BPow(|s|)
  {
    if s != [] {
      var n := |s| - 1;
      NumBound(s[..n]);
      TopBigit(Num(s[..n]), s[n], BPow(n));
      BPowSucc(n);
    }
  }

  lemma TopBigit(low: nat, d: Bigit, p: nat)
    requires low < p
    ensures d * p <= low + d * p < 0x1_0000_0000 * p
  {
    MulLe(p, d + 1, 0x1_0000_0000);
    assert p * (d + 1) == d * p + p;
  }

  lemma {:induction false} NumConcat(a: seq<Bigit>, b: seq<Bigit>)
    ensures Num(a + b) == Num(a) + Num(b) * BPow(|a|)
    decreases |b|
  {
    if b == [] {
      assert a + b == a;
    } else {
      var n := |b| - 1;
      assert a + b == (a + b[..n]) + [b[n]];
      NumConcat(a, b[..n]);
      NumAppend(a + b[..n], b[n]);
      BPowAdd(n, |a|);
      ConcatStep(Num(a), Num(b[..n]), b[n], BPow(n), BPow(|a|));
    }
  }

  lemma ConcatStep(a: nat, b: nat, d: nat, p: nat, q: nat)
    ensures a + b * q + d * (p * q) == a + (b + d * p) * q
  {
    assert d * (p * q) == (d * p) * q;
  }

  lemma {:induction false} NumZeros(s: seq<Bigit>)
    requires forall i :: 0 <= i < |s| ==> s[i] == 0
    ensures Num(s) == 0
  {
    if s != [] {
      NumZeros(s[..|s| - 1]);
    }
  }

  /** A nonzero top bigit makes the number as large as its length says, and conversely. */
  lemma TopNonzero(s: seq<Bigit>)
    requires s != []
    ensures s[|s| - 1] != 0 <==> Num(s) >= BPow(|s| - 1)
  {
    var n := |s| - 1;
    NumBound(s[..n]);
    var d, p := s[n], BPow(n);
    if d > 0 {
      MulLe(p, 1, d);
    }
  }

  /** The bigit of a number x at position i. */
  lemma BigitAt(s: seq<Bigit>, i: nat)
    requires i < |s|
    ensures Num(s) / BPow(i) == s[i] + 0x1_0000_0000 * (Num(s) / BPow(i + 1))
  {
    var hi := s[i + 1..];
    assert s == s[..i + 1] + hi && s[..i + 1] == s[..i] + [s[i]];
    NumConcat(s[..i + 1], hi);
    NumPrefix(s, i);
    NumBound(s[..i]);
    NumBound(s[..i + 1]);
    BPowSucc(i);
    SplitAt(Num(s), Num(s[..i]), s[i], Num(hi), BPow(i), BPow(i + 1));
  }

  lemma SplitAt(x: nat, low: nat, d: nat, high: nat, p: nat, bp: nat)
    requires p > 0 && bp == 0x1_0000_0000 * p && low < p && low + d * p < bp
    requires x == low + d * p + high * bp
    ensures x / bp == high && x / p == d + 0x1_0000_0000 * high
  {
    DivModUnique(x, bp, high, low + d * p);
    assert p * (d + 0x1_0000_0000 * high) == d * p + high * bp;
    DivModUnique(x, p, d + 0x1_0000_0000 * high, low);
  }
}
