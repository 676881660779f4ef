/** Decimal digit characters and the numbers they denote. */
module Digits {
  import opened Powers

  predicate IsDigit(c: char) {
    '0' <= c <= '9'
  }

  /** The digit written as a character; 10 gives the character after '9'. */
  function DigitChar(d: nat): (c: char)
    requires d <= 10
    ensures d <= 9 ==> IsDigit(c)
    ensures CharDigit(c) == d
  {
    (d as char + '0')
  }

  function CharDigit(c: char): int {
    c as int - '0' as int
  }

  predicate AllDigits(s: seq<char>) {
    forall i :: 0 <= i < |s| ==> IsDigit(s[i])
  }

  /** The number denoted by a sequence of digit characters, most significant first. */
  function DigitsVal(s: seq<char>): int {
    if s == [] then 0 else 10 * DigitsVal(s[..|s| - 1]) + CharDigit(s[|s| - 1])
  }

  lemma DigitsAppend(s: seq<char>, c: char)
    ensures DigitsVal(s + [c]) == 10 * DigitsVal(s) + CharDigit(c)
  {
    assert (s + [c])[..|s|] == s;
  }

  lemma OneDigit(c: char)
    ensures DigitsVal([c]) == CharDigit(c)
  {
    DigitsAppend([], c);
    assert [] + [c] == [c];
  }

  /** The decimal digits of a number, without leading zeros. */
  function Decimal(n: nat): (r: string)
    ensures r != [] && AllDigits(r) && DigitsVal(r) == n && (n > 0 ==> r[0] != '0')
  {
    if n <= 9 then
      OneDigit(DigitChar(n));
      [DigitChar(n)]
    else
      DigitsAppend(Decimal(n / 10), DigitChar(n % 10));
      Decimal(n / 10) + [DigitChar(n % 10)]
  }

  lemma DigitsPrefix(s: seq<char>, i: nat)
    requires i < |s|
    ensures DigitsVal(s[..i + 1]) == 10 * DigitsVal(s[..i]) + CharDigit(s[i])
  {
    assert s[..i + 1][..i] == s[..i];
  }

  lemma {:induction false} DigitsConcat(a: seq<char>, b: seq<char>)
    ensures DigitsVal(a + b) == DigitsVal(a) * Pow(10, |b|) + DigitsVal(b)
    decreases |b|
  {
    if b == [] {
      assert a + b == a;
    } else {
      var n := |b| - 1;
      DigitsConcat(a, b[..n]);
      assert a + b == (a + b[..n]) + [b[n]];
      DigitsAppend(a + b[..n], b[n]);
      TenTimes(DigitsVal(a), Pow(10, n));
    }
  }

  lemma TenTimes(a: int, p: int)
    ensures 10 * (a * p) == a * (10 * p)
  {}

  lemma {:induction false} DigitsBound(s: seq<char>)
    requires AllDigits(s)
    ensures 0 <= DigitsVal(s) < Pow(10, |s|)
  {
    if s != [] {
      DigitsBound(s[..|s| - 1]);
    }
  }

  lemma {:induction false} ZeroDigits(n: nat)
    ensures DigitsVal(seq(n, _ => '0')) == 0
  {
    if n > 0 {
      ZeroDigits(n - 1);
      assert seq(n, _ => '0')[..n - 1] == seq(n - 1, _ => '0');
    }
  }
}
