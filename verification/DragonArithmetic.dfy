/** The integer arithmetic of format_dragon: one digit at a time from a fraction, with margins and rounding. */
module DragonArithmetic {
  import opened Powers

  /**
   * n0 / d is the number to print, in units of its first digit. The k digits printed so far
   * make the number done, and n is what is left, scaled so that the next digit is n / d.
   */
  ghost predicate Printed(n0: nat, d: nat, k: nat, done: nat, n: nat) {
    n0 * Pow(10, k) == 10 * (done * d) + n
  }

  lemma PrintedStart(n0: nat, d: nat)
    ensures Printed(n0, d, 0, 0, n0)
  {}

  /** After the division the digit joins done, and the remainder is left unscaled. */
  lemma PrintedDigit(n0: nat, d: nat, k: nat, done: nat, n: nat, digit: nat, r: nat)
    requires Printed(n0, d, k, done, n) && n == digit * d + r
    ensures n0 * Pow(10, k) == (10 * done + digit) * d + r
  {
    hide Pow;
    assert (10 * done + digit) * d == 10 * (done * d) + digit * d;
  }

  lemma PrintedNext(n0: nat, d: nat, k: nat, done: nat, r: nat)
    requires n0 * Pow(10, k) == done * d + r
    ensures Printed(n0, d, k + 1, done, 10 * r)
  {
    assert Pow(10, k + 1) == 10 * Pow(10, k);
    hide Pow;
    assert n0 * (10 * Pow(10, k)) == 10 * (n0 * Pow(10, k));
  }

  /** A digit below ten, because what is left is less than ten denominators. */
  lemma DigitBound(n: nat, d: nat, digit: nat, r: nat)
    requires n == digit * d + r && n < 10 * d
    ensures digit <= 9
  {
    MulLeCancel(d, digit, 10);
  }

  /** r is the integer nearest to n / d, with ties to even. */
  ghost predicate NearestEven(r: int, n: int, d: int) {
    && 2 * (n - r * d) <= d && -d <= 2 * (n - r * d)
    && (2 * (n - r * d) == d || 2 * (n - r * d) == -d ==> r % 2 == 0)
  }

  /** Rounding by comparing twice the remainder with the denominator. */
  lemma RoundHalfEven(n: nat, d: nat, q: nat, r: nat)
    requires n == q * d + r && r < d
    ensures NearestEven(if 2 * r > d || (2 * r == d && q % 2 != 0) then q + 1 else q, n, d)
  {
    assert (q + 1) * d == q * d + d;
  }

  // ----- Margins -----

  /** x < y, or x <= y when the end is closed. */
  predicate Below(x: int, y: int, closed: bool) {
    if closed then x <= y else x < y
  }

  /** The integer q is within the margins of n / d, with the lower or the upper end where they are closed. */
  ghost predicate Inside(q: int, n: nat, d: nat, lower: nat, upper: nat, low: bool, high: bool) {
    Below(n, q * d + lower, low) && Below(q * d, n + upper, high)
  }

  ghost predicate NoneInside(n: nat, d: nat, lower: nat, upper: nat, low: bool, high: bool) {
    forall q: int :: !Inside(q, n, d, lower, upper, low, high)
  }

  function Distance(p: int, n: int, d: int): int {
    if n >= p * d then n - p * d else p * d - n
  }

  /** No integer within the margins is nearer to n / d than p, and none as near unless p is even. */
  ghost predicate Closest(p: int, n: nat, d: nat, lower: nat, upper: nat, low: bool, high: bool) {
    forall q: int :: Inside(q, n, d, lower, upper, low, high) ==> Nearer(p, q, n, d)
  }

  predicate Nearer(p: int, q: int, n: int, d: int) {
    Distance(p, n, d) <= Distance(q, n, d) && (Distance(p, n, d) == Distance(q, n, d) ==> p == q || p % 2 == 0)
  }

  /** Stopping without incrementing: the remainder is within the lower margin. */
  lemma StopBelow(n: nat, d: nat, q: nat, r: nat, lower: nat, upper: nat, low: bool, high: bool)
    requires n == q * d + r && Below(r, lower, low) && upper > 0
    ensures Inside(q, n, d, lower, upper, low, high)
  {}

  /** Stopping with an increment: the upper margin reaches the next digit. */
  lemma StopAbove(n: nat, d: nat, q: nat, r: nat, lower: nat, upper: nat, low: bool, high: bool)
    requires n == q * d + r && r <= d && Below(d, r + upper, high) && lower > 0
    ensures Inside(q + 1, n, d, lower, upper, low, high)
  {
    assert (q + 1) * d == q * d + d;
  }

  /** A digit that neither comparison accepts leaves no integer within the margins. */
  lemma ContinueNoneInside(n: nat, d: nat, q: nat, r: nat, lower: nat, upper: nat, low: bool, high: bool)
    requires n == q * d + r && r < d && !Below(r, lower, low) && !Below(d, r + upper, high)
    ensures NoneInside(n, d, lower, upper, low, high)
  {
    forall x: int ensures !Inside(x, n, d, lower, upper, low, high) {
      NeighbourOrder(x, q, d);
    }
  }

  lemma NeighbourOrder(x: int, q: nat, d: nat)
    ensures x <= q ==> x * d <= q * d
    ensures x < q ==> x * d <= q * d - d
    ensures x > q ==> x * d >= q * d + d
    ensures x > q + 1 ==> x * d >= q * d + 2 * d
  {
    if x < q {
      MulLe(d, x, q - 1);
      assert d * (q - 1) == q * d - d;
    } else if x > q + 1 {
      MulLe(d, q + 2, x);
      assert d * (q + 2) == q * d + 2 * d;
    } else if x > q {
      assert (q + 1) * d == q * d + d;
    }
  }

  lemma StayClosest(n: nat, d: nat, q: nat, r: nat, lower: nat, upper: nat, low: bool, high: bool)
    requires n == q * d + r && r < d
    requires !Below(d, r + upper, high) || 2 * r < d || (2 * r == d && q % 2 == 0)
    ensures Closest(q, n, d, lower, upper, low, high)
  {
    forall x: int | Inside(x, n, d, lower, upper, low, high) ensures Nearer(q, x, n, d) {
      NeighbourOrder(x, q, d);
    }
  }

  lemma IncrementClosest(n: nat, d: nat, q: nat, r: nat, lower: nat, upper: nat, low: bool, high: bool)
    requires n == q * d + r && r <= d && d > 0
    requires !Below(r, lower, low) || 2 * r > d || (2 * r == d && q % 2 != 0)
    ensures Closest(q + 1, n, d, lower, upper, low, high)
  {
    assert (q + 1) * d == q * d + d;
    forall x: int | Inside(x, n, d, lower, upper, low, high) ensures Nearer(q + 1, x, n, d) {
      NeighbourOrder(x, q, d);
    }
  }

  /** An incremented digit is still at most nine. */
  lemma IncrementBound(n: nat, d: nat, digit: nat, r: nat, upper: nat, high: bool)
    requires n == digit * d + r && upper > 0
    requires !Below(10 * d, n + upper, high) && Below(d, r + upper, high)
    ensures digit <= 8
  {
    if digit >= 9 {
      MulLe(d, 9, digit);
      assert false;
    }
  }

  lemma MarginStep(x0: nat, k: nat)
    ensures x0 * Pow(10, k + 1) == (x0 * Pow(10, k)) * 10
  {
    assert Pow(10, k + 1) == 10 * Pow(10, k);
    hide Pow;
    assert x0 * (10 * Pow(10, k)) == (x0 * Pow(10, k)) * 10;
  }
}
