/** The arbitrary-precision integer behind format_dragon: 32-bit bigits and an exponent counted in bigits. */
module Bigints {
  import opened Powers
  import opened Bigits
  import opened Convolution
  import opened BigintArithmetic
  import opened BigintOrder

  class Bigint {
    var bigits: seq<Bigit>
    var exp: nat

    ghost predicate Valid()
      reads this
    {
      Normal(bigits)
    }

    /** The integer denoted by the object. */
    ghost function Value(): nat
      reads this
    {
      Val(bigits, exp)
    }

    function NumBigits(): nat
      reads this
    {
      |bigits| + exp
    }

    constructor ()
      ensures bigits == [] && exp == 0
    {
      bigits, exp := [], 0;
    }

    method Assign(n: nat)
      modifies this
      ensures Valid() && Value() == n && exp == 0
    {
      var rest: nat := n;
      bigits, exp := [rest % 0x1_0000_0000], 0;
      rest := rest / 0x1_0000_0000;
      BPowZero();
      BPowSucc(0);
      assert bigits[..0] == [];
      assert Num(bigits) == n % 0x1_0000_0000;
      while rest != 0
        invariant exp == 0 && Num(bigits) + rest * BPow(|bigits|) == n
        invariant bigits != [] && (rest == 0 ==> Normal(bigits))
        decreases rest
      {
        AssignStep(bigits, rest);
        bigits := bigits + [rest % 0x1_0000_0000];
        rest := rest / 0x1_0000_0000;
      }
    }

    method AssignFrom(other: Bigint)
      modifies this
      ensures bigits == other.bigits && exp == other.exp
    {
      bigits := other.bigits;
      exp := other.exp;
    }

    /** *this *= value for a 32-bit value. */
    method Multiply(value: nat)
      requires Valid() && 0 < value < 0x1_0000_0000
      modifies this
      ensures Valid() && Value() == old(Value()) * value && exp == old(exp)
    {
      ghost var was := bigits;
      var carry: nat := 0;
      MultipliedStart(was, value);
      var i, n := 0, |bigits|;
      while i < n
        invariant 0 <= i <= n == |bigits| == |was| && exp == old(exp)
        invariant carry < 0x1_0000_0000 && Multiplied(bigits, was, i, carry, value)
      {
        NarrowStep(bigits[i], value, carry);
        assert bigits[i] == was[i] by { assert bigits[i..][0] == was[i..][0]; }
        var result := bigits[i] * value + carry;
        MultipliedStep(bigits, was, i, carry, value, result % 0x1_0000_0000, result / 0x1_0000_0000);
        bigits := bigits[i := result % 0x1_0000_0000];
        carry := result / 0x1_0000_0000;
        i := i + 1;
      }
      MultipliedEnd(bigits, was, carry, value);
      if carry != 0 {
        NormalPush(bigits, carry);
        bigits := bigits + [carry];
      } else {
        KeepsNormal(bigits, was, value);
      }
      ScaleValue(Num(was), value, BPow(exp));
    }

    /** *this *= value for a 64-bit value, or a 128-bit one when wide. */
    method MultiplyWide(value: nat, wide: bool)
      requires Valid() && 0 < value && Fits(value, wide)
      modifies this
      ensures Valid() && Value() == old(Value()) * value && exp == old(exp)
    {
      ghost var was := bigits;
      ValueIs(this);
      NormalNonempty(this);
      var lower, upper := value % Half(wide), value / Half(wide);
      SplitHalves(value, wide);
      var carry: nat := 0;
      MultipliedStart(was, value);
      var i, n := 0, |bigits|;
      hide *;
      while i < n
        invariant 0 <= i <= n == |bigits| == |was| && exp == old(exp)
        invariant carry <= value && Multiplied(bigits, was, i, carry, value)
      {
        SameTail(bigits, was, i, carry, value);
        WideIteration(bigits[i], value, wide, lower, upper, carry);
        var step := WideProduct(bigits[i], lower, upper, carry, wide);
        MultipliedStep(bigits, was, i, carry, value, step.0, step.1);
        bigits := bigits[i := step.0];
        carry := step.1;
        i := i + 1;
      }
      MultipliedEnd(bigits, was, carry, value);
      if carry == 0 {
        KeepsNormal(bigits, was, value);
      }
      while carry != 0
        invariant exp == old(exp) && bigits != [] && (carry == 0 ==> Normal(bigits))
        invariant Num(bigits) + carry * BPow(|bigits|) == Num(was) * value
        decreases carry
      {
        AssignStep(bigits, carry);
        bigits := bigits + [carry % 0x1_0000_0000];
        carry := carry / 0x1_0000_0000;
      }
      ValueIs(this);
      ScaleValue(Num(was), value, BPow(exp));
    }

    /** *this <<= shift. */
    method ShiftLeft(shift: nat)
      requires Valid()
      modifies this
      ensures Valid() && Value() == old(Value()) * Pow(2, shift) && exp == old(exp) + shift / 32
    {
      ghost var was, e := bigits, exp;
      exp := exp + shift / 32;
      var s := shift % 32;
      SmallShift(s);
      ValueIs(this);
      NormalNonempty(this);
      if s == 0 {
        ShiftValue(Num(was), Num(was), e, shift);
        return;
      }
      ghost var p := Pow(2, s);
      var carry: nat := 0;
      MultipliedStart(was, p);
      var i, n := 0, |bigits|;
      hide *;
      while i < n
        invariant 0 <= i <= n == |bigits| == |was| && exp == e + shift / 32
        invariant carry < p && Multiplied(bigits, was, i, carry, p)
      {
        SameTail(bigits, was, i, carry, p);
        var step := ShiftBigit(bigits[i], s, carry);
        MultipliedStep(bigits, was, i, carry, p, step.0, step.1);
        bigits := bigits[i := step.0];
        carry := step.1;
        i := i + 1;
      }
      MultipliedEnd(bigits, was, carry, p);
      if carry != 0 {
        NormalPush(bigits, carry);
        bigits := bigits + [carry];
      } else {
        KeepsNormal(bigits, was, p);
      }
      ShiftValue(Num(was), Num(bigits), e, shift);
      ValueIs(this);
    }

    /** Drops zero bigits from the top, down to one bigit. */
    method RemoveLeadingZeros()
      modifies this
      ensures Num(bigits) == old(Num(bigits)) && exp == old(exp)
      ensures old(bigits) != [] ==> Valid()
    {
      ghost var was := bigits;
      var n: int := |bigits| - 1;
      assert was[..|was|] == was;
      hide Num;
      while n > 0 && bigits[n] == 0
        invariant bigits == was && exp == old(exp) && -1 <= n < |was| && (n == -1 <==> was == [])
        invariant Num(was[..n + 1]) == Num(was)
      {
        ZeroTop(was, n);
        n := n - 1;
      }
      bigits := bigits[..n + 1];
      assert bigits == was[..n + 1];
    }

    /** *this = *this * *this. */
    method Square()
      requires Valid() && |bigits| < 0x8000_0000
      modifies this
      ensures Valid() && Value() == old(Value()) * old(Value()) && exp == 2 * old(exp)
    {
      var n, num := bigits, |bigits|;
      ghost var e := exp;
      ValueIs(this);
      NormalNonempty(this);
      bigits := seq(2 * num, _ => 0);
      var sum: nat := 0;
      SquareStart(n, bigits);
      hide *;
      var k := 0;
      while k < num
        invariant 0 <= k <= num && |bigits| == 2 * num && exp == e && sum <= num * 0x1_0000_0000
        invariant Squared(bigits, n, k, sum)
      {
        ghost var before := sum;
        sum := LowerDiagonal(n, k, sum);
        SquareStep(bigits, n, k, before, sum);
        bigits := bigits[k := sum % 0x1_0000_0000];
        sum := sum / 0x1_0000_0000;
        k := k + 1;
      }
      while k < 2 * num
        invariant num <= k <= 2 * num && |bigits| == 2 * num && exp == e && sum <= num * 0x1_0000_0000
        invariant Squared(bigits, n, k, sum)
      {
        ghost var before := sum;
        sum := UpperDiagonal(n, k, sum);
        SquareStep(bigits, n, k, before, sum);
        bigits := bigits[k := sum % 0x1_0000_0000];
        sum := sum / 0x1_0000_0000;
        k := k + 1;
      }
      SquareEnd(bigits, n, sum);
      RemoveLeadingZeros();
      exp := exp * 2;
      SquareValue(Num(n), e);
      ValueIs(this);
    }

    /**
     * Assigns 10^e: 5^e by left-to-right binary powering, then a shift by e bits. For larger
     * e the source does not end; see BitmaskLoopEnds.
     */
    method AssignPow10(e: nat)
      requires e < 0x4000_0000
      modifies this
      ensures Valid() && Value() == Pow(10, e) && exp == e / 32
    {
      if e == 0 {
        Assign(1);
        return;
      }
      var bitmask := TopBit(e);
      Assign(5);
      FirstPower(e, bitmask);
      bitmask := bitmask / 2;
      hide *;
      while bitmask != 0
        invariant Valid() && exp == 0 && IsPowerOfTwoOrZero(bitmask)
        invariant Value() == Pow(5, PrefixExponent(e, bitmask))
        decreases bitmask
      {
        NextBit(e, bitmask);
        bitmask := bitmask / 2;
      }
      ShiftLeft(e);
      PowProduct(5, 2, e);
      AllBits(e);
    }

    /** One iteration of the powering loop: square, and multiply by 5 if the bit is set. */
    method NextBit(e: nat, bitmask: nat)
      requires Valid() && exp == 0 && e < 0x4000_0000
      requires bitmask != 0 && IsPowerOfTwoOrZero(bitmask) && Value() == Pow(5, PrefixExponent(e, bitmask))
      modifies this
      ensures Valid() && exp == 0 && Value() == Pow(5, PrefixExponent(e, bitmask / 2))
      ensures IsPowerOfTwoOrZero(bitmask / 2) && bitmask / 2 < bitmask
    {
      hide *;
      HalfPower(bitmask);
      PowerFits(this, PrefixExponent(e, bitmask), e);
      NextPower(e, bitmask);
      Square();
      if BitSet(e, bitmask) {
        Multiply(5);
      }
    }

    /** Adds low zero bigits until the exponent is at most that of other. */
    method Align(other: Bigint)
      requires other != this && bigits != []
      modifies this
      ensures Value() == old(Value()) && exp == if old(exp) > other.exp then other.exp else old(exp)
      ensures NumBigits() == old(NumBigits()) && bigits != []
      ensures old(Valid() && Value() > 0) ==> Valid()
    {
      var d: int := exp - other.exp;
      if d <= 0 {
        return;
      }
      ghost var was := bigits;
      MoveUp(d);
      bigits := seq(d, _ => 0) + bigits[d..];
      exp := exp - d;
      AlignedValue(was, exp, d, bigits);
    }

    /** Makes room for d bigits at the bottom: the loop of align. */
    method MoveUp(d: nat)
      requires d > 0 && bigits != []
      modifies this`bigits
      ensures |bigits| == old(|bigits|) + d && bigits[d..] == old(bigits)
    {
      ghost var was := bigits;
      var n := |bigits|;
      bigits := bigits + seq(d, _ => 0);
      var i, j := n - 1, n - 1 + d;
      NoneMoved(was, seq(d, _ => 0), d);
      hide *;
      while i >= 0
        invariant -1 <= i < n && j == i + d && |bigits| == n + d && Moved(bigits, was, i, d)
      {
        MovedUp(bigits, was, i, d);
        bigits := bigits[j := bigits[i]];
        i, j := i - 1, j - 1;
      }
      AllMoved(bigits, was, d);
    }

    /** *this -= other, for bigits of other that start at or above those of this. */
    method SubtractAligned(other: Bigint)
      requires other != this && bigits != [] && other.exp >= exp
      requires Value() >= other.Value() && NumBigits() >= other.NumBigits()
      modifies this
      ensures Valid() && Value() == old(Value()) - other.Value() && exp == old(exp)
    {
      ghost var was, t := bigits, Val(other.bigits, other.exp - exp);
      SubtractStart(this, other);
      var borrow: nat := 0;
      var d := other.exp - exp;
      var i, j, n := d, 0, |other.bigits|;
      hide *;
      while j != n
        invariant 0 <= j <= n == |other.bigits| && i == d + j && d + n <= |was| == |bigits| && borrow <= 1
        invariant exp == old(exp) && other.bigits == old(other.bigits)
        invariant Subtracted(bigits, was, i, borrow, Val(other.bigits[..j], d))
        decreases n - j
      {
        SubtractOne(bigits, was, other.bigits, j, d, borrow);
        var r := SubtractBigit(bigits[i], other.bigits[j], borrow);
        bigits := bigits[i := r.0];
        borrow := r.1;
        i, j := i + 1, j + 1;
      }
      assert other.bigits[..n] == other.bigits;
      PropagateBorrow(i, borrow, was, t);
      SubtractValue(was, bigits, other.bigits, exp, other.exp);
      RemoveLeadingZeros();
      ValueIs(this);
    }

    /** The second loop of subtract_aligned. */
    method PropagateBorrow(from: nat, borrow0: nat, ghost was: seq<Bigit>, ghost t: nat)
      requires from <= |was| == |bigits| && borrow0 <= 1 && Subtracted(bigits, was, from, borrow0, t) && t <= Num(was)
      modifies this`bigits
      ensures |bigits| == |was| && Num(bigits) + t == Num(was)
    {
      var i, borrow := from, borrow0;
      hide *;
      while borrow > 0
        invariant i <= |was| == |bigits| && borrow <= 1
        invariant Subtracted(bigits, was, i, borrow, t)
        decreases |was| - i
      {
        BorrowStep(bigits, was, i, t);
        var r := SubtractBigit(bigits[i], 0, borrow);
        bigits := bigits[i := r.0];
        borrow := r.1;
        i := i + 1;
      }
      SubtractedEnd(bigits, was, i, t);
    }

    /**
     * Leaves the remainder and returns the quotient, by repeated subtraction. When the first
     * comparison meets the inexact case of compare, equal values with a larger exponent on
     * this side, the quotient is zero and nothing changes.
     */
    method DivmodAssign(divisor: Bigint) returns (quotient: nat)
      requires divisor != this && Valid() && divisor.Valid() && divisor.Value() > 0
      requires Value() == 0 ==> NumBigits() <= divisor.NumBigits()
      modifies this
      ensures Valid() && old(Value()) == quotient * divisor.Value() + Value()
      ensures if old(Missed(this, divisor)) then quotient == 0 else Value() < divisor.Value()
      ensures quotient == 0 ==> bigits == old(bigits) && exp == old(exp)
      ensures quotient > 0 ==> exp == if old(exp) > divisor.exp then divisor.exp else old(exp)
      ensures Value() == 0 ==> NumBigits() <= divisor.NumBigits()
    {
      var c := Compare(this, divisor);
      if c < 0 {
        return 0;
      }
      AtLeast(this, divisor);
      Align(divisor);
      quotient := 0;
      ghost var v := old(Value());
      hide *;
      while true
        invariant Valid() && divisor.Valid() && divisor.Value() > 0 && exp <= divisor.exp
        invariant exp == (if old(exp) > divisor.exp then divisor.exp else old(exp))
        invariant Value() >= divisor.Value() && NumBigits() >= divisor.NumBigits()
        invariant v == quotient * divisor.Value() + Value()
        invariant bigits != []
        decreases Value()
      {
        SubtractAligned(divisor);
        QuotientStep(quotient, divisor.Value(), v);
        quotient := quotient + 1;
        RemainderSize(this, divisor);
        c := Compare(this, divisor);
        if c < 0 {
          break;
        }
        AtLeast(this, divisor);
        NormalNonempty(this);
      }
    }
  }

  // ----- Powers of ten -----

  ghost predicate IsPowerOfTwoOrZero(m: nat) {
    m == 0 || exists k: nat :: m == Pow(2, k)
  }

  /** The top bit of e, found by doubling. */
  method TopBit(e: nat) returns (m: nat)
    requires e > 0
    ensures m <= e < 2 * m && m != 0 && IsPowerOfTwoOrZero(m)
  {
    m := 1;
    OneIsPower();
    hide *;
    while e >= m
      invariant m > 0 && IsPowerOfTwoOrZero(m) && (m == 1 || (m % 2 == 0 && m / 2 <= e))
      decreases e - m
    {
      DoubledPower(m);
      m := m * 2;
    }
    HalfPower(m);
    m := m / 2;
  }

  lemma OneIsPower()
    ensures IsPowerOfTwoOrZero(1)
  {
    assert Pow(2, 0) == 1;
  }

  lemma DoubledPower(m: nat)
    requires m > 0 && IsPowerOfTwoOrZero(m)
    ensures IsPowerOfTwoOrZero(m * 2)
  {
    var k: nat :| m == Pow(2, k);
    DoublePower(k);
    assert m * 2 == Pow(2, k + 1);
  }

  lemma DoublePower(k: nat)
    ensures Pow(2, k + 1) == 2 * Pow(2, k)
  {}

  /** bitmask <<= 1 in a 32-bit int, where it wraps around. */
  function ShiftInt(m: int): int {
    var d := 2 * m % 0x1_0000_0000;
    if d >= 0x8000_0000 then d - 0x1_0000_0000 else d
  }

  /** The bitmask of assign_pow10 after k rounds of its first loop. */
  function Bitmask(k: nat): int {
    if k == 0 then 1 else ShiftInt(Bitmask(k - 1))
  }

  lemma ShiftIntIs(m: int)
    ensures 0 <= m < 0x4000_0000 ==> ShiftInt(m) == 2 * m
    ensures ShiftInt(0x4000_0000) == -0x8000_0000 && ShiftInt(-0x8000_0000) == 0
  {}

  lemma {:induction false} BitmaskIs(k: nat)
    ensures Bitmask(k) == if k <= 30 then Pow(2, k) else if k == 31 then -0x8000_0000 else 0
  {
    TwoTo30();
    if k > 0 {
      BitmaskIs(k - 1);
      DoublePower(k - 1);
      ShiftIntIs(Bitmask(k - 1));
      hide Pow, ShiftInt;
      if k <= 30 {
        PowMono(2, k, 30);
      }
    }
  }

  lemma TwoTo30()
    ensures Pow(2, 30) == 0x4000_0000 && Pow(2, 0) == 1
  {
    assert Pow(2, 15) == 32768;
    PowAdd(2, 15, 15);
  }

  /** The loop that looks for the top bit ends exactly for exponents below 2^30: the bitmask gets no larger than that. */
  lemma BitmaskLoopEnds(e: nat)
    requires e <= 0x7fff_ffff
    ensures (exists k: nat :: e < Bitmask(k)) <==> e < 0x4000_0000
  {
    hide Bitmask, Pow;
    TwoTo30();
    BitmaskIs(30);
    forall k: nat ensures Bitmask(k) <= 0x4000_0000 {
      BitmaskIs(k);
      if k <= 30 {
        PowMono(2, k, 30);
      }
    }
  }

  function Quotient(e: nat, d: nat): (q: nat)
    requires d > 0
    ensures q <= e
  {
    QuotientBound(e, d);
    e / d
  }

  lemma QuotientBound(e: nat, d: nat)
    requires d > 0
    ensures 0 <= e / d <= e
  {
    var q := e / d;
    assert e == d * q + e % d;
    hide *;
    MulLeCancel(d, -1, q);
    if q > 0 {
      MulLe(q, 1, d);
    }
  }

  /** (e & m) != 0 for a power of two m. */
  predicate BitSet(e: nat, m: nat)
    requires m > 0
  {
    Quotient(e, m) % 2 != 0
  }

  /** The exponent reached when the bits of e from 2 * bitmask up have been used. */
  ghost function PrefixExponent(e: nat, bitmask: nat): (x: nat)
    ensures x <= e
  {
    if bitmask == 0 then e else Quotient(e, 2 * bitmask)
  }

  lemma HalfPower(m: nat)
    requires IsPowerOfTwoOrZero(m) && m != 0
    ensures IsPowerOfTwoOrZero(m / 2) && (m == 1 || m == 2 * (m / 2)) && m / 2 < m
  {
    var k: nat :| m == Pow(2, k);
    if k > 0 {
      assert m == 2 * Pow(2, k - 1);
    }
  }

  lemma FirstPower(e: nat, m: nat)
    requires m <= e < 2 * m && IsPowerOfTwoOrZero(m)
    ensures PrefixExponent(e, m / 2) == 1 && IsPowerOfTwoOrZero(m / 2)
    ensures Pow(5, 1) == 5
  {
    HalfPower(m);
    if m > 1 {
      DivModUnique(e, m, 1, e - m);
    }
  }

  lemma NextPower(e: nat, m: nat)
    requires m != 0 && (m == 1 || m == 2 * (m / 2))
    ensures var x := PrefixExponent(e, m);
            var square := Pow(5, x) * Pow(5, x);
            Pow(5, PrefixExponent(e, m / 2)) == if BitSet(e, m) then square * 5 else square
  {
    var x := PrefixExponent(e, m);
    HalvedQuotient(e, m);
    if m == 1 {
      QuotientByOne(e);
    }
    assert PrefixExponent(e, m / 2) == Quotient(e, m);
    PowAdd(5, x, x);
    hide Quotient, PrefixExponent;
    assert Pow(5, x + x + 1) == 5 * Pow(5, x + x);
  }

  lemma QuotientByOne(e: nat)
    ensures Quotient(e, 1) == e
  {}

  lemma HalvedQuotient(e: nat, m: nat)
    requires m > 0
    ensures Quotient(e, m) == 2 * Quotient(e, 2 * m) + Quotient(e, m) % 2
  {
    var q, r := e / m, e % m;
    var h, b := q / 2, q % 2;
    assert e == m * q + r;
    HalvedArithmetic(e, m, h, b, r);
    DivModUnique(e, 2 * m, h, m * b + r);
  }

  lemma HalvedArithmetic(e: nat, m: nat, h: int, b: nat, r: nat)
    requires e == m * (2 * h + b) + r && b < 2 && r < m
    ensures e == (2 * m) * h + (m * b + r) && 0 <= m * b + r < 2 * m
  {
    assert m * (2 * h + b) == (2 * m) * h + m * b;
    MulLe(m, b, 1);
  }

  /** 5^x has few enough bigits for the int arithmetic of Square. */
  lemma PowerFits(b: Bigint, x: nat, e: nat)
    requires b.Valid() && b.exp == 0 && b.Value() == Pow(5, x) && x <= e < 0x4000_0000
    ensures |b.bigits| < 0x8000_0000
  {
    var m := |b.bigits| - 1;
    BPowZero();
    TopNonzero(b.bigits);
    assert Num(b.bigits) == Pow(5, x);
    BitsOfBigits(m);
    FiveBits(x);
    hide *;
    if 32 * m > 3 * x {
      PowStrict(3 * x, 32 * m);
    }
  }

  lemma {:induction false} FiveBits(x: nat)
    ensures Pow(5, x) <= Pow(2, 3 * x)
  {
    if x > 0 {
      FiveBits(x - 1);
      PowAdd(2, 3, 3 * (x - 1));
      assert Pow(2, 3) == 8;
    }
  }

  lemma PowStrict(m: nat, n: nat)
    requires m < n
    ensures Pow(2, m) < Pow(2, n)
  {
    PowMono(2, m + 1, n);
  }

  lemma {:induction false} PowProduct(a: nat, b: nat, e: nat)
    ensures Pow(a, e) * Pow(b, e) == Pow(a * b, e)
  {
    if e > 0 {
      PowProduct(a, b, e - 1);
      PairProduct(a, Pow(a, e - 1), b, Pow(b, e - 1));
    }
  }

  lemma PairProduct(a: nat, x: nat, b: nat, y: nat)
    ensures (a * x) * (b * y) == (a * b) * (x * y)
  {}

  lemma AllBits(e: nat)
    ensures PrefixExponent(e, 0) == e
  {}

  // ----- Comparisons -----

  /** A zero must not pretend to have more bigits than the number it is compared with. */
  ghost predicate Comparable(lhs: Bigint, rhs: Bigint)
    reads lhs, rhs
  {
    && lhs.Valid() && rhs.Valid()
    && (lhs.Value() == 0 ==> lhs.NumBigits() <= rhs.NumBigits())
    && (rhs.Value() == 0 ==> rhs.NumBigits() <= lhs.NumBigits())
  }

  /** Equal values that compare reports as less, because the left side has the larger exponent. */
  ghost predicate Missed(lhs: Bigint, rhs: Bigint)
    reads lhs, rhs
  {
    lhs.exp > rhs.exp && lhs.Value() == rhs.Value()
  }

  /**
   * compare: the sign of lhs - rhs, except that equal values with different exponents are
   * reported as different, and that a zero with more bigits is reported as the larger number.
   */
  method Compare(lhs: Bigint, rhs: Bigint) returns (r: int)
    requires lhs.Valid() && rhs.Valid()
    ensures Comparable(lhs, rhs) ==> r == CompareResult(lhs.Value(), lhs.exp, rhs.Value(), rhs.exp)
    ensures lhs.NumBigits() != rhs.NumBigits() ==> r == Sign(lhs.NumBigits(), rhs.NumBigits())
  {
    var numLhs, numRhs := lhs.NumBigits(), rhs.NumBigits();
    ghost var s, e, t, f := lhs.bigits, lhs.exp, rhs.bigits, rhs.exp;
    if numLhs != numRhs {
      if Comparable(lhs, rhs) {
        if numLhs > numRhs {
          DifferentSizes(s, e, t, f);
        } else {
          DifferentSizes(t, f, s, e);
        }
      }
      return if numLhs > numRhs then 1 else -1;
    }
    var i, j := |lhs.bigits| - 1, |rhs.bigits| - 1;
    var end := i - j;
    if end < 0 {
      end := 0;
    }
    HighTop(s, e, e + i + 1);
    HighTop(t, f, f + j + 1);
    ghost var tops := e + i;
    hide High, Val, Normal;
    while i >= end
      invariant -1 <= i < |s| && -1 <= j < |t| && e + i == f + j && i >= end - 1
      invariant end == if e > f then 0 else |s| - |t|
      invariant High(s, e, e + i + 1) == High(t, f, f + j + 1)
      decreases i
    {
      var lhsBigit, rhsBigit := lhs.bigits[i], rhs.bigits[j];
      HighStep(s, e, e + i);
      HighStep(t, f, f + j);
      if lhsBigit != rhsBigit {
        if lhsBigit > rhsBigit {
          HighOrder(s, e, t, f, e + i);
        } else {
          HighOrder(t, f, s, e, e + i);
        }
        return if lhsBigit > rhsBigit then 1 else -1;
      }
      i, j := i - 1, j - 1;
    }
    if e <= f {
      CompareEnd(s, e, t, f);
    } else {
      CompareEnd(t, f, s, e);
    }
    if i != j {
      return if i > j then 1 else -1;
    }
    return 0;
  }

  /** add_compare: the exact sign of lhs1 + lhs2 - rhs, whatever the exponents. */
  method AddCompare(lhs1: Bigint, lhs2: Bigint, rhs: Bigint) returns (r: int)
    requires lhs1.Valid() && lhs2.Valid() && rhs.Valid() && rhs.Value() > 0
    requires lhs1.Value() == 0 ==> lhs1.NumBigits() <= rhs.NumBigits()
    requires lhs2.Value() == 0 ==> lhs2.NumBigits() <= rhs.NumBigits()
    ensures r == Sign(lhs1.Value() + lhs2.Value(), rhs.Value())
  {
    ghost var s, e, t, f, u, g := lhs1.bigits, lhs1.exp, lhs2.bigits, lhs2.exp, rhs.bigits, rhs.exp;
    var maxLhs := Max(lhs1.NumBigits(), lhs2.NumBigits());
    var numRhs := rhs.NumBigits();
    if maxLhs + 1 < numRhs {
      SumTooSmall(s, e, t, f, u, g);
      return -1;
    }
    if maxLhs > numRhs {
      if lhs1.NumBigits() > numRhs {
        DifferentSizes(s, e, u, g);
      } else {
        DifferentSizes(t, f, u, g);
      }
      return 1;
    }
    var borrow := 0;
    var minExp := Min(Min(lhs1.exp, lhs2.exp), rhs.exp);
    var i: int := numRhs - 1;
    HighTop(s, e, i + 1);
    HighTop(t, f, i + 1);
    HighTop(u, g, i + 1);
    hide High, Val, Normal, Digit;
    while i >= minExp
      invariant minExp - 1 <= i < numRhs
      invariant borrow == 0x1_0000_0000 * (High(u, g, i + 1) - (High(s, e, i + 1) + High(t, f, i + 1)))
      invariant borrow == 0 || borrow == 0x1_0000_0000
    {
      HighStep(s, e, i);
      HighStep(t, f, i);
      HighStep(u, g, i);
      AddDecided(s, e, t, f, u, g, i);
      var sum := Digit(lhs1.bigits, lhs1.exp, i) + Digit(lhs2.bigits, lhs2.exp, i);
      var rhsBigit := Digit(rhs.bigits, rhs.exp, i);
      if sum > rhsBigit + borrow {
        return 1;
      }
      borrow := rhsBigit + borrow - sum;
      if borrow > 1 {
        return -1;
      }
      borrow := borrow * 0x1_0000_0000;
      i := i - 1;
    }
    AddEnd(s, e, t, f, u, g, minExp);
    return if borrow != 0 then -1 else 0;
  }

  function Max(a: int, b: int): int {
    if a > b then a else b
  }

  function Min(a: int, b: int): int {
    if a < b then a else b
  }

  // ----- Division -----

  lemma OneBigit(s: seq<Bigit>)
    requires |s| == 1
    ensures Num(s) == s[0]
  {
    assert s[..0] == [];
    BPowZero();
  }

  /** The bigits of was above position i have been moved d places up. */
  ghost predicate Moved(now: seq<Bigit>, was: seq<Bigit>, i: int, d: nat) {
    -1 <= i < |was| && |now| == |was| + d && now[..i + 1] == was[..i + 1] && now[i + 1 + d..] == was[i + 1..]
  }

  lemma NoneMoved(was: seq<Bigit>, room: seq<Bigit>, d: nat)
    requires |room| == d && was != []
    ensures Moved(was + room, was, |was| - 1, d)
  {}

  lemma MovedUp(now: seq<Bigit>, was: seq<Bigit>, i: nat, d: nat)
    requires d > 0 && Moved(now, was, i, d)
    ensures i + d < |now| && Moved(now[i + d := now[i]], was, i - 1, d)
  {
    var next := now[i + d := now[i]];
    assert now[i] == now[..i + 1][i] == was[i];
    assert next[..i] == now[..i + 1][..i];
    assert next[i + d..] == [now[i]] + now[i + 1 + d..];
    assert was[i..] == [was[i]] + was[i + 1..];
  }

  lemma AllMoved(now: seq<Bigit>, was: seq<Bigit>, d: nat)
    requires Moved(now, was, -1, d)
    ensures |now| == |was| + d && now[d..] == was
  {
    assert was[0..] == was;
  }

  lemma AlignedValue(was: seq<Bigit>, e: nat, d: nat, now: seq<Bigit>)
    requires now == seq<Bigit>(d, _ => 0) + was
    ensures Val(now, e) == Val(was, e + d) && |now| == |was| + d
    ensures Normal(was) && Val(was, e + d) > 0 ==> Normal(now)
  {
    ValZeros(d, was, e);
    if Normal(was) && Val(was, e + d) > 0 {
      AlignedNormal(was, e + d, d);
    }
    hide Val, Normal;
  }

  lemma AlignedNormal(s: seq<Bigit>, e: nat, d: nat)
    requires Normal(s) && Val(s, e) > 0
    ensures Normal(seq<Bigit>(d, _ => 0) + s)
  {
    ZeroTimes(BPow(e));
    if |s| == 1 {
      OneBigit(s);
    }
    hide Num, BPow;
  }

  lemma SeveralBigits(s: seq<Bigit>, e: nat)
    requires Normal(s) && |s| > 1
    ensures Val(s, e) > 0
  {
    TopNonzero(s);
    MulLe(BPow(e), 1, Num(s));
  }

  lemma SubtractStart(x: Bigint, other: Bigint)
    requires x.bigits != [] && other.exp >= x.exp && x.Value() >= other.Value() && x.NumBigits() >= other.NumBigits()
    ensures var d := other.exp - x.exp;
            && d + |other.bigits| <= |x.bigits|
            && Subtracted(x.bigits, x.bigits, d, 0, Val(other.bigits[..0], d))
            && Val(other.bigits, d) <= Num(x.bigits)
  {
    var d := other.exp - x.exp;
    assert other.bigits[..0] == [];
    ZeroTimes(BPow(d));
    ValExponents(other.bigits, d, x.exp);
    MulLeCancel(BPow(x.exp), Val(other.bigits, d), Num(x.bigits));
    assert d + x.exp == other.exp;
    assert BPow(x.exp) * Num(x.bigits) == x.Value();
  }

  /** One bigit of the number to subtract. */
  lemma SubtractOne(now: seq<Bigit>, was: seq<Bigit>, other: seq<Bigit>, j: nat, d: nat, borrow: nat)
    requires j < |other| && d + j < |was| == |now| && borrow <= 1 && Subtracted(now, was, d + j, borrow, Val(other[..j], d))
    ensures var r := SubtractBigit(now[d + j], other[j], borrow);
            r.1 <= 1 && Subtracted(now[d + j := r.0], was, d + j + 1, r.1, Val(other[..j + 1], d))
  {
    hide *;
    var r := SubtractBigit(now[d + j], other[j], borrow);
    SubtractedStep(now, was, d + j, borrow, Val(other[..j], d), other[j], r.0, r.1);
    ShiftedPrefix(other, j, d);
  }

  lemma BorrowStep(now: seq<Bigit>, was: seq<Bigit>, i: nat, t: nat)
    requires i <= |now| == |was| && Subtracted(now, was, i, 1, t) && t <= Num(was)
    ensures i < |now|
    ensures var r := SubtractBigit(now[i], 0, 1); Subtracted(now[i := r.0], was, i + 1, r.1, t)
  {
    NoBorrowLeft(now, was, i, 1, t);
    hide *;
    var r := SubtractBigit(now[i], 0, 1);
    SubtractedStep(now, was, i, 1, t, 0, r.0, r.1);
    ZeroTimes(BPow(i));
  }

  lemma SubtractValue(was: seq<Bigit>, now: seq<Bigit>, other: seq<Bigit>, e: nat, f: nat)
    requires f >= e && Num(now) + Val(other, f - e) == Num(was)
    ensures Val(now, e) + Val(other, f) == Val(was, e)
  {
    ValExponents(other, f - e, e);
    assert f - e + e == f;
    hide Num, BPow;
    Distribute(Num(now), Val(other, f - e), BPow(e));
  }

  lemma Distribute(a: nat, b: nat, p: nat)
    ensures (a + b) * p == a * p + b * p
  {}

  /** compare(x, divisor) >= 0 where it is exact. */
  lemma AtLeast(x: Bigint, divisor: Bigint)
    requires x.Valid() && divisor.Valid() && divisor.Value() > 0
    requires CompareResult(x.Value(), x.exp, divisor.Value(), divisor.exp) >= 0
    ensures x.Value() >= divisor.Value() && x.bigits != [] && x.NumBigits() >= divisor.NumBigits()
  {
    if x.NumBigits() < divisor.NumBigits() {
      DifferentSizes(divisor.bigits, divisor.exp, x.bigits, x.exp);
    }
  }

  lemma RemainderSize(x: Bigint, divisor: Bigint)
    requires x.Valid() && divisor.Valid() && x.exp <= divisor.exp && divisor.Value() > 0
    ensures x.Value() == 0 ==> x.NumBigits() <= divisor.NumBigits()
    ensures Comparable(x, divisor)
  {
    if |x.bigits| > 1 {
      SeveralBigits(x.bigits, x.exp);
    }
  }

  lemma QuotientStep(q: nat, d: nat, v: nat)
    ensures (q + 1) * d == q * d + d
  {}

  lemma ZeroTop(s: seq<Bigit>, n: nat)
    requires n < |s| && s[n] == 0
    ensures Num(s[..n + 1]) == Num(s[..n])
  {
    NumPrefix(s, n);
  }

  lemma ValueIs(x: Bigint)
    ensures x.Value() == Num(x.bigits) * BPow(x.exp)
    ensures Normal(x.bigits) <==> x.Valid()
  {}

  lemma NormalNonempty(x: Bigint)
    requires x.Valid()
    ensures x.bigits != []
  {}

  lemma SameTail(now: seq<Bigit>, was: seq<Bigit>, i: nat, carry: nat, v: nat)
    requires i < |now| == |was| && Multiplied(now, was, i, carry, v)
    ensures now[i] == was[i]
  {
    assert now[i..][0] == was[i..][0];
  }

  /** One iteration of the wide multiplication: the new bigit and the new carry. */
  function WideProduct(b: Bigit, lower: nat, upper: nat, carry: nat, wide: bool): (r: (Bigit, nat)) {
    var result := Truncate(lower * b + carry % 0x1_0000_0000, wide);
    (result % 0x1_0000_0000,
     Truncate(UpShift(upper * b, wide) + result / 0x1_0000_0000 + carry / 0x1_0000_0000, wide))
  }

  lemma WideIteration(b: Bigit, v: nat, wide: bool, lower: nat, upper: nat, carry: nat)
    requires v == upper * Half(wide) + lower && lower < Half(wide) && upper < Half(wide) && carry <= v
    ensures var r := WideProduct(b, lower, upper, carry, wide);
            r.0 + 0x1_0000_0000 * r.1 == b * v + carry && r.1 <= v
  {
    WideStep(b, v, wide, lower, upper, carry);
    hide UpShift, Half;
  }

  lemma SmallShift(s: nat)
    requires s < 32
    ensures 0 < Pow(2, s) < 0x1_0000_0000 && (s == 0 ==> Pow(2, s) == 1)
  {
    TwoTo32();
    PowMono(2, s, 31);
    assert Pow(2, 32) == 2 * Pow(2, 31);
  }

  /** One iteration of the shift by 0 < s < 32 bits: the new bigit and the bits shifted out. */
  function ShiftBigit(b: Bigit, s: nat, carry: nat): (r: (Bigit, nat))
    requires 0 < s < 32 && carry < Pow(2, s)
    ensures r.0 + 0x1_0000_0000 * r.1 == b * Pow(2, s) + carry && r.1 < Pow(2, s)
  {
    ShiftIteration(b, s, carry);
    (b * Pow(2, s) % 0x1_0000_0000 + carry, b / Pow(2, 32 - s))
  }

  lemma ShiftIteration(b: Bigit, s: nat, carry: nat)
    requires 0 < s < 32 && carry < Pow(2, s)
    ensures var lo, hi := b * Pow(2, s) % 0x1_0000_0000 + carry, b / Pow(2, 32 - s);
            lo < 0x1_0000_0000 && hi < Pow(2, s) && lo + 0x1_0000_0000 * hi == b * Pow(2, s) + carry
  {
    PowAdd(2, s, 32 - s);
    TwoTo32();
    assert s + (32 - s) == 32;
    ShiftSplit(b, Pow(2, s), Pow(2, 32 - s));
  }

  lemma AssignStep(s: seq<Bigit>, rest: nat)
    requires s != [] && rest != 0
    ensures Num(s + [rest % 0x1_0000_0000]) + (rest / 0x1_0000_0000) * BPow(|s| + 1) == Num(s) + rest * BPow(|s|)
    ensures rest / 0x1_0000_0000 == 0 ==> Normal(s + [rest % 0x1_0000_0000])
  {
    NumAppend(s, rest % 0x1_0000_0000);
    BPowSucc(|s|);
    SplitWeight(rest, BPow(|s|));
  }

  lemma SplitWeight(rest: nat, p: nat)
    ensures (rest % 0x1_0000_0000) * p + (rest / 0x1_0000_0000) * (0x1_0000_0000 * p) == rest * p
  {
    var h, l := rest / 0x1_0000_0000, rest % 0x1_0000_0000;
    assert (0x1_0000_0000 * h + l) * p == h * (0x1_0000_0000 * p) + l * p;
  }

  lemma NarrowStep(b: Bigit, v: nat, carry: nat)
    requires v < 0x1_0000_0000 && carry < 0x1_0000_0000
    ensures 0 <= b * v + carry < 0x1_0000_0000_0000_0000
  {
    MulBound(b, v, 0xffff_ffff);
  }

  lemma ScaleValue(n: nat, v: nat, p: nat)
    ensures (n * v) * p == (n * p) * v
  {}

  lemma SplitHalves(value: nat, wide: bool)
    requires Fits(value, wide)
    ensures value == (value / Half(wide)) * Half(wide) + value % Half(wide)
    ensures value % Half(wide) < Half(wide) && value / Half(wide) < Half(wide)
  {}

  // ----- Squaring -----

  /** Addition in the 128-bit accumulator. */
  function Accumulate(sum: nat, x: nat): (r: nat)
    ensures sum + x < 0x1_0000_0000_0000_0000_0000_0000_0000_0000 ==> r == sum + x
  {
    (sum + x) % 0x1_0000_0000_0000_0000_0000_0000_0000_0000
  }

  /** The first inner loop: all cross products of diagonal k < |n|, without overflow. */
  method LowerDiagonal(n: seq<Bigit>, k: nat, sum0: nat) returns (sum: nat)
    requires k < |n| < 0x8000_0000 && sum0 <= |n| * 0x1_0000_0000
    ensures sum == sum0 + Diagonal(n, n, k)
  {
    sum := sum0;
    var i, j := 0, k;
    while j >= 0
      invariant 0 <= i <= k + 1 && j == k - i && sum == sum0 + Part(n, n, k, i)
    {
      PartBound(n, n, k, i);
      CrossBound(n[i], n[j]);
      assert At(n, i) == n[i] && At(n, k - i) == n[j];
      sum := Accumulate(sum, n[i] as nat * n[j] as nat);
      i, j := i + 1, j - 1;
    }
  }

  /** The second inner loop: the cross products of diagonal k >= |n| whose indices are in range. */
  method UpperDiagonal(n: seq<Bigit>, k: nat, sum0: nat) returns (sum: nat)
    requires |n| <= k < 2 * |n| && |n| < 0x8000_0000 && sum0 <= |n| * 0x1_0000_0000
    ensures sum == sum0 + Diagonal(n, n, k)
  {
    sum := sum0;
    var j := |n| - 1;
    var i := k - j;
    PartBelow(n, n, k, i);
    PartAbove(n, n, k, k + 1);
    while i < |n|
      invariant k - |n| + 1 <= i <= |n| && j == k - i && sum == sum0 + Part(n, n, k, i)
    {
      PartBound(n, n, k, i);
      CrossBound(n[i], n[j]);
      assert At(n, i) == n[i] && At(n, k - i) == n[j];
      sum := Accumulate(sum, n[i] as nat * n[j] as nat);
      i, j := i + 1, j - 1;
    }
  }

  /** The bigits below k and the carried sum make the diagonals below k. */
  ghost predicate Squared(r: seq<Bigit>, n: seq<Bigit>, k: nat, sum: nat)
    requires k <= |r|
  {
    Num(r[..k]) + sum * BPow(k) == Diagonals(n, n, k)
  }

  lemma SquareStart(n: seq<Bigit>, r: seq<Bigit>)
    ensures Squared(r, n, 0, 0)
  {}

  lemma SquareStep(r: seq<Bigit>, n: seq<Bigit>, k: nat, before: nat, sum: nat)
    requires k < |r| && Squared(r, n, k, before) && sum == before + Diagonal(n, n, k)
    requires before <= |n| * 0x1_0000_0000
    ensures Squared(r[k := sum % 0x1_0000_0000], n, k + 1, sum / 0x1_0000_0000)
    ensures sum / 0x1_0000_0000 <= |n| * 0x1_0000_0000
  {
    var r' := r[k := sum % 0x1_0000_0000];
    assert r'[..k] == r[..k];
    NumPrefix(r', k);
    BPowSucc(k);
    DiagonalBound(n, k);
    var diagonal := Diagonal(n, n, k);
    assert Diagonals(n, n, k + 1) == Diagonals(n, n, k) + diagonal * BPow(k);
    hide Num, BPow, Diagonals, Diagonal;
    CarriedSum(Num(r[..k]), before, diagonal, sum, BPow(k), Diagonals(n, n, k));
    CarryBound(before, diagonal, |n|);
  }

  lemma CarriedSum(low: nat, before: nat, x: nat, sum: nat, p: nat, total: nat)
    requires low + before * p == total && sum == before + x
    ensures low + (sum % 0x1_0000_0000) * p + (sum / 0x1_0000_0000) * (0x1_0000_0000 * p) == total + x * p
  {
    SplitWeight(sum, p);
    assert (before + x) * p == before * p + x * p;
  }

  lemma CarryBound(before: nat, x: nat, n: nat)
    requires before <= n * 0x1_0000_0000 && x <= n * 0xffff_fffe_0000_0001
    ensures (before + x) / 0x1_0000_0000 <= n * 0x1_0000_0000
  {}

  lemma DiagonalBound(n: seq<Bigit>, k: nat)
    ensures Diagonal(n, n, k) <= |n| * 0xffff_fffe_0000_0001
  {
    if k + 1 > |n| {
      PartAbove(n, n, k, k + 1);
      PartBound(n, n, k, |n|);
    } else {
      PartBound(n, n, k, k + 1);
    }
  }

  lemma SquareEnd(r: seq<Bigit>, n: seq<Bigit>, sum: nat)
    requires |r| == 2 * |n| && n != [] && Squared(r, n, |r|, sum)
    ensures Num(r) == Num(n) * Num(n) && r != []
  {
    assert r[..|r|] == r;
    DiagonalsAreProduct(n, n, |r|);
    NumBound(n);
    BPowAdd(|n|, |n|);
    assert |n| + |n| == |r|;
    NoCarryLeft(Num(r), sum, Num(n), BPow(|n|), BPow(|r|));
  }

  lemma NoCarryLeft(r: nat, sum: nat, n: nat, p: nat, pp: nat)
    requires n < p && pp == p * p && r + sum * pp == n * n
    ensures sum == 0
  {
    MulBound(n, n, p - 1);
    assert (p - 1) * (p - 1) == pp - 2 * p + 1;
    if sum >= 1 {
      MulLe(pp, 1, sum);
    }
  }

  lemma SquareValue(n: nat, e: nat)
    ensures (n * n) * BPow(e * 2) == (n * BPow(e)) * (n * BPow(e))
  {
    BPowAdd(e, e);
    assert e + e == e * 2;
    FourFactors(n, n, BPow(e), BPow(e));
    MulFour(n, BPow(e));
  }

  lemma MulFour(n: nat, p: nat)
    ensures (n * p) * (n * p) == (n * n) * (p * p)
  {}
}
