/** Which notation do_write_float chooses for a value, and how many digits it writes. */
module FloatNotation {
  import opened Powers
  import opened Digits
  import opened WriteFloat

  // ----- The size of the value -----

  /** The value of digits without a leading zero lies between two powers of ten. */
  lemma ValueBounds(digits: string, exponent: int)
    requires digits != "" && AllDigits(digits) && digits[0] != '0'
    ensures RTen(exponent + |digits| - 1) <= DigitsVal(digits) as real * RTen(exponent) < RTen(exponent + |digits|)
  {
    hide *;
    var n := |digits|;
    LeadingDigit(digits);
    DigitsBound(digits);
    ScaledPower(n - 1, exponent);
    ScaledPower(n, exponent);
    assert n - 1 + exponent == exponent + n - 1 && n + exponent == exponent + n;
    BetweenScaled(DigitsVal(digits), Pow(10, n - 1), Pow(10, n), RTen(exponent), RTen(exponent + n - 1), RTen(exponent + n));
  }

  lemma LeadingDigit(digits: string)
    requires digits != "" && AllDigits(digits) && digits[0] != '0'
    ensures DigitsVal(digits) >= Pow(10, |digits| - 1)
  {
    assert digits == [digits[0]] + digits[1..];
    DigitsConcat([digits[0]], digits[1..]);
    OneDigit(digits[0]);
    DigitsBound(digits[1..]);
    assert CharDigit(digits[0]) >= 1;
    hide DigitsVal, Pow, AllDigits;
    MulLe(Pow(10, |digits| - 1), 1, CharDigit(digits[0]));
  }

  lemma ScaledPower(k: nat, e: int)
    ensures RTen(k + e) == Pow(10, k) as real * RTen(e) && RTen(e) > 0.0
  {
    hide *;
    RTenAdd(k, e);
    RTenPow(k);
  }

  lemma BetweenScaled(d: int, low: int, high: int, t: real, from: real, to: real)
    requires low <= d < high && t > 0.0 && from == low as real * t && to == high as real * t
    ensures from <= d as real * t < to
  {
    RCancelLe(t, low as real, d as real);
    RCancelLe(t, d as real, high as real);
  }

  lemma NotationBounds()
    ensures RTen(-4) == 0.0001 && RTen(16) == 10000000000000000.0
  {
    assert Pow(10, 4) == 10000;
    RTenPow(4);
    RTenAdd(-4, 4);
    RTenZero();
    hide RTen, Pow;
    RTenAdd(4, 4);
    RTenAdd(8, 8);
  }

  // ----- The notation -----

  /** Exactly exponent notation writes the exponent character, behind the mantissa. */
  lemma WritesExponent(digits: string, exponent: int, upper: bool, f: FloatSpecs)
    requires digits != "" && AllDigits(digits)
    ensures var c := if upper then 'E' else 'e';
            c in FloatText(digits, exponent, upper, f) <==> UsesExponent(f, exponent + |digits| - 1)
  {
    hide UsesExponent, ExponentText, IntegerText, SplitText, FractionText, ExpDigits;
    var c := if upper then 'E' else 'e';
    if UsesExponent(f, exponent + |digits| - 1) {
      ExponentShape(digits, exponent, upper, f);
    } else if exponent >= 0 {
      IntegerShape(digits, exponent, f, c);
    } else if exponent + |digits| > 0 {
      SplitShape(digits, exponent, f, c);
    } else {
      FractionShape(digits, exponent, f, c);
    }
  }

  /**
   * In general notation values from 0.0001 up to 10^16, or up to 10^precision if that is positive,
   * are written without an exponent.
   */
  lemma NotationOfValue(digits: string, exponent: int, upper: bool, f: FloatSpecs)
    requires digits != "" && AllDigits(digits) && digits[0] != '0'
    ensures var c, t := if upper then 'E' else 'e', FloatText(digits, exponent, upper, f);
            var v := DigitsVal(digits) as real * RTen(exponent);
            match f.format
            case Exponent => c in t
            case Fixed => c !in t
            case General =>
              c in t <==> v < 0.0001 || v >= if f.precision > 0 then RTen(f.precision) else 10000000000000000.0
  {
    WritesExponent(digits, exponent, upper, f);
    ValueBounds(digits, exponent);
    NotationBounds();
    var k := exponent + |digits| - 1;
    var bound := if f.precision > 0 then f.precision else 16;
    PowerOrder(k, bound);
    PowerOrder(k + 1, -4);
    PowerOrder(k, -4);
    PowerOrder(k + 1, bound);
    assert k + 1 == exponent + |digits|;
    hide DigitsVal, RTen, FloatText, AllDigits;
  }

  lemma PowerOrder(a: int, b: int)
    ensures RTen(a) < RTen(b) <==> a < b
    ensures RTen(a) <= RTen(b) <==> a <= b
  {
    if a < b {
      RTenMono(a + 1, b);
      RTenSucc(a);
    } else {
      RTenMono(b, a);
      if b < a {
        RTenMono(b + 1, a);
        RTenSucc(b);
      }
    }
    hide RTen;
  }

  /** Zero is written without an exponent, except in exponent notation. */
  lemma ZeroNotation(upper: bool, f: FloatSpecs)
    ensures var c := if upper then 'E' else 'e'; c in FloatText("0", 0, upper, f) <==> f.format == Exponent
  {
    WritesExponent("0", 0, upper, f);
    hide FloatText;
  }

  // ----- The number of digits -----

  /** The text before the exponent character. */
  function Mantissa(t: string, c: char): string {
    t[..Find(t, c)]
  }

  /** The number of characters before the point. */
  function Before(t: string, c: char): nat {
    Find(Mantissa(t, c), '.')
  }

  /** The number of characters behind the point. */
  function Behind(t: string, c: char): int {
    var m := Mantissa(t, c);
    if '.' in m then |m| - Find(m, '.') - 1 else 0
  }

  lemma PlainCount(t: string, c: char, i: string)
    requires AllDigits(i) && IsExponentChar(c) && Mantissa(t, c) == i
    ensures Before(t, c) == |i| && Behind(t, c) == 0 && '.' !in i
  {
    FindIs(i, '.', |i|);
  }

  lemma PointCount(t: string, c: char, i: string, tail: string)
    requires AllDigits(i) && IsExponentChar(c) && Mantissa(t, c) == i + "." + tail
    ensures Before(t, c) == |i| && Behind(t, c) == |tail|
  {
    FindIs(i + "." + tail, '.', |i|);
    hide Find;
    assert (i + "." + tail)[|i|] == '.';
  }

  lemma NoExponentMantissa(t: string, c: char)
    requires c !in t
    ensures Mantissa(t, c) == t
  {
    FindIs(t, c, |t|);
  }

  lemma ExponentMantissa(m: string, c: char, x: string)
    requires c !in m
    ensures Mantissa(m + [c] + x, c) == m
  {
    FindIs(m + [c] + x, c, |m|);
  }

  /**
   * Exponent notation writes one digit before the point. Without showpoint the digits are
   * those given; with it zeros fill them up to the precision. The point is left out if nothing
   * is behind it, unless showpoint is set. The exponent has a sign and two digits, or more if
   * it needs them.
   */
  lemma ExponentCounts(digits: string, exponent: int, upper: bool, f: FloatSpecs)
    requires digits != "" && AllDigits(digits)
    requires (if upper then 'E' else 'e') in FloatText(digits, exponent, upper, f)
    ensures var c, t := if upper then 'E' else 'e', FloatText(digits, exponent, upper, f);
            && Before(t, c) == 1
            && 1 + Behind(t, c) == (if f.showpoint && f.precision > |digits| then f.precision else |digits|)
            && ('.' in Mantissa(t, c) <==> f.showpoint || Behind(t, c) > 0)
            && var x := t[|Mantissa(t, c)| + 1..];
              && |x| >= 3 && x[0] in "+-" && AllDigits(x[1..]) && (|x| > 3 ==> x[1] != '0')
              && ExponentValue(x) == exponent + |digits| - 1
  {
    WritesExponent(digits, exponent, upper, f);
    ExponentDigits(exponent + |digits| - 1);
    ExponentForm(digits, exponent, upper, f);
    hide DigitsVal, ExpDigits, FloatText, ExponentValue, UsesExponent, Mantissa, Before, Behind;
  }

  lemma ExponentForm(digits: string, exponent: int, upper: bool, f: FloatSpecs)
    requires digits != "" && AllDigits(digits) && UsesExponent(f, exponent + |digits| - 1)
    ensures var c, t := if upper then 'E' else 'e', FloatText(digits, exponent, upper, f);
            var m := Mantissa(t, c);
            && |m| < |t| && t[|m| + 1..] == ExpDigits(exponent + |digits| - 1)
            && Before(t, c) == 1
            && 1 + Behind(t, c) == (if f.showpoint && f.precision > |digits| then f.precision else |digits|)
            && ('.' in m <==> f.showpoint || Behind(t, c) > 0)
  {
    ExponentShape(digits, exponent, upper, f);
    var c, t := if upper then 'E' else 'e', FloatText(digits, exponent, upper, f);
    var zeros := if f.showpoint then Max(f.precision - |digits|, 0) else 0;
    var tail := digits[1..] + Zeros(zeros);
    var m := if f.showpoint || |digits| > 1 then digits[..1] + "." + tail else digits;
    hide DigitsVal, ExpDigits, ExponentText, UsesExponent, Zeros, Mantissa, Before, Behind;
    ExponentMantissa(m, c, ExpDigits(exponent + |digits| - 1));
    BehindIt(m, c, ExpDigits(exponent + |digits| - 1));
    if f.showpoint || |digits| > 1 {
      PointCount(t, c, digits[..1], tail);
      assert m[1] == '.';
    } else {
      PlainCount(t, c, digits);
    }
  }

  lemma BehindIt(m: string, c: char, x: string)
    ensures (m + [c] + x)[|m| + 1..] == x
  {}

  /**
   * Without an exponent all digits before the point are written, and a zero if there are none.
   * Behind it are the digits left; showpoint fills them with zeros, so that the number of
   * digits is the precision, unless the value is below one.
   */
  lemma FixedCounts(digits: string, exponent: int, upper: bool, f: FloatSpecs)
    requires (digits != "" || f.format == Fixed) && AllDigits(digits)
    requires (if upper then 'E' else 'e') !in FloatText(digits, exponent, upper, f)
    ensures var c, t := if upper then 'E' else 'e', FloatText(digits, exponent, upper, f);
            var size := |digits| + exponent;
            && Mantissa(t, c) == t
            && Before(t, c) == (if exponent >= 0 || size > 0 then size else 1)
            && Behind(t, c) == (if exponent >= 0 then if f.showpoint && f.precision > size then f.precision - size else 0
                                else if size > 0 then
                                  if f.showpoint && f.precision > |digits| then f.precision - size else -exponent
                                else if digits == "" && 0 <= f.precision < -exponent then f.precision
                                else -exponent)
            && ('.' in t <==> f.showpoint || Behind(t, c) > 0)
  {
    if digits != "" {
      WritesExponent(digits, exponent, upper, f);
    }
    assert !UsesExponent(f, exponent + |digits| - 1);
    hide DigitsVal, IntegerText, SplitText, FractionText, Zeros, Mantissa, Before, Behind, UsesExponent;
    var c, t := if upper then 'E' else 'e', FloatText(digits, exponent, upper, f);
    if exponent >= 0 {
      IntegerShape(digits, exponent, f, c);
      NoExponentMantissa(t, c);
      IntegerCount(t, c, digits + Zeros(exponent), f, Max(f.precision - (exponent + |digits|), 0));
    } else if exponent + |digits| > 0 {
      SplitShape(digits, exponent, f, c);
      NoExponentMantissa(t, c);
      var n := exponent + |digits|;
      PointCount(t, c, digits[..n], digits[n..] + Zeros(if f.showpoint then Max(f.precision - |digits|, 0) else 0));
      assert t[n] == '.';
    } else {
      FractionShape(digits, exponent, f, c);
      NoExponentMantissa(t, c);
      FractionCount(t, c, digits, exponent, f);
    }
  }

  lemma IntegerCount(t: string, c: char, i: string, f: FloatSpecs, zeros: nat)
    requires AllDigits(i) && IsExponentChar(c) && Mantissa(t, c) == t && t == if f.showpoint then i + "." + Zeros(zeros) else i
    ensures Before(t, c) == |i| && Behind(t, c) == (if f.showpoint then zeros else 0) && ('.' in t <==> f.showpoint)
  {
    hide Mantissa, Before, Behind;
    if f.showpoint {
      PointCount(t, c, i, Zeros(zeros));
      assert t[|i|] == '.';
    } else {
      PlainCount(t, c, i);
    }
  }

  lemma FractionCount(t: string, c: char, digits: string, exponent: int, f: FloatSpecs)
    requires exponent < 0 && exponent + |digits| <= 0 && AllDigits(digits) && IsExponentChar(c)
    requires t == FractionText(digits, exponent, f) && Mantissa(t, c) == t
    ensures Before(t, c) == 1 && ('.' in t <==> f.showpoint || Behind(t, c) > 0)
    ensures Behind(t, c) == if digits == "" && 0 <= f.precision < -exponent then f.precision else -exponent
  {
    FractionShape(digits, exponent, f, c);
    var zeros := LeadingZeros(digits, exponent, f);
    hide FractionText, DigitsVal, Mantissa, Before, Behind, Zeros;
    if zeros != 0 || digits != "" || f.showpoint {
      PointCount(t, c, "0", Zeros(zeros) + digits);
      assert t[1] == '.';
    } else {
      PlainCount(t, c, "0");
    }
  }

  /** The exponent is written with a sign and two digits, or more if it needs them. */
  lemma ExponentDigits(e: int)
    ensures var x := ExpDigits(e);
            && |x| >= 3 && x[0] == (if e < 0 then '-' else '+') && AllDigits(x[1..]) && ExponentValue(x) == e
            && (|x| > 3 ==> x[1] != '0')
  {
    ExpDigitsValue(e);
    var a := if e >= 0 then e else -e;
    if a >= 10 {
      DecimalSize(a);
    }
    hide DigitsVal, ExponentValue, Decimal;
    assert ExpDigits(e)[1..] == (if a < 10 then "0" else "") + Decimal(a);
  }
}
