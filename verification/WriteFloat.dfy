/** do_write_float: the text of significand * 10^exponent in its four layouts. */
module WriteFloat {
  import opened Options
  import opened Powers
  import opened Digits

  // ----- What a text denotes -----

  function Find(s: string, c: char): (p: nat)
    ensures p <= |s| && (p < |s| ==> s[p] == c) && forall i :: 0 <= i < p ==> s[i] != c
  {
    if s == "" || s[0] == c then 0 else 1 + Find(s[1..], c)
  }

  /** d * 10^e. */
  function Decimals(d: int, e: int): real {
    d as real * RTen(e)
  }

  /** Digits with an optional point. */
  function MantissaValue(m: string): real {
    var p := Find(m, '.');
    if p == |m| then DigitsVal(m) as real
    else Decimals(DigitsVal(m[..p] + m[p + 1..]), -(|m| - p - 1))
  }

  /** A sign and digits. */
  function ExponentValue(x: string): int {
    if x == "" then 0 else if x[0] == '-' then -DigitsVal(x[1..]) else DigitsVal(x[1..])
  }

  /** A mantissa, optionally followed by e or E and an exponent. */
  function NumberValue(t: string, exponentChar: char): real {
    var p := Find(t, exponentChar);
    if p == |t| then MantissaValue(t) else MantissaValue(t[..p]) * RTen(ExponentValue(t[p + 1..]))
  }

  lemma FindIs(s: string, c: char, p: nat)
    requires p <= |s| && (p < |s| ==> s[p] == c) && forall i :: 0 <= i < p ==> s[i] != c
    ensures Find(s, c) == p
  {}

  /** The text denotes d * 10^e. */
  ghost predicate Reads(t: string, c: char, d: int, e: int) {
    NumberValue(t, c) == Decimals(d, e)
  }

  ghost predicate MantissaReads(m: string, d: int, e: int) {
    MantissaValue(m) == Decimals(d, e)
  }

  lemma PlainReads(i: string)
    requires AllDigits(i)
    ensures MantissaReads(i, DigitsVal(i), 0)
  {
    hide DigitsVal, RTen;
    RTenZero();
    FindIs(i, '.', |i|);
  }

  lemma PointReads(i: string, f: string)
    requires AllDigits(i)
    ensures MantissaReads(i + "." + f, DigitsVal(i + f), -|f|)
  {
    hide DigitsVal, Decimals, Find, MantissaValue;
    var m := i + "." + f;
    FindIs(m, '.', |i|);
    MantissaWithPoint(m, |i|);
    assert m[..|i|] + m[|i| + 1..] == i + f && -(|m| - |i| - 1) == -|f|;
  }

  lemma MantissaWithPoint(m: string, p: nat)
    requires Find(m, '.') == p < |m|
    ensures MantissaValue(m) == Decimals(DigitsVal(m[..p] + m[p + 1..]), -(|m| - p - 1))
  {
    hide DigitsVal, Decimals, Find;
  }

  lemma NoExponent(m: string, c: char, d: int, e: int)
    requires c !in m && MantissaReads(m, d, e)
    ensures Reads(m, c, d, e)
  {
    hide MantissaValue, Decimals;
    FindIs(m, c, |m|);
  }

  lemma WithExponent(m: string, c: char, x: string, d: int, e: int)
    requires c !in m && MantissaReads(m, d, e)
    ensures Reads(m + [c] + x, c, d, e + ExponentValue(x))
  {
    hide MantissaValue, RTen, ExponentValue;
    var t := m + [c] + x;
    FindIs(t, c, |m|);
    assert t[..|m|] == m && t[|m| + 1..] == x;
    RTenAdd(e, ExponentValue(x));
    RMulAssoc(d as real, RTen(e), RTen(ExponentValue(x)));
  }

  /** Powers of ten move from the digits to the exponent. */
  lemma FewerZeros(t: string, c: char, d: int, n: nat, e: int)
    requires Reads(t, c, d * Pow(10, n), e - n)
    ensures Reads(t, c, d, e)
  {
    hide NumberValue, Decimals, Pow;
    Shifted(d, n, e);
  }

  lemma Shifted(d: int, n: nat, e: int)
    ensures Decimals(d * Pow(10, n), e - n) == Decimals(d, e)
  {
    hide RTen, Pow;
    RTenAdd(n, e - n);
    RTenPow(n);
    assert n + (e - n) == e;
    ShiftedReal(d, Pow(10, n), RTen(e - n), RTen(e));
  }

  lemma ShiftedReal(d: int, p: int, x: real, y: real)
    requires y == p as real * x
    ensures (d * p) as real * x == d as real * y
  {
    assert (d * p) as real == d as real * p as real;
    RMulAssoc(d as real, p as real, x);
  }

  function Zeros(n: nat): (z: string)
    ensures |z| == n && AllDigits(z)
  {
    seq(n, _ => '0')
  }

  lemma ZerosAfter(d: string, n: nat)
    ensures DigitsVal(d + Zeros(n)) == DigitsVal(d) * Pow(10, n)
  {
    hide DigitsVal, Pow;
    ZeroDigits(n);
    DigitsConcat(d, Zeros(n));
  }

  lemma ZerosBefore(n: nat, d: string)
    ensures DigitsVal(Zeros(n) + d) == DigitsVal(d)
  {
    hide DigitsVal, Pow;
    ZeroDigits(n);
    DigitsConcat(Zeros(n), d);
  }

  // ----- The layouts -----

  datatype Format = General | Exponent | Fixed
  datatype FloatSpecs = FloatSpecs(precision: int, format: Format, showpoint: bool)

  /** Exponent notation, or general notation outside [10^-4, 10^16) or beyond the precision. */
  predicate UsesExponent(f: FloatSpecs, outputExp: int) {
    f.format == Exponent
    || (f.format == General && (outputExp < -4 || outputExp >= if f.precision > 0 then f.precision else 16))
  }

  function Max(a: int, b: int): int {
    if a > b then a else b
  }

  /** d.ddd000e+xx; the point is left out after a single digit unless it is asked for. */
  function ExponentText(digits: string, exponent: int, upper: bool, f: FloatSpecs): string
    requires digits != ""
  {
    var zeros := if f.showpoint then Max(f.precision - |digits|, 0) else 0;
    var point := if f.showpoint || |digits| > 1 then "." else "";
    var outputExp := exponent + |digits| - 1;
    digits[..1] + point + digits[1..] + Zeros(zeros) + [if upper then 'E' else 'e'] + ExpDigits(outputExp)
  }

  /** The exponent with its sign and at least two digits. */
  function ExpDigits(e: int): string {
    var a := if e >= 0 then e else -e;
    [if e < 0 then '-' else '+'] + (if a < 10 then "0" else "") + Decimal(a)
  }

  /** 1234e5: 123400000[.0+] */
  function IntegerText(digits: string, exponent: int, f: FloatSpecs): string
    requires exponent >= 0
  {
    digits + Zeros(exponent)
    + (if f.showpoint then "." + Zeros(Max(f.precision - (exponent + |digits|), 0)) else "")
  }

  /** 1234e-2: 12.34[0+] */
  function SplitText(digits: string, exponent: int, f: FloatSpecs): string
    requires exponent < 0 < exponent + |digits|
  {
    var n := exponent + |digits|;
    digits[..n] + "." + digits[n..] + Zeros(if f.showpoint then Max(f.precision - |digits|, 0) else 0)
  }

  function LeadingZeros(digits: string, exponent: int, f: FloatSpecs): int {
    var n := -(exponent + |digits|);
    if digits == "" && 0 <= f.precision < n then f.precision else n
  }

  /** 1234e-6: 0.001234 */
  function FractionText(digits: string, exponent: int, f: FloatSpecs): string
    requires exponent < 0 && exponent + |digits| <= 0
  {
    var zeros := LeadingZeros(digits, exponent, f);
    if zeros != 0 || digits != "" || f.showpoint then "0." + Zeros(zeros) + digits else "0"
  }

  function FloatText(digits: string, exponent: int, upper: bool, f: FloatSpecs): string
    requires digits != "" || f.format == Fixed
  {
    if UsesExponent(f, exponent + |digits| - 1) then ExponentText(digits, exponent, upper, f)
    else if exponent >= 0 then IntegerText(digits, exponent, f)
    else if exponent + |digits| > 0 then SplitText(digits, exponent, f)
    else FractionText(digits, exponent, f)
  }

  lemma ExpDigitsValue(e: int)
    ensures ExponentValue(ExpDigits(e)) == e
  {
    hide DigitsVal, Decimal;
    var a := if e >= 0 then e else -e;
    var n := if a < 10 then 1 else 0;
    var x := Zeros(n) + Decimal(a);
    assert (if a < 10 then "0" else "") == Zeros(n);
    assert ExpDigits(e)[1..] == x;
    ZerosBefore(n, Decimal(a));
  }

  /** Digits with zeros behind them, somewhere around a point. */
  lemma PaddedReads(t: string, c: char, i: string, tail: string, digits: string, zeros: nat)
    requires AllDigits(i) && t == i + "." + tail && i + tail == digits + Zeros(zeros) && c !in t
    ensures Reads(t, c, DigitsVal(digits), zeros - |tail|)
  {
    hide DigitsVal, RTen, Pow, MantissaReads, Reads;
    PointReads(i, tail);
    ZerosAfter(digits, zeros);
    NoExponent(t, c, DigitsVal(i + tail), -|tail|);
    assert zeros - |tail| - zeros == -|tail|;
    FewerZeros(t, c, DigitsVal(digits), zeros, zeros - |tail|);
  }

  predicate IsExponentChar(c: char) {
    c == 'e' || c == 'E'
  }

  lemma ExponentShape(digits: string, exponent: int, upper: bool, f: FloatSpecs)
    requires digits != "" && AllDigits(digits)
    ensures var c := if upper then 'E' else 'e';
            var zeros := if f.showpoint then Max(f.precision - |digits|, 0) else 0;
            var tail := digits[1..] + Zeros(zeros);
            var m := if f.showpoint || |digits| > 1 then digits[..1] + "." + tail else digits;
            && ExponentText(digits, exponent, upper, f) == m + [c] + ExpDigits(exponent + |digits| - 1)
            && c !in m && AllDigits(digits[..1]) && digits[..1] + tail == digits + Zeros(zeros)
  {
    hide ExpDigits;
  }

  lemma ExponentLayout(digits: string, exponent: int, upper: bool, f: FloatSpecs)
    requires digits != "" && AllDigits(digits)
    ensures Reads(ExponentText(digits, exponent, upper, f), if upper then 'E' else 'e', DigitsVal(digits), exponent)
  {
    hide DigitsVal, RTen, Pow, MantissaReads, Reads, ExpDigits, ExponentValue, ExponentText, AllDigits;
    ExponentShape(digits, exponent, upper, f);
    var c := if upper then 'E' else 'e';
    var zeros := if f.showpoint then Max(f.precision - |digits|, 0) else 0;
    var tail := digits[1..] + Zeros(zeros);
    var e := exponent + |digits| - 1;
    ExpDigitsValue(e);
    if f.showpoint || |digits| > 1 {
      PointReads(digits[..1], tail);
      ZerosAfter(digits, zeros);
      WithExponent(digits[..1] + "." + tail, c, ExpDigits(e), DigitsVal(digits[..1] + tail), -|tail|);
      assert -|tail| + e == exponent - zeros;
      FewerZeros(ExponentText(digits, exponent, upper, f), c, DigitsVal(digits), zeros, exponent);
    } else {
      PlainReads(digits);
      WithExponent(digits, c, ExpDigits(e), DigitsVal(digits), 0);
    }
  }

  lemma IntegerShape(digits: string, exponent: int, f: FloatSpecs, c: char)
    requires exponent >= 0 && AllDigits(digits) && IsExponentChar(c)
    ensures var i, t := digits + Zeros(exponent), IntegerText(digits, exponent, f);
            var n := Max(f.precision - (exponent + |digits|), 0);
            AllDigits(i) && c !in t && t == if f.showpoint then i + "." + Zeros(n) else i
  {}

  lemma IntegerLayout(digits: string, exponent: int, f: FloatSpecs, c: char)
    requires exponent >= 0 && AllDigits(digits) && IsExponentChar(c)
    ensures Reads(IntegerText(digits, exponent, f), c, DigitsVal(digits), exponent)
  {
    hide DigitsVal, RTen, Pow, MantissaReads, Reads, IntegerText, AllDigits;
    IntegerShape(digits, exponent, f, c);
    var i, t := digits + Zeros(exponent), IntegerText(digits, exponent, f);
    var n := Max(f.precision - (exponent + |digits|), 0);
    if f.showpoint {
      PaddedReads(t, c, i, Zeros(n), i, n);
    } else {
      PlainReads(i);
      NoExponent(t, c, DigitsVal(i), 0);
    }
    ZerosAfter(digits, exponent);
    FewerZeros(t, c, DigitsVal(digits), exponent, exponent);
  }

  lemma SplitShape(digits: string, exponent: int, f: FloatSpecs, c: char)
    requires exponent < 0 < exponent + |digits| && AllDigits(digits) && IsExponentChar(c)
    ensures var n, t := exponent + |digits|, SplitText(digits, exponent, f);
            var zeros := if f.showpoint then Max(f.precision - |digits|, 0) else 0;
            var tail := digits[n..] + Zeros(zeros);
            && AllDigits(digits[..n]) && c !in t && t == digits[..n] + "." + tail
            && digits[..n] + tail == digits + Zeros(zeros)
  {}

  lemma SplitLayout(digits: string, exponent: int, f: FloatSpecs, c: char)
    requires exponent < 0 < exponent + |digits| && AllDigits(digits) && IsExponentChar(c)
    ensures Reads(SplitText(digits, exponent, f), c, DigitsVal(digits), exponent)
  {
    hide DigitsVal, RTen, Pow, Reads, SplitText, AllDigits;
    SplitShape(digits, exponent, f, c);
    var n, t := exponent + |digits|, SplitText(digits, exponent, f);
    var zeros := if f.showpoint then Max(f.precision - |digits|, 0) else 0;
    PaddedReads(t, c, digits[..n], digits[n..] + Zeros(zeros), digits, zeros);
  }

  lemma FractionShape(digits: string, exponent: int, f: FloatSpecs, c: char)
    requires exponent < 0 && exponent + |digits| <= 0 && AllDigits(digits) && IsExponentChar(c)
    ensures var zeros, t := LeadingZeros(digits, exponent, f), FractionText(digits, exponent, f);
            && zeros >= 0 && AllDigits("0") && AllDigits("0" + digits) && c !in t
            && (zeros != 0 || digits != "" || f.showpoint ==> t == "0" + "." + (Zeros(zeros) + digits))
            && (!(zeros != 0 || digits != "" || f.showpoint) ==> t == "0")
            && "0" + (Zeros(zeros) + digits) == Zeros(zeros + 1) + digits && Zeros(1) + "" == "0"
            && (digits != "" ==> -(zeros + |digits|) == exponent)
  {}

  lemma FractionLayout(digits: string, exponent: int, f: FloatSpecs, c: char)
    requires exponent < 0 && exponent + |digits| <= 0 && AllDigits(digits) && IsExponentChar(c)
    ensures Reads(FractionText(digits, exponent, f), c, DigitsVal(digits), exponent)
  {
    hide RTen, MantissaReads, Reads, FractionText, AllDigits, LeadingZeros, DigitsVal;
    NoDigitsVal();
    FractionShape(digits, exponent, f, c);
    var zeros, t := LeadingZeros(digits, exponent, f), FractionText(digits, exponent, f);
    if zeros != 0 || digits != "" || f.showpoint {
      PointReads("0", Zeros(zeros) + digits);
      ZerosBefore(zeros + 1, digits);
      NoExponent(t, c, DigitsVal(digits), -(zeros + |digits|));
    } else {
      PlainReads("0");
      ZerosBefore(1, "");
      NoExponent(t, c, 0, 0);
    }
    if digits == "" {
      ZeroReads(t, c, if zeros != 0 || f.showpoint then -zeros else 0, exponent);
    }
  }

  lemma NoDigitsVal()
    ensures DigitsVal("") == 0
  {}

  lemma ZeroReads(t: string, c: char, e: int, other: int)
    requires Reads(t, c, 0, e)
    ensures Reads(t, c, 0, other)
  {
    hide RTen, NumberValue;
    assert 0.0 * RTen(e) == 0.0 && 0.0 * RTen(other) == 0.0;
  }

  /** In all four layouts the text reads back as significand * 10^exponent. */
  lemma FloatTextValue(digits: string, exponent: int, upper: bool, f: FloatSpecs)
    requires (digits != "" || f.format == Fixed) && AllDigits(digits)
    ensures NumberValue(FloatText(digits, exponent, upper, f), if upper then 'E' else 'e')
            == DigitsVal(digits) as real * RTen(exponent)
  {
    hide DigitsVal, RTen, NumberValue, ExponentText, IntegerText, SplitText, FractionText;
    var c := if upper then 'E' else 'e';
    if UsesExponent(f, exponent + |digits| - 1) {
      ExponentLayout(digits, exponent, upper, f);
    } else if exponent >= 0 {
      IntegerLayout(digits, exponent, f, c);
    } else if exponent + |digits| > 0 {
      SplitLayout(digits, exponent, f, c);
    } else {
      FractionLayout(digits, exponent, f, c);
    }
  }

  // ----- Writing -----

  /** The two characters of a number below 100: digits2. */
  function Digits2(n: nat): (r: string)
    requires n < 100
    ensures |r| == 2 && AllDigits(r) && DigitsVal(r) == n
  {
    var r := [DigitChar(n / 10), DigitChar(n % 10)];
    assert r[..1] == [DigitChar(n / 10)];
    OneDigit(DigitChar(n / 10));
    r
  }

  lemma TwoDigits(n: nat)
    requires n < 100
    ensures Digits2(n) == if n < 10 then "0" + Decimal(n) else Decimal(n)
  {}

  lemma MoreDigits(n: nat)
    requires n >= 100
    ensures Decimal(n) == Decimal(n / 100) + Digits2(n % 100)
  {
    assert Decimal(n) == Decimal(n / 10) + [DigitChar(n % 10)];
    assert Decimal(n / 10) == Decimal(n / 10 / 10) + [DigitChar(n / 10 % 10)];
    assert n / 10 / 10 == n / 100 && n / 10 % 10 == n % 100 / 10 && n % 10 == n % 100 % 10;
  }

  /** write_exponent: a sign and two to four digits. */
  method WriteExponent(e: int) returns (it: string)
    requires -10000 < e < 10000
    ensures it == ExpDigits(e) && |it| == 1 + ExponentSize(e)
  {
    hide Digits2, Decimal, DigitsVal;
    ExponentDigits(if e < 0 then -e else e);
    var exp := e;
    it := "";
    if exp < 0 {
      it := it + "-";
      exp := -exp;
    } else {
      it := it + "+";
    }
    var digits := "";
    if exp >= 100 {
      var top := Digits2(exp / 100);
      if exp >= 1000 {
        digits := digits + [top[0]];
      }
      digits := digits + [top[1]];
      exp := exp % 100;
    }
    digits := digits + Digits2(exp);
    it := it + digits;
  }

  lemma ExponentDigits(a: nat)
    requires a < 10000
    ensures a < 100 ==> (if a < 10 then "0" else "") + Decimal(a) == Digits2(a)
    ensures 100 <= a < 1000 ==> Decimal(a) == [Digits2(a / 100)[1]] + Digits2(a % 100)
    ensures a >= 1000 ==> Decimal(a) == [Digits2(a / 100)[0]] + [Digits2(a / 100)[1]] + Digits2(a % 100)
  {
    if a < 100 {
      TwoDigits(a);
    } else {
      MoreDigits(a);
      TwoDigits(a / 100);
    }
  }

  /** The size do_write_float reserves for the digits of an exponent. */
  function ExponentSize(outputExp: int): nat {
    var a := if outputExp >= 0 then outputExp else -outputExp;
    if a >= 100 then (if a >= 1000 then 4 else 3) else 2
  }

  /** write_significand with a point behind the first integralSize digits, or without a point. */
  function WithPoint(digits: string, integralSize: nat, point: bool): string
    requires integralSize <= |digits|
  {
    if point then digits[..integralSize] + "." + digits[integralSize..] else digits[..integralSize]
  }

  method WriteExponentLayout(it: string, digits: string, exponent: int, upper: bool, f: FloatSpecs, start: nat)
      returns (text: string, size: nat)
    requires digits != "" && -10000 < exponent + |digits| - 1 < 10000
    ensures text == it + ExponentText(digits, exponent, upper, f)
    ensures size == start + |ExponentText(digits, exponent, upper, f)| - |digits|
  {
    hide ExpDigits, ExponentText, Zeros;
    size := start;
    var decimalPoint, numZeros: int := true, 0;
    var outputExp := exponent + |digits| - 1;
    if f.showpoint {
      numZeros := f.precision - |digits|;
      if numZeros < 0 {
        numZeros := 0;
      }
      size := size + numZeros;
    } else if |digits| == 1 {
      decimalPoint := false;
    }
    var absOutputExp := if outputExp >= 0 then outputExp else -outputExp;
    var expDigits := 2;
    if absOutputExp >= 100 {
      expDigits := if absOutputExp >= 1000 then 4 else 3;
    }
    size := size + (if decimalPoint then 1 else 0) + 2 + expDigits;
    ExponentTextIs(digits, exponent, upper, f, numZeros, decimalPoint);
    var m := WithPoint(digits, 1, decimalPoint);
    if numZeros > 0 {
      m := m + Zeros(numZeros);
    }
    m := m + [if upper then 'E' else 'e'];
    var e := WriteExponent(outputExp);
    m := m + e;
    text := it + m;
  }

  method WriteIntegerLayout(it: string, digits: string, exponent: int, f: FloatSpecs, start: nat)
      returns (text: string, size: nat)
    requires exponent >= 0
    ensures text == it + IntegerText(digits, exponent, f)
    ensures size == start + |IntegerText(digits, exponent, f)| - |digits|
  {
    size := start + exponent;
    var numZeros := f.precision - (exponent + |digits|);
    if f.showpoint {
      size := size + 1;
      if numZeros <= 0 && f.format != Fixed {
        numZeros := 0;
      }
      if numZeros > 0 {
        size := size + numZeros;
      }
    }
    var m := digits + Zeros(exponent);
    if f.showpoint {
      var tail := ".";
      if numZeros > 0 {
        tail := tail + Zeros(numZeros);
      }
      m := m + tail;
    }
    text := it + m;
  }

  method WriteSplitLayout(it: string, digits: string, exponent: int, f: FloatSpecs, start: nat)
      returns (text: string, size: nat)
    requires exponent < 0 < exponent + |digits|
    ensures text == it + SplitText(digits, exponent, f)
    ensures size == start + |SplitText(digits, exponent, f)| - |digits|
  {
    var numZeros := if f.showpoint then f.precision - |digits| else 0;
    size := start + 1 + if numZeros > 0 then numZeros else 0;
    var m := WithPoint(digits, exponent + |digits|, true);
    if numZeros > 0 {
      m := m + Zeros(numZeros);
    }
    text := it + m;
  }

  method WriteFractionLayout(it: string, digits: string, exponent: int, f: FloatSpecs, start: nat)
      returns (text: string, size: nat)
    requires exponent < 0 && exponent + |digits| <= 0
    ensures text == it + FractionText(digits, exponent, f)
    ensures size == start + |FractionText(digits, exponent, f)| - |digits|
  {
    var numZeros := -(exponent + |digits|);
    if |digits| == 0 && f.precision >= 0 && f.precision < numZeros {
      numZeros := f.precision;
    }
    var pointy := numZeros != 0 || |digits| != 0 || f.showpoint;
    size := start + 1 + (if pointy then 1 else 0) + numZeros;
    var m := "0";
    if pointy {
      m := m + "." + Zeros(numZeros) + digits;
    }
    text := it + m;
  }

  /** do_write_float before padding, without digit grouping: the text, and the size computed for it in advance. */
  method DoWriteFloat(digits: string, exponent: int, sign: Option<char>, upper: bool, f: FloatSpecs)
      returns (text: string, size: nat)
    requires digits != "" || f.format == Fixed
    requires UsesExponent(f, exponent + |digits| - 1) ==> -10000 < exponent + |digits| - 1 < 10000
    ensures text == (if sign.Some? then [sign.value] else "") + FloatText(digits, exponent, upper, f)
    ensures |text| == size
  {
    hide ExponentText, IntegerText, SplitText, FractionText;
    size := |digits| + if sign.Some? then 1 else 0;
    var it := if sign.Some? then [sign.value] else "";
    var exp := exponent + |digits|;
    if UsesExponent(f, exp - 1) {
      text, size := WriteExponentLayout(it, digits, exponent, upper, f, size);
    } else if exponent >= 0 {
      text, size := WriteIntegerLayout(it, digits, exponent, f, size);
    } else if exp > 0 {
      text, size := WriteSplitLayout(it, digits, exponent, f, size);
    } else {
      text, size := WriteFractionLayout(it, digits, exponent, f, size);
    }
  }

  lemma ExponentTextIs(digits: string, exponent: int, upper: bool, f: FloatSpecs, zeros: nat, point: bool)
    requires digits != "" && zeros == (if f.showpoint then Max(f.precision - |digits|, 0) else 0)
    requires point == (f.showpoint || |digits| > 1)
    ensures ExponentText(digits, exponent, upper, f)
            == WithPoint(digits, 1, point) + Zeros(zeros) + [if upper then 'E' else 'e'] + ExpDigits(exponent + |digits| - 1)
  {
    hide ExpDigits;
    assert !point ==> digits[1..] == "";
  }

  // ----- Digits of an integer significand, written backwards into an array -----

  lemma DecimalSize(n: nat)
    ensures (n < 10 <==> |Decimal(n)| == 1) && (n < 100 <==> |Decimal(n)| <= 2)
    ensures 10 <= n < 100 ==> Decimal(n) == Digits2(n)
    ensures n < 10 ==> Decimal(n) == [DigitChar(n)]
    ensures n >= 10 ==> Decimal(n) == Decimal(n / 10) + [DigitChar(n % 10)]
  {
    if 10 <= n < 100 {
      TwoDigits(n);
    }
  }

  /** The sequence with d at position at. */
  function Patch(s: seq<char>, at: nat, d: string): (r: seq<char>)
    requires at + |d| <= |s|
    ensures |r| == |s|
  {
    s[..at] + d + s[at + |d|..]
  }

  lemma PatchBefore(s: seq<char>, at: nat, d: string, tail: string)
    requires at + |d| + |tail| <= |s|
    ensures Patch(Patch(s, at + |d|, tail), at, d) == Patch(s, at, d + tail)
  {}

  lemma PatchNothing(s: seq<char>, at: nat)
    requires at <= |s|
    ensures Patch(s, at, "") == s
  {}

  /** n is written as value, which is still to be written, and the tail. */
  ghost predicate Remaining(n: nat, value: nat, tail: string) {
    Decimal(n) == Decimal(value) + tail
  }

  lemma RemainingStart(n: nat)
    ensures Remaining(n, n, "")
  {}

  lemma RemainingPair(n: nat, value: nat, tail: string)
    requires Remaining(n, value, tail) && value >= 100
    ensures Remaining(n, value / 100, Digits2(value % 100) + tail) && |Decimal(value)| == |Decimal(value / 100)| + 2
  {
    hide Decimal, Digits2;
    MoreDigits(value);
    assert (Decimal(value / 100) + Digits2(value % 100)) + tail == Decimal(value / 100) + (Digits2(value % 100) + tail);
  }

  lemma RemainingOne(n: nat, value: nat, tail: string)
    requires Remaining(n, value, tail) && value >= 10
    ensures Remaining(n, value / 10, [DigitChar(value % 10)] + tail) && |Decimal(value)| == |Decimal(value / 10)| + 1
  {
    hide Decimal;
    DecimalSize(value);
    var c := [DigitChar(value % 10)];
    assert (Decimal(value / 10) + c) + tail == Decimal(value / 10) + (c + tail);
  }

  /** The last one or two digits. */
  lemma RemainingEnd(n: nat, value: nat, tail: string)
    requires Remaining(n, value, tail) && value < 100
    ensures Decimal(n) == (if value < 10 then [DigitChar(value)] else Digits2(value)) + tail
    ensures |Decimal(value)| == if value < 10 then 1 else 2
  {
    hide Decimal, Digits2;
    DecimalSize(value);
  }

  method Copy2(a: array<char>, at: nat, n: nat)
    requires at + 2 <= a.Length && n < 100
    modifies a
    ensures a[..] == Patch(old(a[..]), at, Digits2(n))
  {
    hide Digits2;
    var d := Digits2(n);
    a[at], a[at + 1] := d[0], d[1];
    assert d == [d[0], d[1]];
  }

  /** format_decimal: the digits end at start + size and are written two at a time from the end; nothing else changes. */
  method FormatDecimal(a: array<char>, start: nat, n: nat, size: nat) returns (begin: nat)
    requires start + size <= a.Length && |Decimal(n)| <= size
    modifies a
    ensures begin == start + size - |Decimal(n)| && a[..] == Patch(old(a[..]), begin, Decimal(n))
  {
    hide Decimal, Digits2, Remaining, Patch;
    var value, out := n, start + size;
    ghost var was, tail := a[..], "";
    RemainingStart(n);
    PatchNothing(was, out);
    while value >= 100
      invariant start + |Decimal(value)| <= out && out + |tail| == start + size && |Decimal(n)| == |Decimal(value)| + |tail|
      invariant Remaining(n, value, tail) && a[..] == Patch(was, out, tail)
      decreases value
    {
      RemainingPair(n, value, tail);
      PatchBefore(was, out - 2, Digits2(value % 100), tail);
      out := out - 2;
      Copy2(a, out, value % 100);
      tail := Digits2(value % 100) + tail;
      value := value / 100;
    }
    RemainingEnd(n, value, tail);
    if value < 10 {
      out := out - 1;
      PatchBefore(was, out, [DigitChar(value)], tail);
      OneChar(a[..], out, DigitChar(value));
      a[out] := DigitChar(value);
      return out;
    }
    out := out - 2;
    PatchBefore(was, out, Digits2(value), tail);
    Copy2(a, out, value);
    return out;
  }

  lemma OneChar(s: seq<char>, at: nat, c: char)
    requires at < |s|
    ensures s[at := c] == Patch(s, at, [c])
  {}

  /**
   * write_significand for an integer: the digits behind the point are written from the end,
   * then the point, then the digits before it.
   */
  method WriteSignificand(a: array<char>, start: nat, n: nat, size: nat, integralSize: nat, point: bool) returns (end: nat)
    requires size == |Decimal(n)| && 1 <= integralSize <= size && start + size + 1 <= a.Length
    modifies a
    ensures end == start + size + if point then 1 else 0
    ensures a[..] == Patch(old(a[..]), start,
                           if point then Decimal(n)[..integralSize] + "." + Decimal(n)[integralSize..] else Decimal(n))
  {
    hide Decimal, Digits2, Remaining, Patch;
    if !point {
      var begin := FormatDecimal(a, start, n, size);
      return start + size;
    }
    var significand, out := n, start + size + 1;
    end := out;
    var floatingSize := size - integralSize;
    ghost var was, tail := a[..], "";
    RemainingStart(n);
    PatchNothing(was, out);
    var i := floatingSize / 2;
    while i > 0
      invariant 0 <= i && 2 * i + |tail| == floatingSize - floatingSize % 2 && out + |tail| == end
      invariant |Decimal(significand)| + |tail| == size
      invariant Remaining(n, significand, tail) && a[..] == Patch(was, out, tail)
    {
      DecimalSize(significand);
      RemainingPair(n, significand, tail);
      PatchBefore(was, out - 2, Digits2(significand % 100), tail);
      out := out - 2;
      Copy2(a, out, significand % 100);
      tail := Digits2(significand % 100) + tail;
      significand := significand / 100;
      i := i - 1;
    }
    if floatingSize % 2 != 0 {
      DecimalSize(significand);
      RemainingOne(n, significand, tail);
      PatchBefore(was, out - 1, [DigitChar(significand % 10)], tail);
      out := out - 1;
      OneChar(a[..], out, DigitChar(significand % 10));
      a[out] := DigitChar(significand % 10);
      tail := [DigitChar(significand % 10)] + tail;
      significand := significand / 10;
    }
    out := out - 1;
    PatchBefore(was, out, ".", tail);
    OneChar(a[..], out, '.');
    a[out] := '.';
    SplitDigits(n, significand, tail, integralSize);
    var begin := FormatDecimal(a, out - integralSize, significand, integralSize);
    PatchBefore(was, start, Decimal(significand), "." + tail);
  }

  lemma SplitDigits(n: nat, value: nat, tail: string, integralSize: nat)
    requires Remaining(n, value, tail) && |Decimal(value)| == integralSize
    ensures integralSize <= |Decimal(n)|
    ensures Decimal(n)[..integralSize] + "." + Decimal(n)[integralSize..] == Decimal(value) + ("." + tail)
  {
    hide Decimal;
  }
}
