/** Numbers, argument ids and the argument counter: the pieces both format-string parsers share. */
module ArgIds {
  import opened Options
  import opened Powers
  import opened Digits

  // ----- Numbers -----

  /** The position after the digits that start at i. */
  function DigitsEnd(s: string, i: nat): (j: nat)
    requires i <= |s|
    ensures i <= j <= |s| && AllDigits(s[i..j]) && (j < |s| ==> !IsDigit(s[j]))
    ensures i < |s| && IsDigit(s[i]) ==> i < j
    decreases |s| - i
  {
    if i < |s| && IsDigit(s[i]) then
      var j := DigitsEnd(s, i + 1);
      assert s[i..j] == [s[i]] + s[i + 1..j];
      j
    else
      i
  }

  /** The value of at most ten digits that fit an int, and the error value otherwise. */
  function NonnegativeInt(digits: string, errorValue: int): int {
    if |digits| <= 10 && DigitsVal(digits) <= 0x7fff_ffff then DigitsVal(digits) else errorValue
  }

  /** Conversion to a 32-bit unsigned, and one step of accumulation in it. */
  function Unsigned(x: int): nat {
    x % 0x1_0000_0000
  }

  function AppendDigit(acc: nat, c: char): nat {
    Unsigned(Unsigned(acc * 10) + CharDigit(c))
  }

  /** parse_nonnegative_int: accumulates in a 32-bit unsigned that may wrap, and checks for overflow afterwards. */
  method ParseNonnegativeInt(s: string, begin: nat, errorValue: int) returns (value: int, end: nat)
    requires begin < |s| && IsDigit(s[begin])
    ensures end == DigitsEnd(s, begin) && value == NonnegativeInt(s[begin..end], errorValue)
  {
    hide Unsigned, AppendDigit, DigitsVal, NonnegativeInt, Pow;
    var acc, prev: nat := 0, 0;
    var p := begin;
    NothingRead(s, begin);
    while true
      invariant begin <= p < |s| && IsDigit(s[p]) && AllDigits(s[begin..p])
      invariant acc == Unsigned(DigitsVal(s[begin..p])) && DigitsEnd(s, begin) == DigitsEnd(s, p)
      decreases |s| - p
    {
      prev := acc;
      Accumulated(s, begin, p);
      acc := AppendDigit(acc, s[p]);
      p := p + 1;
      if !(p != |s| && IsDigit(s[p])) {
        break;
      }
    }
    var numDigits := p - begin;
    end := p;
    assert s[begin..p][..numDigits - 1] == s[begin..p - 1];
    OverflowCheck(s[begin..p], acc, prev, errorValue);
    var digits10 := 4 * 8 * 3 / 10;
    if numDigits <= digits10 {
      return acc, end;
    }
    value := if numDigits == digits10 + 1 && prev * 10 + CharDigit(s[p - 1]) <= 0x7fff_ffff then acc else errorValue;
  }

  lemma NothingRead(s: string, begin: nat)
    requires begin < |s|
    ensures Unsigned(DigitsVal(s[begin..begin])) == 0
  {}

  /** One digit more, modulo 2^32. */
  lemma Accumulated(s: string, begin: nat, p: nat)
    requires begin <= p < |s| && IsDigit(s[p]) && AllDigits(s[begin..p])
    ensures AllDigits(s[begin..p + 1])
    ensures Unsigned(DigitsVal(s[begin..p + 1])) == AppendDigit(Unsigned(DigitsVal(s[begin..p])), s[p])
  {
    assert s[begin..p + 1] == s[begin..p] + [s[p]];
    DigitsAppend(s[begin..p], s[p]);
    hide DigitsVal;
    ModStep(DigitsVal(s[begin..p]), CharDigit(s[p]));
  }

  lemma ModStep(v: int, d: int)
    ensures Unsigned(10 * v + d) == Unsigned(Unsigned(Unsigned(v) * 10) + d)
  {}

  /** The check after the loop recognises exactly the numbers that fit. */
  lemma OverflowCheck(digits: string, acc: nat, prev: nat, errorValue: int)
    requires digits != [] && AllDigits(digits) && acc == Unsigned(DigitsVal(digits))
    requires var d := digits[..|digits| - 1]; AllDigits(d) ==> prev == Unsigned(DigitsVal(d))
    ensures |digits| <= 9 ==> acc == NonnegativeInt(digits, errorValue)
    ensures |digits| > 9 ==>
              NonnegativeInt(digits, errorValue)
              == if |digits| == 10 && prev * 10 + CharDigit(digits[|digits| - 1]) <= 0x7fff_ffff then acc else errorValue
  {
    NineDigits(digits);
    assert DigitsVal(digits) == 10 * DigitsVal(digits[..|digits| - 1]) + CharDigit(digits[|digits| - 1]);
    hide DigitsVal;
  }

  /** Nine digits do not wrap, and neither do the first nine of ten. */
  lemma NineDigits(digits: string)
    requires digits != [] && AllDigits(digits)
    ensures |digits| <= 9 ==> 0 <= DigitsVal(digits) <= 999_999_999
    ensures |digits| == 10 ==> 0 <= DigitsVal(digits[..9]) <= 999_999_999
  {
    TenToNine();
    hide DigitsVal;
    if |digits| <= 9 {
      DigitsBound(digits);
      PowMono(10, |digits|, 9);
    } else if |digits| == 10 {
      DigitsBound(digits[..9]);
    }
  }

  lemma TenToNine()
    ensures Pow(10, 9) == 1_000_000_000
  {
    assert Pow(10, 5) == 100_000 && Pow(10, 4) == 10_000;
    hide Pow;
    PowAdd(10, 5, 4);
  }

  /** Without leading zeros the number of digits is no restriction: a number above INT_MAX is rejected, any other is read. */
  lemma IntNeverWraps(digits: string, errorValue: int)
    requires digits != [] && AllDigits(digits) && (digits[0] != '0' || |digits| == 1)
    ensures NonnegativeInt(digits, errorValue)
            == if DigitsVal(digits) <= 0x7fff_ffff then DigitsVal(digits) else errorValue
  {
    if |digits| > 10 {
      assert digits == [digits[0]] + digits[1..];
      DigitsConcat([digits[0]], digits[1..]);
      OneDigit(digits[0]);
      DigitsBound(digits[1..]);
      TenToNine();
      assert Pow(10, 10) == 10 * Pow(10, 9);
      PowMono(10, 10, |digits| - 1);
      MulLe(Pow(10, |digits| - 1), 1, CharDigit(digits[0]));
    }
  }

  // ----- Argument ids -----

  datatype ArgId = Auto | Index(index: int) | Name(name: string)

  predicate IsNameStart(c: char) {
    'a' <= c <= 'z' || 'A' <= c <= 'Z' || c == '_'
  }

  /** A name that an argument id can be. */
  predicate IsName(n: string) {
    n != "" && IsNameStart(n[0]) && forall k :: 0 <= k < |n| ==> IsNameStart(n[k]) || IsDigit(n[k])
  }

  function NameEnd(s: string, i: nat): (j: nat)
    requires i <= |s|
    ensures i <= j <= |s| && forall k :: i <= k < j ==> IsNameStart(s[k]) || IsDigit(s[k])
    decreases |s| - i
  {
    if i < |s| && (IsNameStart(s[i]) || IsDigit(s[i])) then NameEnd(s, i + 1) else i
  }

  /** The argument id at i and the position after it; None is a reported error. */
  function ArgIdAt(s: string, i: nat): (r: Option<(ArgId, nat)>)
    requires i < |s|
    ensures r.Some? ==> i <= r.value.1 <= |s| && (r.value.0 == Auto <==> s[i] == '}' || s[i] == ':')
    ensures r.Some? && !r.value.0.Auto? ==> i < r.value.1
    ensures r.Some? && r.value.0.Name? ==> IsName(r.value.0.name)
  {
    if s[i] == '}' || s[i] == ':' then
      Some((Auto, i))
    else if IsDigit(s[i]) then
      var end := if s[i] == '0' then i + 1 else DigitsEnd(s, i);
      var index := if s[i] == '0' then 0 else NonnegativeInt(s[i..end], 0x7fff_ffff);
      if end == |s| || (s[end] != '}' && s[end] != ':') then None else Some((Index(index), end))
    else if !IsNameStart(s[i]) then
      None
    else
      Some((Name(s[i..NameEnd(s, i + 1)]), NameEnd(s, i + 1)))
  }

  /** parse_arg_id with do_parse_arg_id; the id is returned to the handler of the caller. */
  method ParseArgId(s: string, i: nat) returns (r: Option<(ArgId, nat)>)
    requires i < |s|
    ensures r == ArgIdAt(s, i)
  {
    var c := s[i];
    if c == '}' || c == ':' {
      return Some((Auto, i));
    }
    if IsDigit(c) {
      var index, begin: nat := 0, i;
      if c != '0' {
        index, begin := ParseNonnegativeInt(s, i, 0x7fff_ffff);
      } else {
        begin := begin + 1;
      }
      if begin == |s| || (s[begin] != '}' && s[begin] != ':') {
        return None;
      }
      return Some((Index(index), begin));
    }
    if !IsNameStart(c) {
      return None;
    }
    var it := i + 1;
    while it != |s| && (IsNameStart(s[it]) || IsDigit(s[it]))
      invariant i < it <= |s| && NameEnd(s, it) == NameEnd(s, i + 1)
      decreases |s| - it
    {
      it := it + 1;
    }
    return Some((Name(s[i..it]), it));
  }

  // ----- The argument counter -----

  datatype ArgRef = NoRef | IndexRef(index: int) | NameRef(name: string)

  /** What the counter makes of an id: the argument meant and the next counter. -1 stands for manual indexing. */
  function ResolveRef(id: ArgId, next: int): Option<(ArgRef, int)> {
    match id
    case Auto => if next < 0 then None else Some((IndexRef(next), next + 1))
    case Index(k) => if next > 0 then None else Some((IndexRef(k), -1))
    case Name(n) => Some((NameRef(n), -1))
  }

  /** The counter of basic_format_parse_context. */
  class ParseContext {
    var nextArgId: int

    constructor (next: int)
      ensures nextArgId == next
    {
      nextArgId := next;
    }

    /** next_arg_id: the next automatic index, unless indexing is manual. */
    method NextArgId() returns (id: Option<int>)
      modifies this
      ensures id == (if old(nextArgId) < 0 then None else Some(old(nextArgId)))
      ensures nextArgId == if old(nextArgId) < 0 then old(nextArgId) else old(nextArgId) + 1
    {
      if nextArgId < 0 {
        return None;
      }
      id := Some(nextArgId);
      nextArgId := nextArgId + 1;
    }

    /** check_arg_id(int): switches to manual indexing, unless automatic indexing has begun. */
    method CheckArgId() returns (ok: bool)
      modifies this
      ensures ok == (old(nextArgId) <= 0)
      ensures nextArgId == if ok then -1 else old(nextArgId)
    {
      if nextArgId > 0 {
        return false;
      }
      nextArgId := -1;
      ok := true;
    }

    /** check_arg_id(name): switches to manual indexing. */
    method CheckArgName()
      modifies this
      ensures nextArgId == -1
    {
      nextArgId := -1;
    }

    /** dynamic_spec_id_handler. */
    method Resolve(id: ArgId) returns (ref: Option<ArgRef>)
      modifies this
      ensures var r := ResolveRef(id, old(nextArgId));
              if r.Some? then ref == Some(r.value.0) && nextArgId == r.value.1 else ref == None
    {
      match id
      case Auto =>
        var next := NextArgId();
        return if next.Some? then Some(IndexRef(next.value)) else None;
      case Index(k) =>
        var ok := CheckArgId();
        return if ok then Some(IndexRef(k)) else None;
      case Name(n) =>
        CheckArgName();
        return Some(NameRef(n));
    }
  }

  // ----- Dynamic specs -----

  /** A width or a precision, the argument it may refer to, the position after it and the counter. */
  datatype Dynamic = Dynamic(value: int, ref: ArgRef, end: nat, next: int)

  function DynamicAt(s: string, i: nat, value: int, ref: ArgRef, next: int): (r: Option<Dynamic>)
    requires i < |s|
    ensures r.Some? ==> i <= r.value.end <= |s| && (IsDigit(s[i]) || s[i] == '{' ==> i < r.value.end)
  {
    if IsDigit(s[i]) then
      var end := DigitsEnd(s, i);
      var number := NonnegativeInt(s[i..end], -1);
      if number != -1 then Some(Dynamic(number, ref, end, next)) else None
    else if s[i] == '{' then
      if i + 1 == |s| then None else
      var id := ArgIdAt(s, i + 1);
      if id.None? then None else
      var target := ResolveRef(id.value.0, next);
      if target.None? || id.value.1 == |s| || s[id.value.1] != '}' then None
      else Some(Dynamic(value, target.value.0, id.value.1 + 1, target.value.1))
    else
      Some(Dynamic(value, ref, i, next))
  }

  /** parse_dynamic_spec: an integer, or an argument id in braces, or nothing. */
  method ParseDynamicSpec(s: string, i: nat, value: int, ref: ArgRef, ctx: ParseContext)
      returns (r: Option<(int, ArgRef, nat)>)
    requires i < |s|
    modifies ctx
    ensures var d := DynamicAt(s, i, value, ref, old(ctx.nextArgId));
            if d.Some? then r == Some((d.value.value, d.value.ref, d.value.end)) && ctx.nextArgId == d.value.next
            else r == None
  {
    if IsDigit(s[i]) {
      var number, end := ParseNonnegativeInt(s, i, -1);
      return if number != -1 then Some((number, ref, end)) else None;
    }
    if s[i] == '{' {
      var begin := i + 1;
      if begin == |s| {
        return None;
      }
      var id := ParseArgId(s, begin);
      if id.None? {
        return None;
      }
      var target := ctx.Resolve(id.value.0);
      if target.None? {
        return None;
      }
      begin := id.value.1;
      if begin != |s| && s[begin] == '}' {
        return Some((value, target.value, begin + 1));
      }
      return None;
    }
    return Some((value, ref, i));
  }
}
