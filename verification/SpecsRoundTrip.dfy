/** Writing a specifier down and parsing it gives the specifier back. */
module SpecsRoundTrip {
  import opened Options
  import opened Powers
  import opened Digits
  import opened ArgIds
  import opened FormatSpecs

  /** A width or a precision as it is written: nothing, a number, or an argument in braces. */
  datatype Count = Absent | Number(n: nat) | Argument(id: ArgId)

  /** The parts of [[fill]align][sign][#][0][width][.precision][L][type]. */
  datatype Written = Written(
    fill: Option<string>, align: Align, sign: Sign, alt: bool, zero: bool,
    width: Count, precision: Count, localized: bool, presentation: Presentation, upper: bool)

  // ----- The text -----

  function IdText(id: ArgId): string
    requires id.Index? ==> id.index >= 0
  {
    match id
    case Auto => ""
    case Index(k) => Decimal(k)
    case Name(n) => n
  }

  predicate IsLetter(c: char) {
    || c in "abcdefghi" || c in "jklmnopqr" || c in "stuvwxyz"
    || c in "ABCDEFGHI" || c in "JKLMNOPQR" || c in "STUVWXYZ"
  }

  /** Letters, underscores and digits, but no digit in front. */
  predicate WrittenName(n: string) {
    && n != "" && (IsLetter(n[0]) || n[0] == '_')
    && forall k :: 0 <= k < |n| ==> IsLetter(n[k]) || n[k] == '_' || n[k] in "0123456789"
  }

  predicate GoodId(id: ArgId) {
    match id
    case Auto => true
    case Index(k) => 0 <= k <= 0x7fff_ffff
    case Name(n) => WrittenName(n)
  }

  predicate GoodCount(c: Count) {
    match c
    case Absent => true
    case Number(n) => n <= 0x7fff_ffff
    case Argument(id) => GoodId(id)
  }

  function CountText(c: Count): string
    requires GoodCount(c)
  {
    match c
    case Absent => ""
    case Number(n) => Decimal(n)
    case Argument(id) => "{" + IdText(id) + "}"
  }

  function AlignChar(a: Align): char {
    match a
    case Left => '<'
    case Right => '>'
    case _ => '^'
  }

  function AlignText(w: Written): string {
    (if w.fill.Some? then w.fill.value else "") + (if w.align == NoAlign then "" else [AlignChar(w.align)])
  }

  function SignText(w: Written): string {
    match w.sign
    case NoSign => ""
    case Minus => "-"
    case Plus => "+"
    case Space => " "
  }

  function HashText(w: Written): string {
    if w.alt then "#" else ""
  }

  function ZeroText(w: Written): string {
    if w.zero then "0" else ""
  }

  function PrecisionText(w: Written): string
    requires GoodCount(w.precision)
  {
    if w.precision.Absent? then "" else "." + CountText(w.precision)
  }

  function LocaleText(w: Written): string {
    if w.localized then "L" else ""
  }

  /** The letter of a presentation type; those with an upper case variant have an upper case letter for it. */
  function Letter(p: Presentation, upper: bool): char
    requires p != NoPresentation
  {
    match p
    case Debug => '?'
    case Text => 's'
    case Dec => 'd'
    case Hex => if upper then 'X' else 'x'
    case Oct => 'o'
    case Bin => if upper then 'B' else 'b'
    case Chr => 'c'
    case Pointer => 'p'
    case Exp => if upper then 'E' else 'e'
    case Fixed => if upper then 'F' else 'f'
    case General => if upper then 'G' else 'g'
    case HexFloat => if upper then 'A' else 'a'
  }

  predicate HasUpper(p: Presentation) {
    p in {Hex, Bin, Exp, Fixed, General, HexFloat}
  }

  function LetterText(w: Written): string {
    if w.presentation == NoPresentation then "" else [Letter(w.presentation, w.upper)]
  }

  /** The number of bytes of a UTF-8 sequence with the given lead byte, 1 if it is none. */
  function LeadLength(c: char): nat {
    var b := c as int;
    if 0xc0 <= b < 0xe0 then 2 else if 0xe0 <= b < 0xf0 then 3 else if 0xf0 <= b < 0xf8 then 4 else 1
  }

  /** What may be written: a fill character is one code point and no brace. */
  predicate GoodShape(w: Written) {
    && w.align != Numeric
    && (w.fill.Some? ==>
          && w.align != NoAlign && w.fill.value != []
          && |w.fill.value| == LeadLength(w.fill.value[0]) && w.fill.value[0] != '{' && w.fill.value[0] != '}')
    && GoodCount(w.width) && w.width != Number(0)
    && GoodCount(w.precision)
    && (w.upper ==> HasUpper(w.presentation))
  }

  // ----- What the type of the argument allows -----

  predicate SignAllowed(w: Written, t: ArgType) {
    w.sign != NoSign ==> t == SignedType || t == FloatType
  }

  predicate NumericType(t: ArgType) {
    t == SignedType || t == UnsignedType || t == BoolType || t == CharType || t == FloatType
  }

  predicate PrecisionAllowed(w: Written, t: ArgType) {
    !w.precision.Absent? ==> t == FloatType || t == StringType || t == CStringType
  }

  predicate LetterAllowed(w: Written, t: ArgType) {
    match w.presentation
    case NoPresentation => true
    case Debug => t == CharType || t == StringType || t == CStringType
    case Text => t == BoolType || t == StringType || t == CStringType
    case Chr => t == SignedType || t == UnsignedType || t == CharType
    case Pointer => t == PointerType || t == CStringType
    case Dec => t == SignedType || t == UnsignedType || t == BoolType || t == CharType
    case Hex => t == SignedType || t == UnsignedType || t == BoolType || t == CharType
    case Oct => t == SignedType || t == UnsignedType || t == BoolType || t == CharType
    case Bin => t == SignedType || t == UnsignedType || t == BoolType || t == CharType
    case _ => t == FloatType
  }

  /** The type allows every part that is written. */
  predicate Allowed(w: Written, t: ArgType) {
    && SignAllowed(w, t)
    && (w.alt || w.zero || w.localized ==> NumericType(t))
    && PrecisionAllowed(w, t)
    && LetterAllowed(w, t)
  }

  /** Only the parser that does not know the type stops at a part that depends on it, instead of reporting an error. */
  predicate Decided(w: Written, t: ArgType) {
    t != NoneType || Allowed(w, t)
  }

  function TextFromPrecision(w: Written, rest: string): string
    requires GoodCount(w.precision)
  {
    PrecisionText(w) + (LocaleText(w) + (LetterText(w) + rest))
  }

  function TextFromSign(w: Written, rest: string): string
    requires GoodCount(w.width) && GoodCount(w.precision)
  {
    SignText(w) + (HashText(w) + (ZeroText(w) + (CountText(w.width) + TextFromPrecision(w, rest))))
  }

  function Render(w: Written): string
    requires GoodCount(w.width) && GoodCount(w.precision)
  {
    AlignText(w) + TextFromSign(w, "")
  }

  // ----- What the parser should return -----

  function ResolveCount(c: Count, next: int): Option<(ArgRef, int)> {
    if c.Argument? then ResolveRef(c.id, next) else Some((NoRef, next))
  }

  /** 0 pads with zeros after the sign, unless an alignment is given. */
  function Expected(w: Written, widthRef: ArgRef, precisionRef: ArgRef): Specs {
    Specs(if w.width.Number? then w.width.n else 0,
          if w.precision.Number? then w.precision.n else -1,
          w.presentation,
          if w.align != NoAlign then w.align else if w.zero then Numeric else NoAlign,
          w.sign,
          w.upper,
          w.alt,
          w.localized,
          if w.fill.Some? then w.fill.value else if w.zero && w.align == NoAlign then "0" else " ",
          widthRef, precisionRef)
  }

  // ----- Reading the parts -----

  /** s holds the text from pos on. */
  predicate Holds(s: string, pos: nat, text: string) {
    pos <= |s| && s[pos..] == text
  }

  lemma Advance(s: string, pos: nat, x: string, r: string)
    requires Holds(s, pos, x + r)
    ensures pos + |x| <= |s| && s[pos + |x|..] == r && s[pos..pos + |x|] == x
    ensures x != "" ==> pos < |s| && s[pos] == x[0]
  {
    assert s[pos + |x|..] == s[pos..][|x|..] == r;
    assert s[pos..pos + |x|] == s[pos..][..|x|] == x;
    if x != "" {
      assert s[pos] == s[pos..][0] == x[0];
    }
  }

  /** The characters after a number must not extend it. */
  predicate NoDigitFirst(r: string) {
    r == "" || !IsDigit(r[0])
  }

  lemma NumberAt(s: string, pos: nat, digits: string, r: string)
    requires Holds(s, pos, digits + r) && AllDigits(digits) && NoDigitFirst(r)
    ensures DigitsEnd(s, pos) == pos + |digits| && s[pos..pos + |digits|] == digits
    decreases |digits|
  {
    Advance(s, pos, digits, r);
    if digits == "" {
      if pos < |s| {
        assert s[pos] == r[0];
      }
    } else {
      assert Holds(s, pos + 1, digits[1..] + r) by {
        assert s[pos + 1..] == s[pos..][1..];
      }
      NumberAt(s, pos + 1, digits[1..], r);
    }
  }

  lemma NameAt(s: string, pos: nat, name: string, r: string)
    requires Holds(s, pos, name + r) && (r != "" ==> !IsNameStart(r[0]) && !IsDigit(r[0]))
    requires forall i :: 0 <= i < |name| ==> IsNameStart(name[i]) || IsDigit(name[i])
    ensures NameEnd(s, pos) == pos + |name|
    decreases |name|
  {
    Advance(s, pos, name, r);
    if name == "" {
      if pos < |s| {
        assert s[pos] == r[0];
      }
    } else {
      assert Holds(s, pos + 1, name[1..] + r) by {
        assert s[pos + 1..] == s[pos..][1..];
      }
      NameAt(s, pos + 1, name[1..], r);
    }
  }

  /** What comes behind the id of a field or of a width or precision. */
  predicate Closes(c: char) {
    c == '}' || c == ':'
  }

  lemma ClosesIs(c: char)
    ensures Closes(c) <==> c == '}' || c == ':'
  {}

  /** An argument id before a closing brace or a colon. */
  lemma IdAt(s: string, pos: nat, id: ArgId, c: char, r: string)
    requires Closes(c) && GoodId(id) && Holds(s, pos, IdText(id) + ([c] + r))
    ensures pos < |s| && ArgIdAt(s, pos) == Some((id, pos + |IdText(id)|))
  {
    hide *;
    IdTextIs(id);
    match id
    case Auto => AutoIdAt(s, pos, c, r);
    case Index(k) => IndexIdAt(s, pos, k, c, r);
    case Name(n) => NameIdAt(s, pos, n, c, r);
  }

  /** The names that the parser reads are those of letters, underscores and digits. */
  lemma NamesAreWritten(n: string)
    ensures IsName(n) <==> WrittenName(n)
  {
    forall k | 0 <= k < |n|
      ensures (IsNameStart(n[k]) <==> IsLetter(n[k]) || n[k] == '_') && (IsDigit(n[k]) <==> n[k] in "0123456789")
    {
      NameCharacter(n[k]);
    }
    hide IsNameStart, IsDigit, IsLetter;
  }

  lemma NameCharacter(c: char)
    ensures IsNameStart(c) <==> IsLetter(c) || c == '_'
    ensures IsDigit(c) <==> c in "0123456789"
  {
    Letters(c);
    Row("0123456789", '0', c);
    hide IsLetter;
  }

  lemma Letters(c: char)
    ensures IsLetter(c) <==> 'a' <= c <= 'z' || 'A' <= c <= 'Z'
  {
    Row("abcdefghi", 'a', c);
    Row("jklmnopqr", 'j', c);
    Row("stuvwxyz", 's', c);
    Row("ABCDEFGHI", 'A', c);
    Row("JKLMNOPQR", 'J', c);
    Row("STUVWXYZ", 'S', c);
  }

  /** A row of consecutive characters. */
  lemma Row(row: string, first: char, c: char)
    requires forall i :: 0 <= i < |row| ==> row[i] as int == first as int + i
    ensures c in row <==> first as int <= c as int < first as int + |row|
  {
    if first as int <= c as int < first as int + |row| {
      assert row[c as int - first as int] == c;
    }
  }

  lemma IdTextIs(id: ArgId)
    requires GoodId(id)
    ensures match id
            case Auto => IdText(id) == ""
            case Index(k) => 0 <= k <= 0x7fff_ffff && IdText(id) == Decimal(k)
            case Name(n) => IsName(n) && IdText(id) == n
  {
    if id.Name? {
      NamesAreWritten(id.name);
    }
    hide Decimal, IsName, WrittenName;
  }

  lemma AutoIdAt(s: string, pos: nat, c: char, r: string)
    requires Closes(c) && Holds(s, pos, "" + ([c] + r))
    ensures pos < |s| && ArgIdAt(s, pos) == Some((Auto, pos + |""|))
  {
    assert s[pos..][0] == c;
  }

  lemma IndexIdAt(s: string, pos: nat, k: nat, c: char, r: string)
    requires Closes(c) && k <= 0x7fff_ffff && Holds(s, pos, Decimal(k) + ([c] + r))
    ensures pos < |s| && ArgIdAt(s, pos) == Some((Index(k), pos + |Decimal(k)|))
  {
    hide *;
    Advance(s, pos, Decimal(k), [c] + r);
    IndexAt(s, pos, k, c, r);
    var end := pos + |Decimal(k)|;
    NextIs(s, end, c, r);
    ClosesIs(c);
    if k == 0 {
      ZeroIndexRead(s, pos);
    } else {
      IndexRead(s, pos, k, end);
    }
  }

  lemma NextIs(s: string, end: nat, c: char, r: string)
    requires end <= |s| && s[end..] == [c] + r
    ensures end < |s| && s[end] == c
  {
    assert s[end..][0] == c;
  }

  lemma ZeroIndexRead(s: string, pos: nat)
    requires pos + 1 < |s| && s[pos] == '0' && (s[pos + 1] == '}' || s[pos + 1] == ':')
    ensures ArgIdAt(s, pos) == Some((Index(0), pos + 1))
  {}

  lemma IndexRead(s: string, pos: nat, k: nat, end: nat)
    requires pos < end < |s| && IsDigit(s[pos]) && s[pos] != '0' && DigitsEnd(s, pos) == end && (s[end] == '}' || s[end] == ':')
    requires NonnegativeInt(s[pos..end], 0x7fff_ffff) == k
    ensures ArgIdAt(s, pos) == Some((Index(k), end))
  {
    hide DigitsEnd, NonnegativeInt;
  }

  lemma NameIdAt(s: string, pos: nat, n: string, c: char, r: string)
    requires Closes(c) && IsName(n) && Holds(s, pos, n + ([c] + r))
    ensures pos < |s| && ArgIdAt(s, pos) == Some((Name(n), pos + |n|))
  {
    WholeNameAt(s, pos, n, c, r);
    hide NameEnd, Holds;
  }

  /** An id that is read is the text before its end: nothing, a number without leading zeros, or a name. */
  lemma IdRead(s: string, i: nat)
    requires i < |s| && ArgIdAt(s, i).Some?
    ensures var (id, end) := ArgIdAt(s, i).value;
            match id
            case Auto => end == i && (s[i] == '}' || s[i] == ':')
            case Name(n) => n == s[i..end] && WrittenName(n)
            case Index(k) =>
              && i < end < |s| && (s[end] == '}' || s[end] == ':')
              && AllDigits(s[i..end]) && (s[i] == '0' ==> end == i + 1)
              && k == if DigitsVal(s[i..end]) <= 0x7fff_ffff then DigitsVal(s[i..end]) else 0x7fff_ffff
  {
    var (id, end) := ArgIdAt(s, i).value;
    match id
    case Auto =>
    case Name(n) => NamesAreWritten(n);
    case Index(k) => NumberRead(s, i, end);
  }

  lemma NumberRead(s: string, i: nat, end: nat)
    requires i < |s| && ArgIdAt(s, i).Some? && ArgIdAt(s, i).value.0.Index? && end == ArgIdAt(s, i).value.1
    ensures i < end < |s| && AllDigits(s[i..end]) && (s[i] == '0' ==> end == i + 1)
    ensures ArgIdAt(s, i).value.0.index
            == if DigitsVal(s[i..end]) <= 0x7fff_ffff then DigitsVal(s[i..end]) else 0x7fff_ffff
  {
    if s[i] == '0' {
      assert s[i..i + 1] == ['0'];
      OneDigit('0');
    } else {
      hide DigitsVal, NonnegativeInt;
      IntNeverWraps(s[i..end], 0x7fff_ffff);
    }
  }

  lemma DecimalStart(k: nat)
    ensures Decimal(k)[0] == '0' <==> k == 0
    ensures k == 0 ==> Decimal(k) == "0"
  {
    assert Decimal(0) == "0";
  }

  lemma IndexAt(s: string, pos: nat, k: nat, c: char, r: string)
    requires Closes(c) && k <= 0x7fff_ffff && Holds(s, pos, Decimal(k) + ([c] + r))
    ensures pos < |s| && IsDigit(s[pos]) && (s[pos] == '0' <==> k == 0)
    ensures k == 0 ==> Decimal(k) == "0"
    ensures k > 0 ==> DigitsEnd(s, pos) == pos + |Decimal(k)| && NonnegativeInt(s[pos..pos + |Decimal(k)|], 0x7fff_ffff) == k
  {
    hide DigitsEnd, DigitsVal, NonnegativeInt, Decimal, ArgIdAt, Pow;
    DecimalStart(k);
    Advance(s, pos, Decimal(k), [c] + r);
    if k > 0 {
      NumberAt(s, pos, Decimal(k), [c] + r);
      IntNeverWraps(Decimal(k), 0x7fff_ffff);
    }
  }

  lemma WholeNameAt(s: string, pos: nat, n: string, c: char, r: string)
    requires Closes(c) && IsName(n) && Holds(s, pos, n + ([c] + r))
    ensures pos < |s| && s[pos] == n[0] && NameEnd(s, pos + 1) == pos + |n| && s[pos..pos + |n|] == n
  {
    Advance(s, pos, n, [c] + r);
    assert Holds(s, pos + 1, n[1..] + ([c] + r)) by {
      assert s[pos + 1..] == s[pos..][1..];
    }
    NameAt(s, pos + 1, n[1..], [c] + r);
  }

  /** A number or an argument in braces, read by parse_dynamic_spec. */
  lemma CountAt(s: string, pos: nat, c: Count, value: int, next: int, r: string)
    requires GoodCount(c) && !c.Absent? && Holds(s, pos, CountText(c) + r) && NoDigitFirst(r)
    requires ResolveCount(c, next).Some?
    ensures pos < |s| && s[pos] == CountText(c)[0]
    ensures DynamicAt(s, pos, value, NoRef, next)
            == Some(Dynamic(if c.Number? then c.n else value, ResolveCount(c, next).value.0,
                            pos + |CountText(c)|, ResolveCount(c, next).value.1))
  {
    hide *;
    CountStart(c);
    CountTextIs(c);
    Advance(s, pos, CountText(c), r);
    if c.Number? {
      NumberDynamic(s, pos, c.n, value, next, r);
    } else {
      ArgumentDynamic(s, pos, c.id, value, next, r);
    }
    ResolveCountIs(c, next);
  }

  lemma CountTextIs(c: Count)
    requires GoodCount(c)
    ensures match c
            case Absent => CountText(c) == ""
            case Number(n) => n <= 0x7fff_ffff && CountText(c) == Decimal(n)
            case Argument(id) => GoodId(id) && CountText(c) == "{" + IdText(id) + "}"
  {
    hide Decimal, IdText, GoodId;
  }

  lemma ResolveCountIs(c: Count, next: int)
    ensures c.Absent? ==> ResolveCount(c, next) == Some((NoRef, next))
    ensures c.Number? ==> ResolveCount(c, next) == Some((NoRef, next))
    ensures c.Argument? ==> ResolveCount(c, next) == ResolveRef(c.id, next)
  {
    hide ResolveRef;
  }

  lemma NumberDynamic(s: string, pos: nat, n: nat, value: int, next: int, r: string)
    requires n <= 0x7fff_ffff && Holds(s, pos, Decimal(n) + r) && NoDigitFirst(r)
    ensures pos < |s| && DynamicAt(s, pos, value, NoRef, next) == Some(Dynamic(n, NoRef, pos + |Decimal(n)|, next))
  {
    Advance(s, pos, Decimal(n), r);
    hide DigitsEnd, NonnegativeInt, Decimal, Holds;
    PlainNumberAt(s, pos, n, r);
  }

  lemma ArgumentDynamic(s: string, pos: nat, id: ArgId, value: int, next: int, r: string)
    requires GoodId(id) && Holds(s, pos, ("{" + IdText(id) + "}") + r)
    ensures pos < |s|
    ensures var target := ResolveRef(id, next);
            target.Some? ==>
              DynamicAt(s, pos, value, NoRef, next)
              == Some(Dynamic(value, target.value.0, pos + |"{" + IdText(id) + "}"|, target.value.1))
  {
    hide *;
    GoodIndex(id);
    var text := IdText(id);
    BracedText(s, pos, text, r);
    ClosesIs('}');
    assert Holds(s, pos + 1, text + (['}'] + r));
    IdAt(s, pos + 1, id, '}', r);
    DynamicIs(s, pos, id, pos + 1 + |text|, value, next);
  }

  lemma GoodIndex(id: ArgId)
    requires GoodId(id)
    ensures id.Index? ==> id.index >= 0
  {}

  lemma BracedText(s: string, pos: nat, text: string, r: string)
    requires Holds(s, pos, ("{" + text + "}") + r)
    ensures pos + 1 + |text| < |s| && s[pos] == '{' && s[pos + 1 + |text|] == '}' && Holds(s, pos + 1, text + ("}" + r))
    ensures |"{" + text + "}"| == |text| + 2
  {
    assert ("{" + text + "}") + r == ['{'] + text + ("}" + r);
    SkipOne(s, pos, '{', text, "}" + r);
    Advance(s, pos + 1, text, "}" + r);
    assert s[pos + 1 + |text|] == s[pos + 1 + |text|..][0];
  }

  lemma DynamicIs(s: string, i: nat, id: ArgId, end: nat, value: int, next: int)
    requires i + 1 < |s| && s[i] == '{' && ArgIdAt(s, i + 1) == Some((id, end)) && end < |s| && s[end] == '}'
    ensures var target := ResolveRef(id, next);
            target.Some? ==> DynamicAt(s, i, value, NoRef, next) == Some(Dynamic(value, target.value.0, end + 1, target.value.1))
  {
    hide ArgIdAt, ResolveRef;
  }

  lemma PlainNumberAt(s: string, pos: nat, n: nat, r: string)
    requires n <= 0x7fff_ffff && Holds(s, pos, Decimal(n) + r) && NoDigitFirst(r)
    ensures DigitsEnd(s, pos) == pos + |Decimal(n)| && NonnegativeInt(s[pos..pos + |Decimal(n)|], -1) == n
  {
    hide DigitsEnd, DigitsVal, NonnegativeInt, Decimal, Pow;
    DecimalStart(n);
    NumberAt(s, pos, Decimal(n), r);
    IntNeverWraps(Decimal(n), -1);
  }

  // ----- One part after the other -----

  function AfterSign(cur: Cursor, w: Written): Cursor {
    if w.sign == NoSign then cur else Enter(cur, SignState, cur.pos + 1, cur.specs.(sign := w.sign), cur.next)
  }

  function AfterHash(cur: Cursor, w: Written): Cursor {
    if !w.alt then cur else Enter(cur, HashState, cur.pos + 1, cur.specs.(alt := true), cur.next)
  }

  function AfterZero(cur: Cursor, w: Written): Cursor {
    if !w.zero then cur
    else Enter(cur, ZeroState, cur.pos + 1,
               if cur.specs.align == NoAlign then cur.specs.(align := Numeric, fill := "0") else cur.specs, cur.next)
  }

  function AfterWidth(cur: Cursor, c: Count): Cursor
    requires GoodCount(c) && ResolveCount(c, cur.next).Some?
  {
    if c.Absent? then cur
    else
      var ref := ResolveCount(c, cur.next).value;
      Enter(cur, WidthState, cur.pos + |CountText(c)|,
            cur.specs.(width := if c.Number? then c.n else cur.specs.width, widthRef := ref.0), ref.1)
  }

  function AfterPrecision(cur: Cursor, c: Count): Cursor
    requires GoodCount(c) && ResolveCount(c, cur.next).Some?
  {
    if c.Absent? then cur
    else
      var ref := ResolveCount(c, cur.next).value;
      Enter(cur, PrecisionState, cur.pos + 1 + |CountText(c)|,
            cur.specs.(precision := if c.Number? then c.n else cur.specs.precision, precisionRef := ref.0), ref.1)
  }

  function AfterLocale(cur: Cursor, w: Written): Cursor {
    if !w.localized then cur else Enter(cur, LocaleState, cur.pos + 1, cur.specs.(localized := true), cur.next)
  }

  function AfterLetter(cur: Cursor, w: Written): Cursor {
    if w.presentation == NoPresentation then cur
    else
      var specs := if w.upper then cur.specs.(upper := true) else cur.specs;
      cur.(pos := cur.pos + 1, specs := specs.(presentation := w.presentation))
  }

  lemma StepsToSign(s: string, cur: Cursor, t: ArgType)
    requires cur.pos < |s| && s[cur.pos] in "+- " && t != NoneType
    ensures Step(s, ToAscii(s[cur.pos]), cur, t)
            == EnterIf(AllowsSign(t), cur, SignState, cur.specs.(sign := SignOf(s[cur.pos])))
  {
    hide Presented, WidthStep, FillStep, CodePointLength, PrecisionStep, ZeroStep, PresentationStep, EnterIf;
  }

  lemma StepsToFlag(s: string, cur: Cursor, t: ArgType)
    requires cur.pos < |s| && t != NoneType
    ensures s[cur.pos] == '#' ==> Step(s, '#', cur, t) == EnterIf(IsArithmetic(t), cur, HashState, cur.specs.(alt := true))
    ensures s[cur.pos] == 'L' ==> Step(s, 'L', cur, t) == EnterIf(IsArithmetic(t), cur, LocaleState, cur.specs.(localized := true))
    ensures s[cur.pos] == '0' ==> Step(s, '0', cur, t) == ZeroStep(cur, t)
  {
    hide Presented, WidthStep, FillStep, CodePointLength, PrecisionStep, ZeroStep, PresentationStep, EnterIf;
  }

  lemma SignPart(s: string, cur: Cursor, w: Written, t: ArgType, r: string)
    requires Holds(s, cur.pos, SignText(w) + r) && Rank(cur.state) < 2 && (t != NoneType || SignAllowed(w, t))
    ensures var next := AfterSign(cur, w);
            Holds(s, next.pos, r) && Continue(s, cur, t) == if SignAllowed(w, t) then Continue(s, next, t) else None
  {
    Advance(s, cur.pos, SignText(w), r);
    if w.sign != NoSign {
      hide Step, Continue;
      StepsToSign(s, cur, t);
      if SignAllowed(w, t) {
        GoOn(s, cur, t, AfterSign(cur, w));
      } else {
        Stops(s, cur, t);
      }
    }
  }

  lemma HashPart(s: string, cur: Cursor, w: Written, t: ArgType, r: string)
    requires Holds(s, cur.pos, HashText(w) + r) && Rank(cur.state) < 3 && (t != NoneType || (w.alt ==> NumericType(t)))
    ensures var next := AfterHash(cur, w);
            Holds(s, next.pos, r) && Continue(s, cur, t) == if w.alt ==> NumericType(t) then Continue(s, next, t) else None
  {
    Advance(s, cur.pos, HashText(w), r);
    if w.alt {
      hide Step, Continue;
      StepsToFlag(s, cur, t);
      if NumericType(t) {
        GoOn(s, cur, t, AfterHash(cur, w));
      } else {
        Stops(s, cur, t);
      }
    }
  }

  lemma ZeroPart(s: string, cur: Cursor, w: Written, t: ArgType, r: string)
    requires Holds(s, cur.pos, ZeroText(w) + r) && Rank(cur.state) < 4 && (t != NoneType || (w.zero ==> NumericType(t)))
    ensures var next := AfterZero(cur, w);
            Holds(s, next.pos, r) && Continue(s, cur, t) == if w.zero ==> NumericType(t) then Continue(s, next, t) else None
  {
    Advance(s, cur.pos, ZeroText(w), r);
    if w.zero {
      hide Step, Continue;
      StepsToFlag(s, cur, t);
      if NumericType(t) {
        GoOn(s, cur, t, AfterZero(cur, w));
      } else {
        Stops(s, cur, t);
      }
    }
  }

  lemma WidthPart(s: string, cur: Cursor, w: Written, t: ArgType, r: string)
    requires GoodCount(w.width) && Holds(s, cur.pos, CountText(w.width) + r) && NoDigitFirst(r)
    requires GoodShape(w) && Rank(cur.state) < 5 && cur.specs.widthRef == NoRef
    ensures if ResolveCount(w.width, cur.next).Some? then
              var next := AfterWidth(cur, w.width);
              Holds(s, next.pos, r) && Continue(s, cur, t) == Continue(s, next, t)
            else Continue(s, cur, t) == None
  {
    var c := w.width;
    NotZeroWidth(w);
    hide *;
    ResolveCountIs(c, cur.next);
    if c.Absent? {
      NoWidth(cur, c);
      Advance(s, cur.pos, CountText(c), r);
      HoldsAfter(s, cur.pos + |CountText(c)|, r);
    } else if ResolveCount(c, cur.next).Some? {
      GivenWidth(s, cur, c, t, r);
    } else {
      UnresolvedWidth(s, cur, c, t, r);
    }
  }

  lemma GivenWidth(s: string, cur: Cursor, c: Count, t: ArgType, r: string)
    requires GoodCount(c) && !c.Absent? && c != Number(0) && ResolveCount(c, cur.next).Some?
    requires Holds(s, cur.pos, CountText(c) + r) && NoDigitFirst(r)
    requires Rank(cur.state) < 5 && cur.specs.widthRef == NoRef
    ensures var next := AfterWidth(cur, c);
            Holds(s, next.pos, r) && Continue(s, cur, t) == Continue(s, next, t)
  {
    hide *;
    Advance(s, cur.pos, CountText(c), r);
    HoldsAfter(s, cur.pos + |CountText(c)|, r);
    CountAt(s, cur.pos, c, cur.specs.width, cur.next, r);
    CountStart(c);
    DynamicWidth(s, cur, c);
    StepsToWidth(s, cur, t);
    GoOn(s, cur, t, AfterWidth(cur, c));
  }

  lemma UnresolvedWidth(s: string, cur: Cursor, c: Count, t: ArgType, r: string)
    requires GoodCount(c) && !c.Absent? && ResolveCount(c, cur.next).None?
    requires Holds(s, cur.pos, CountText(c) + r)
    ensures Continue(s, cur, t) == None
  {
    hide *;
    ResolveCountIs(c, cur.next);
    CountTextIs(c);
    GoodIndex(c.id);
    BracedText(s, cur.pos, IdText(c.id), r);
    UnresolvedAt(s, cur.pos, c.id, cur.specs.width, cur.specs.widthRef, cur.next, r);
    StepsToWidth(s, cur, t);
    NoWidthStep(s, cur);
    Stops(s, cur, t);
  }

  lemma NoWidthStep(s: string, cur: Cursor)
    requires cur.pos < |s| && DynamicAt(s, cur.pos, cur.specs.width, cur.specs.widthRef, cur.next) == None
    ensures WidthStep(s, cur) == Failed
  {
    hide DynamicAt;
  }

  /** An argument id that the counter does not allow is an error. */
  lemma UnresolvedAt(s: string, pos: nat, id: ArgId, value: int, ref: ArgRef, next: int, r: string)
    requires GoodId(id) && Holds(s, pos, ("{" + IdText(id) + "}") + r) && ResolveRef(id, next).None?
    ensures pos < |s| && s[pos] == '{' && DynamicAt(s, pos, value, ref, next) == None
  {
    hide *;
    GoodIndex(id);
    var text := IdText(id);
    BracedText(s, pos, text, r);
    ClosesIs('}');
    assert Holds(s, pos + 1, text + (['}'] + r));
    IdAt(s, pos + 1, id, '}', r);
    NoDynamic(s, pos, id, value, ref, next);
  }

  lemma NoDynamic(s: string, i: nat, id: ArgId, value: int, ref: ArgRef, next: int)
    requires i + 1 < |s| && s[i] == '{' && ArgIdAt(s, i + 1).Some? && ArgIdAt(s, i + 1).value.0 == id
    requires ResolveRef(id, next).None?
    ensures DynamicAt(s, i, value, ref, next) == None
  {
    hide ArgIdAt, ResolveRef;
  }

  lemma NotZeroWidth(w: Written)
    requires GoodShape(w)
    ensures w.width != Number(0)
  {}

  lemma NoWidth(cur: Cursor, c: Count)
    requires GoodCount(c) && c.Absent?
    ensures AfterWidth(cur, c) == cur && CountText(c) == "" && |CountText(c)| == 0
  {}

  lemma HoldsAfter(s: string, pos: nat, r: string)
    requires pos <= |s| && s[pos..] == r
    ensures Holds(s, pos, r)
  {}

  /** The step once the width has been read. */
  lemma DynamicWidth(s: string, cur: Cursor, c: Count)
    requires GoodCount(c) && !c.Absent? && ResolveCount(c, cur.next).Some? && Rank(cur.state) < 5
    requires cur.pos < |s| && cur.specs.widthRef == NoRef
    requires DynamicAt(s, cur.pos, cur.specs.width, NoRef, cur.next)
             == Some(Dynamic(if c.Number? then c.n else cur.specs.width, ResolveCount(c, cur.next).value.0,
                             cur.pos + |CountText(c)|, ResolveCount(c, cur.next).value.1))
    ensures WidthStep(s, cur) == More(AfterWidth(cur, c)) && AfterWidth(cur, c).pos == cur.pos + |CountText(c)|
  {
    hide DynamicAt, CountText, GoodCount, ResolveCount;
  }

  lemma StepsToWidth(s: string, cur: Cursor, t: ArgType)
    requires cur.pos < |s| && (s[cur.pos] == '{' || (IsDigit(s[cur.pos]) && s[cur.pos] != '0'))
    ensures Step(s, ToAscii(s[cur.pos]), cur, t) == WidthStep(s, cur)
  {
    hide Presented, WidthStep, FillStep, CodePointLength, PrecisionStep;
  }

  lemma GoOn(s: string, cur: Cursor, t: ArgType, next: Cursor)
    requires cur.pos < |s| && Step(s, ToAscii(s[cur.pos]), cur, t) == More(next)
    ensures next.pos <= |s| && Continue(s, cur, t) == Continue(s, next, t)
  {
    hide Step;
  }

  lemma Stops(s: string, cur: Cursor, t: ArgType)
    requires cur.pos < |s| && Step(s, ToAscii(s[cur.pos]), cur, t) == Failed
    ensures Continue(s, cur, t) == None
  {
    hide Step;
  }

  lemma CountStart(c: Count)
    requires GoodCount(c) && !c.Absent?
    ensures CountText(c) != "" && (CountText(c)[0] == '{' || IsDigit(CountText(c)[0]))
    ensures c != Number(0) ==> CountText(c)[0] != '0'
    ensures CountText(c)[0] != '}'
  {}

  lemma PrecisionPart(s: string, cur: Cursor, w: Written, t: ArgType, r: string)
    requires GoodCount(w.precision) && Holds(s, cur.pos, PrecisionText(w) + r) && NoDigitFirst(r)
    requires Rank(cur.state) < 6 && cur.specs.precisionRef == NoRef && (t != NoneType || PrecisionAllowed(w, t))
    ensures if ResolveCount(w.precision, cur.next).Some? then
              var next := AfterPrecision(cur, w.precision);
              Holds(s, next.pos, r) && Continue(s, cur, t) == if PrecisionAllowed(w, t) then Continue(s, next, t) else None
            else Continue(s, cur, t) == None
  {
    Advance(s, cur.pos, PrecisionText(w), r);
    if ResolveCount(w.precision, cur.next).None? {
      UnresolvedPrecision(s, cur, w, t, r);
    } else if !w.precision.Absent? {
      PrecisionStepAt(s, cur, w, t, r);
      hide PrecisionStep, CountText, GoodCount, ResolveCount, Step, PrecisionAllowed;
      StepsToPrecision(s, cur, t);
      if PrecisionAllowed(w, t) {
        GoOn(s, cur, t, AfterPrecision(cur, w.precision));
      } else {
        Stops(s, cur, t);
      }
    } else {
      assert PrecisionAllowed(w, t);
    }
  }

  lemma UnresolvedPrecision(s: string, cur: Cursor, w: Written, t: ArgType, r: string)
    requires GoodCount(w.precision) && Holds(s, cur.pos, PrecisionText(w) + r) && ResolveCount(w.precision, cur.next).None?
    requires Rank(cur.state) < 6 && (t != NoneType || PrecisionAllowed(w, t))
    ensures Continue(s, cur, t) == None
  {
    hide *;
    var c := w.precision;
    ResolveCountIs(c, cur.next);
    PrecisionFacts(cur, w, t);
    CountTextIs(c);
    SkipOne(s, cur.pos, '.', CountText(c), r);
    GoodIndex(c.id);
    BracedText(s, cur.pos + 1, IdText(c.id), r);
    UnresolvedAt(s, cur.pos + 1, c.id, cur.specs.precision, cur.specs.precisionRef, cur.next, r);
    StepsToPrecision(s, cur, t);
    NoPrecisionStep(s, cur, t);
    Stops(s, cur, t);
  }

  lemma NoPrecisionStep(s: string, cur: Cursor, t: ArgType)
    requires cur.pos + 1 < |s|
    requires DynamicAt(s, cur.pos + 1, cur.specs.precision, cur.specs.precisionRef, cur.next) == None
    ensures PrecisionStep(s, cur, t) == Failed
  {
    hide DynamicAt, AllowsPrecision;
  }

  lemma PrecisionStepAt(s: string, cur: Cursor, w: Written, t: ArgType, r: string)
    requires GoodCount(w.precision) && Holds(s, cur.pos, PrecisionText(w) + r) && NoDigitFirst(r)
    requires Rank(cur.state) < 6 && cur.specs.precisionRef == NoRef && !w.precision.Absent?
    requires ResolveCount(w.precision, cur.next).Some? && (t != NoneType || PrecisionAllowed(w, t))
    ensures t != NoneType && cur.pos < |s| && s[cur.pos] == '.'
    ensures PrecisionStep(s, cur, t) == if PrecisionAllowed(w, t) then More(AfterPrecision(cur, w.precision)) else Failed
  {
    var c := w.precision;
    hide *;
    PrecisionFacts(cur, w, t);
    SkipOne(s, cur.pos, '.', CountText(c), r);
    NoPrecision(s, cur, t);
    CountAt(s, cur.pos + 1, c, cur.specs.precision, cur.next, r);
    CountStart(c);
    if AllowsPrecision(t) {
      DynamicPrecision(s, cur, c, t);
    }
  }

  lemma PrecisionFacts(cur: Cursor, w: Written, t: ArgType)
    requires GoodCount(w.precision) && Rank(cur.state) < 6 && !w.precision.Absent?
    ensures (AllowsPrecision(t) <==> PrecisionAllowed(w, t)) && (AllowsPrecision(t) ==> t != NoneType)
    ensures CanEnter(cur, PrecisionState) && PrecisionText(w) == ['.'] + CountText(w.precision)
  {
    hide CountText, GoodCount, ResolveCount;
  }

  lemma NoPrecision(s: string, cur: Cursor, t: ArgType)
    requires cur.pos < |s|
    ensures !AllowsPrecision(t) ==> PrecisionStep(s, cur, t) == Failed
  {
    hide DynamicAt, AllowsPrecision;
  }

  /** The step once the precision has been read. */
  lemma DynamicPrecision(s: string, cur: Cursor, c: Count, t: ArgType)
    requires GoodCount(c) && !c.Absent? && ResolveCount(c, cur.next).Some? && AllowsPrecision(t) && CanEnter(cur, PrecisionState)
    requires cur.pos + 1 < |s| && s[cur.pos + 1] != '}' && cur.specs.precisionRef == NoRef
    requires DynamicAt(s, cur.pos + 1, cur.specs.precision, NoRef, cur.next)
             == Some(Dynamic(if c.Number? then c.n else cur.specs.precision, ResolveCount(c, cur.next).value.0,
                             cur.pos + 1 + |CountText(c)|, ResolveCount(c, cur.next).value.1))
    ensures PrecisionStep(s, cur, t) == More(AfterPrecision(cur, c))
  {
    hide DynamicAt, CountText, GoodCount, ResolveCount;
  }

  lemma SkipOne(s: string, pos: nat, c: char, x: string, r: string)
    requires Holds(s, pos, [c] + x + r)
    ensures pos < |s| && s[pos] == c && Holds(s, pos + 1, x + r)
  {
    Advance(s, pos, [c] + x, r);
    assert s[pos + 1..] == s[pos..][1..];
  }

  lemma StepsToPrecision(s: string, cur: Cursor, t: ArgType)
    requires cur.pos < |s| && s[cur.pos] == '.' && t != NoneType
    ensures Step(s, ToAscii(s[cur.pos]), cur, t) == PrecisionStep(s, cur, t)
  {
    hide Presented, WidthStep, FillStep, CodePointLength, PrecisionStep;
  }

  lemma LocalePart(s: string, cur: Cursor, w: Written, t: ArgType, r: string)
    requires Holds(s, cur.pos, LocaleText(w) + r) && Rank(cur.state) < 7 && (t != NoneType || (w.localized ==> NumericType(t)))
    ensures var next := AfterLocale(cur, w);
            Holds(s, next.pos, r) && Continue(s, cur, t) == if w.localized ==> NumericType(t) then Continue(s, next, t) else None
  {
    Advance(s, cur.pos, LocaleText(w), r);
    if w.localized {
      hide Step, Continue;
      StepsToFlag(s, cur, t);
      if NumericType(t) {
        GoOn(s, cur, t, AfterLocale(cur, w));
      } else {
        Stops(s, cur, t);
      }
    }
  }

  /** After the last part comes the end of the string or of the field. */
  predicate FieldEnd(rest: string) {
    rest == "" || rest[0] == '}'
  }

  lemma LetterPart(s: string, cur: Cursor, w: Written, t: ArgType, rest: string)
    requires Holds(s, cur.pos, LetterText(w) + rest) && FieldEnd(rest) && (w.upper ==> HasUpper(w.presentation))
    requires t != NoneType || LetterAllowed(w, t)
    ensures Continue(s, cur, t) == if LetterAllowed(w, t) then Some(AfterLetter(cur, w)) else None
  {
    Advance(s, cur.pos, LetterText(w), rest);
    if w.presentation != NoPresentation {
      LetterMeans(w, t);
      StepsToLetter(s, cur, t);
      hide Step, Presented, Letter, LetterAllowed, HasUpper;
    } else if cur.pos < |s| {
      assert s[cur.pos] == s[cur.pos..][0] == '}';
      StepsToEnd(s, cur, t);
      hide Step;
    }
  }

  /** Every letter means the presentation that it is written for, for exactly the types that allow it. */
  lemma LetterMeans(w: Written, t: ArgType)
    requires w.presentation != NoPresentation && (w.upper ==> HasUpper(w.presentation))
    ensures var p := Presented(Letter(w.presentation, w.upper));
            && p.Some? && p.value.0 == w.presentation && p.value.2 == w.upper
            && (t in p.value.1 <==> LetterAllowed(w, t))
  {
    if w.presentation in {Dec, Hex, Oct, Bin, Chr} {
      IntegralLetter(w, t);
    } else {
      OtherLetter(w, t);
    }
    hide Presented, LetterAllowed, Letter;
  }

  lemma IntegralLetter(w: Written, t: ArgType)
    requires w.presentation in {Dec, Hex, Oct, Bin, Chr} && (w.upper ==> HasUpper(w.presentation))
    ensures var p := Presented(Letter(w.presentation, w.upper));
            && p.Some? && p.value.0 == w.presentation && p.value.2 == w.upper
            && (t in p.value.1 <==> LetterAllowed(w, t))
  {}

  lemma OtherLetter(w: Written, t: ArgType)
    requires w.presentation !in {NoPresentation, Dec, Hex, Oct, Bin, Chr} && (w.upper ==> HasUpper(w.presentation))
    ensures var p := Presented(Letter(w.presentation, w.upper));
            && p.Some? && p.value.0 == w.presentation && p.value.2 == w.upper
            && (t in p.value.1 <==> LetterAllowed(w, t))
  {}

  lemma StepsToLetter(s: string, cur: Cursor, t: ArgType)
    requires cur.pos < |s| && Presented(s[cur.pos]).Some?
    ensures ToAscii(s[cur.pos]) == s[cur.pos]
    ensures Step(s, s[cur.pos], cur, t) == PresentationStep(cur, Presented(s[cur.pos]).value, t)
  {
    hide Presented, WidthStep, FillStep, CodePointLength, PrecisionStep, ZeroStep, PresentationStep, EnterIf;
  }

  lemma StepsToEnd(s: string, cur: Cursor, t: ArgType)
    requires cur.pos < |s| && s[cur.pos] == '}'
    ensures Step(s, '}', cur, t) == Done(cur)
  {
    hide Presented, WidthStep, FillStep, CodePointLength, PrecisionStep, ZeroStep, PresentationStep, EnterIf;
  }

  // ----- The whole specifier -----

  function AfterWidthAndPrecision(cur: Cursor, w: Written): Cursor
    requires GoodCount(w.width) && GoodCount(w.precision) && Resolvable(w, cur.next)
  {
    AfterPrecision(AfterWidth(cur, w.width), w.precision)
  }

  /** The counter allows the argument ids of the width and then of the precision. */
  predicate Resolvable(w: Written, next: int) {
    && ResolveCount(w.width, next).Some?
    && ResolveCount(w.precision, ResolveCount(w.width, next).value.1).Some?
  }

  function AfterFlags(cur: Cursor, w: Written): Cursor {
    AfterZero(AfterHash(AfterSign(cur, w), w), w)
  }

  function AfterAll(cur: Cursor, w: Written): Cursor
    requires GoodShape(w) && Resolvable(w, cur.next)
  {
    AfterLetter(AfterLocale(AfterWidthAndPrecision(AfterFlags(cur, w), w), w), w)
  }

  lemma PartsAfterFlags(s: string, cur: Cursor, w: Written, t: ArgType, rest: string)
    requires GoodShape(w) && FieldEnd(rest) && Rank(cur.state) < 5
    requires cur.specs.widthRef == NoRef && cur.specs.precisionRef == NoRef
    requires t != NoneType || TailAllowed(w, t)
    requires Holds(s, cur.pos, CountText(w.width) + TextFromPrecision(w, rest))
    ensures Continue(s, cur, t)
            == if Resolvable(w, cur.next) && TailAllowed(w, t) then
                 Some(AfterLetter(AfterLocale(AfterWidthAndPrecision(cur, w), w), w))
               else None
  {
    NoDigitAfterCounts(w, rest);
    CountFacts(cur, w);
    TailAllowedIs(w, t);
    hide *;
    WidthPart(s, cur, w, t, TextFromPrecision(w, rest));
    if ResolveCount(w.width, cur.next).None? {
      return;
    }
    var c1 := AfterWidth(cur, w.width);
    PrecisionPart(s, c1, w, t, LocaleText(w) + (LetterText(w) + rest));
    if ResolveCount(w.precision, c1.next).Some? && PrecisionAllowed(w, t) {
      var c2 := AfterPrecision(c1, w.precision);
      LocalePart(s, c2, w, t, LetterText(w) + rest);
      if w.localized ==> NumericType(t) {
        LetterPart(s, AfterLocale(c2, w), w, t, rest);
      }
    }
  }

  /** The type allows the parts behind the width. */
  predicate TailAllowed(w: Written, t: ArgType) {
    PrecisionAllowed(w, t) && (w.localized ==> NumericType(t)) && LetterAllowed(w, t)
  }

  lemma TailAllowedIs(w: Written, t: ArgType)
    requires GoodShape(w)
    ensures w.upper ==> HasUpper(w.presentation)
    ensures TailAllowed(w, t) <==> PrecisionAllowed(w, t) && (w.localized ==> NumericType(t)) && LetterAllowed(w, t)
    ensures Allowed(w, t)
            <==> SignAllowed(w, t) && (w.alt ==> NumericType(t)) && (w.zero ==> NumericType(t)) && TailAllowed(w, t)
  {
    hide HasUpper, PrecisionAllowed, NumericType, LetterAllowed, SignAllowed, GoodCount;
  }

  lemma CountFacts(cur: Cursor, w: Written)
    requires GoodShape(w) && Rank(cur.state) < 5
    requires cur.specs.precisionRef == NoRef
    ensures GoodCount(w.width) && GoodCount(w.precision)
    ensures ResolveCount(w.width, cur.next).None? ==> !Resolvable(w, cur.next)
    ensures ResolveCount(w.width, cur.next).Some? ==>
              var c1 := AfterWidth(cur, w.width);
              && Rank(c1.state) < 6 && c1.specs.precisionRef == NoRef
              && (Resolvable(w, cur.next) <==> ResolveCount(w.precision, c1.next).Some?)
              && (Resolvable(w, cur.next) ==>
                    && Rank(AfterPrecision(c1, w.precision).state) < 7
                    && AfterWidthAndPrecision(cur, w) == AfterPrecision(c1, w.precision))
    ensures forall rest :: TextFromPrecision(w, rest) == PrecisionText(w) + (LocaleText(w) + (LetterText(w) + rest))
  {
    hide GoodCount, CountText, ResolveRef;
  }

  lemma NoDigitAfterCounts(w: Written, rest: string)
    requires GoodShape(w) && FieldEnd(rest)
    ensures NoDigitFirst(TextFromPrecision(w, rest)) && NoDigitFirst(LocaleText(w) + (LetterText(w) + rest))
  {
    hide GoodCount, CountText;
  }

  lemma PartsFromSign(s: string, cur: Cursor, w: Written, t: ArgType, rest: string)
    requires GoodShape(w) && FieldEnd(rest) && Rank(cur.state) < 2 && Decided(w, t)
    requires cur.specs.widthRef == NoRef && cur.specs.precisionRef == NoRef
    requires Holds(s, cur.pos, TextFromSign(w, rest))
    ensures Continue(s, cur, t) == if Allowed(w, t) && Resolvable(w, cur.next) then Some(AfterAll(cur, w)) else None
  {
    FlagFacts(cur, w, rest);
    TailAllowedIs(w, t);
    assert t != NoneType || Allowed(w, t);
    hide *;
    var afterZero := CountText(w.width) + TextFromPrecision(w, rest);
    var afterHash := ZeroText(w) + afterZero;
    SignPart(s, cur, w, t, HashText(w) + afterHash);
    if SignAllowed(w, t) {
      var c1 := AfterSign(cur, w);
      HashPart(s, c1, w, t, afterHash);
      if w.alt ==> NumericType(t) {
        var c2 := AfterHash(c1, w);
        ZeroPart(s, c2, w, t, afterZero);
        if w.zero ==> NumericType(t) {
          PartsAfterFlags(s, AfterZero(c2, w), w, t, rest);
        }
      }
    }
  }

  lemma FlagFacts(cur: Cursor, w: Written, rest: string)
    requires GoodShape(w) && Rank(cur.state) < 2
    requires cur.specs.widthRef == NoRef && cur.specs.precisionRef == NoRef
    ensures GoodCount(w.width) && GoodCount(w.precision)
    ensures TextFromSign(w, rest)
            == SignText(w) + (HashText(w) + (ZeroText(w) + (CountText(w.width) + TextFromPrecision(w, rest))))
    ensures var c1 := AfterSign(cur, w); var c2 := AfterHash(c1, w); var c3 := AfterZero(c2, w);
            && Rank(c1.state) < 3 && Rank(c2.state) < 4 && Rank(c3.state) < 5
            && c3.specs.widthRef == NoRef && c3.specs.precisionRef == NoRef && c3.next == cur.next
            && (Resolvable(w, cur.next) ==>
                  AfterAll(cur, w) == AfterLetter(AfterLocale(AfterWidthAndPrecision(c3, w), w), w))
  {
    hide GoodCount, CountText, ResolveCount;
  }

  // ----- Fill and alignment -----

  /** Text without alignment characters: every part but the first. */
  predicate Plain(x: string) {
    forall i :: 0 <= i < |x| ==> x[i] != '<' && x[i] != '>' && x[i] != '^'
  }

  lemma PlainParts(w: Written)
    requires GoodShape(w)
    ensures Plain(TextFromSign(w, ""))
  {
    PlainFlags(w);
    hide CountText, GoodCount, GoodShape, Plain, SignText, HashText, ZeroText, LocaleText, LetterText, PrecisionText;
    PlainSum(LetterText(w), "");
    PlainSum(LocaleText(w), LetterText(w) + "");
    PlainSum(PrecisionText(w), LocaleText(w) + (LetterText(w) + ""));
    PlainSum(CountText(w.width), TextFromPrecision(w, ""));
    PlainSum(ZeroText(w), CountText(w.width) + TextFromPrecision(w, ""));
    PlainSum(HashText(w), ZeroText(w) + (CountText(w.width) + TextFromPrecision(w, "")));
    PlainSum(SignText(w), HashText(w) + (ZeroText(w) + (CountText(w.width) + TextFromPrecision(w, ""))));
  }

  lemma PlainSum(x: string, y: string)
    ensures Plain(x) && Plain(y) ==> Plain(x + y)
  {}

  lemma PlainFlags(w: Written)
    requires GoodShape(w)
    ensures GoodCount(w.width) && GoodCount(w.precision) && Plain("")
    ensures Plain(SignText(w)) && Plain(HashText(w)) && Plain(ZeroText(w)) && Plain(LocaleText(w)) && Plain(LetterText(w))
    ensures Plain(CountText(w.width)) && Plain(PrecisionText(w))
  {
    PlainCount(w.width);
    PlainCount(w.precision);
    PlainLetter(w);
    hide CountText, GoodCount, LetterText;
  }

  lemma PlainLetter(w: Written)
    ensures Plain(LetterText(w))
  {
    if w.presentation != NoPresentation {
      var c := Letter(w.presentation, w.upper);
      assert c != '<' && c != '>' && c != '^';
      hide Letter;
    }
  }

  lemma PlainCount(c: Count)
    requires GoodCount(c)
    ensures Plain(CountText(c))
  {
    CountTextIs(c);
    hide *;
    match c
    case Absent => PlainNothing();
    case Number(n) => PlainDigits(Decimal(n));
    case Argument(id) => PlainId(id);
  }

  lemma PlainNothing()
    ensures Plain("") && Plain("{") && Plain("}")
  {}

  lemma PlainDigits(d: string)
    requires AllDigits(d)
    ensures Plain(d)
  {}

  lemma PlainId(id: ArgId)
    requires GoodId(id)
    ensures (id.Index? ==> id.index >= 0) && Plain("{" + IdText(id) + "}")
  {
    hide *;
    IdTextIs(id);
    PlainNothing();
    match id {
      case Auto =>
      case Index(k) => PlainDigits(Decimal(k));
      case Name(n) => PlainName(n);
    }
    PlainSum("{", IdText(id));
    PlainSum("{" + IdText(id), "}");
  }

  lemma PlainName(n: string)
    requires IsName(n)
    ensures Plain(n)
  {}

  lemma RestLast(w: Written, rest: string)
    requires GoodCount(w.width) && GoodCount(w.precision)
    ensures TextFromSign(w, rest) == TextFromSign(w, "") + rest
  {
    hide CountText, GoodCount, SignText, HashText, ZeroText, PrecisionText, LocaleText, LetterText;
  }

  function AfterAlign(cur: Cursor, w: Written): Cursor {
    if w.align == NoAlign then cur
    else
      var specs := cur.specs.(align := w.align);
      Enter(cur, AlignState, cur.pos + |AlignText(w)|,
            if w.fill.Some? then specs.(fill := w.fill.value) else specs, cur.next)
  }

  function First(begin: nat, next: int): Cursor {
    Cursor(begin, Start, [], DefaultSpecs(), next)
  }

  /** The packed table of lengths is that of the lead bytes of UTF-8. */
  lemma LeadLengths(c: char)
    ensures CodePointLength(c) == LeadLength(c)
  {
    var k := c as int / 8;
    if k < 24 {
      LowEntry(k);
    } else if k < 32 {
      HighEntry(k);
    }
    hide Pow;
  }

  lemma LowEntry(k: nat)
    requires k < 24
    ensures (0x3a55_0000_0000_0000 / Pow(2, 2 * k)) % 4 == 0
  {
    PowAdd(2, 2 * k, 46 - 2 * k);
    PowAdd(2, 46, 2);
    TwoTo48();
    assert Pow(2, 2) == 4;
    hide Pow;
    ShiftedOut(Pow(2, 2 * k), Pow(2, 46 - 2 * k));
  }

  lemma HighEntry(k: nat)
    requires 24 <= k < 32
    ensures (0x3a55_0000_0000_0000 / Pow(2, 2 * k)) % 4 == if k < 28 then 1 else if k < 30 then 2 else if k < 31 then 3 else 0
  {
    hide *;
    var j := k - 24;
    PowAdd(2, 48, 2 * j);
    assert 48 + 2 * j == 2 * k;
    TwoTo48();
    SmallEntry(j);
    ShiftedDown(Pow(2, 2 * j), Pow(2, 2 * k));
  }

  lemma SmallEntry(j: nat)
    requires j < 8
    ensures Pow(2, 2 * j) > 0
    ensures (0x3a55 / Pow(2, 2 * j)) % 4 == if j < 4 then 1 else if j < 6 then 2 else if j < 7 then 3 else 0
  {
    FewPowers();
    hide Pow;
  }

  lemma FewPowers()
    ensures Pow(2, 0) == 1 && Pow(2, 2) == 4 && Pow(2, 4) == 16 && Pow(2, 6) == 64
    ensures Pow(2, 8) == 256 && Pow(2, 10) == 1024 && Pow(2, 12) == 4096 && Pow(2, 14) == 16384
  {
    assert Pow(2, 6) == 64;
    assert Pow(2, 12) == 4096;
  }

  lemma ShiftedDown(q: nat, r: nat)
    requires q > 0 && r == 0x1_0000_0000_0000 * q
    ensures r > 0 && 0x3a55_0000_0000_0000 / r == 0x3a55 / q
  {
    var p := 0x1_0000_0000_0000;
    var d, m := 0x3a55 / q, 0x3a55 % q;
    assert 0x3a55 == q * d + m;
    assert 0x3a55_0000_0000_0000 == (p * q) * d + p * m;
    MulLe(p, m, q - 1);
    DivModUnique(0x3a55_0000_0000_0000, p * q, d, p * m);
  }

  lemma ShiftedOut(p: nat, q: nat)
    requires p > 0 && (p * q) * 4 == 0x1_0000_0000_0000
    ensures (0x3a55_0000_0000_0000 / p) % 4 == 0
  {
    assert 0x3a55_0000_0000_0000 == 0x3a55 * ((p * q) * 4);
    assert 0x3a55 * ((p * q) * 4) == p * (4 * (0x3a55 * q));
    DivModUnique(0x3a55_0000_0000_0000, p, 4 * (0x3a55 * q), 0);
    MultipleMod(4, 0x3a55 * q);
  }

  lemma TwoTo48()
    ensures Pow(2, 48) == 0x1_0000_0000_0000
  {
    assert Pow(2, 12) == 4096;
    hide Pow;
    PowAdd(2, 12, 12);
    assert Pow(2, 24) == 0x100_0000;
    PowAdd(2, 24, 24);
  }

  /** The switch takes a fill character to be one, seen through the look-ahead or not special at all. */
  lemma StepsToFill(s: string, c: char, cur: Cursor, t: ArgType)
    requires cur.pos < |s| && (c == '\0' || (c == ToAscii(s[cur.pos]) && 0xc0 <= c as int))
    ensures Step(s, c, cur, t) == FillStep(s, cur)
  {
    hide WidthStep, FillStep, CodePointLength, PrecisionStep, ZeroStep, PresentationStep, EnterIf;
    assert Presented(c).None?;
    hide Presented;
  }

  lemma FillPart(s: string, begin: nat, next: int, w: Written, t: ArgType, r: string)
    requires GoodShape(w) && w.fill.Some? && Holds(s, begin, AlignText(w) + r)
    ensures var after := AfterAlign(First(begin, next), w);
            Holds(s, after.pos, r) && FormatSpecsAt(s, begin, next, t) == Continue(s, after, t)
  {
    var f, cur := w.fill.value, First(begin, next);
    var end := begin + |f|;
    LeadLengths(f[0]);
    assert f != [] && |f| == CodePointLength(f[0]) && f[0] != '{' && f[0] != '}';
    assert ParseAlign(ToAscii(AlignChar(w.align))) == w.align != NoAlign && AlignText(w) == f + [AlignChar(w.align)];
    assert |f| > 1 ==> 0xc0 <= f[0] as int <= 0xff;
    hide CodePointLength, LeadLength, GoodShape;
    Advance(s, begin, AlignText(w), r);
    assert s[begin] == f[0] && s[end] == s[begin..end + 1][|f|] == AlignChar(w.align);
    assert s[begin..end] == s[begin..end + 1][..|f|] == f;
    assert |f| == 1 ==> FirstChar(s, begin) == '\0';
    hide Step;
    StepsToFill(s, FirstChar(s, begin), cur, t);
    assert FillStep(s, cur) == More(AfterAlign(cur, w));
    hide FillStep;
  }

  lemma AlignOnlyPart(s: string, begin: nat, next: int, w: Written, t: ArgType, r: string)
    requires GoodShape(w) && w.fill.None? && w.align != NoAlign && Holds(s, begin, AlignText(w) + r)
    requires r != "" ==> Plain(r[..1])
    ensures var after := AfterAlign(First(begin, next), w);
            Holds(s, after.pos, r) && FormatSpecsAt(s, begin, next, t) == Continue(s, after, t)
  {
    var cur, c := First(begin, next), AlignChar(w.align);
    Advance(s, begin, AlignText(w), r);
    assert s[begin] == c && ToAscii(c) == c && ParseAlign(c) == w.align;
    if begin + 1 < |s| {
      assert s[begin + 1] == s[begin + 1..][0] == r[..1][0];
    }
    assert FirstChar(s, begin) == c;
    StepsToAlign(s, c, cur, t);
    hide Step, GoodShape;
    assert Step(s, c, cur, t) == More(AfterAlign(cur, w));
  }

  lemma StepsToAlign(s: string, c: char, cur: Cursor, t: ArgType)
    requires cur.pos < |s| && (c == '<' || c == '>' || c == '^') && c == ToAscii(s[cur.pos])
    ensures Step(s, c, cur, t) == EnterIf(true, cur, AlignState, cur.specs.(align := ParseAlign(c)))
  {
    hide Presented, WidthStep, FillStep, CodePointLength, PrecisionStep, ZeroStep, PresentationStep, EnterIf;
  }

  /** Without fill and alignment the look-ahead changes nothing. */
  lemma NoAlignPart(s: string, begin: nat, next: int, t: ArgType, p: string, rest: string)
    requires Plain(p) && FieldEnd(rest) && Holds(s, begin, p + rest)
    ensures FormatSpecsAt(s, begin, next, t) == Continue(s, First(begin, next), t)
  {
    var cur := First(begin, next);
    if begin < |s| && FirstChar(s, begin) != ToAscii(s[begin]) {
      assert s[begin + 1] == s[begin..][1] && s[begin] == s[begin..][0];
      assert p == "" && s[begin] == '}';
      StepsToEnd(s, cur, t);
      StepsToFill(s, '\0', cur, t);
      hide Step;
    }
  }

  // ----- The theorem -----

  lemma ReadsBack(s: string, begin: nat, next: int, w: Written, t: ArgType, rest: string)
    requires GoodShape(w) && FieldEnd(rest) && Holds(s, begin, Render(w) + rest) && Decided(w, t)
    ensures FormatSpecsAt(s, begin, next, t)
            == if Allowed(w, t) && Resolvable(w, next) then Some(AfterAll(AfterAlign(First(begin, next), w), w)) else None
  {
    hide *;
    RenderFacts(w, rest);
    AlignKeeps(begin, next, w);
    var p, cur := TextFromSign(w, ""), First(begin, next);
    if w.fill.Some? {
      FillPart(s, begin, next, w, t, TextFromSign(w, rest));
    } else if w.align != NoAlign {
      AlignOnlyPart(s, begin, next, w, t, TextFromSign(w, rest));
    } else {
      NoAlignPart(s, begin, next, t, p, rest);
    }
    PartsFromSign(s, AfterAlign(cur, w), w, t, rest);
  }

  lemma RenderFacts(w: Written, rest: string)
    requires GoodShape(w) && FieldEnd(rest)
    ensures GoodCount(w.width) && GoodCount(w.precision) && Plain(TextFromSign(w, ""))
    ensures var r := TextFromSign(w, rest);
            && r == TextFromSign(w, "") + rest && (r != "" ==> Plain(r[..1]))
            && Render(w) + rest == AlignText(w) + r
            && (w.fill.None? && w.align == NoAlign ==> Render(w) + rest == r)
  {
    GoodCounts(w);
    hide *;
    RestLast(w, rest);
    PlainParts(w);
    RenderIs(w);
    JoinTexts(Render(w), AlignText(w), TextFromSign(w, ""), rest, TextFromSign(w, rest));
  }

  lemma GoodCounts(w: Written)
    requires GoodShape(w)
    ensures GoodCount(w.width) && GoodCount(w.precision)
  {
    hide GoodCount;
  }

  lemma RenderIs(w: Written)
    requires GoodCount(w.width) && GoodCount(w.precision)
    ensures Render(w) == AlignText(w) + TextFromSign(w, "")
    ensures w.fill.None? && w.align == NoAlign ==> AlignText(w) == ""
  {
    hide TextFromSign, GoodCount;
  }

  lemma JoinTexts(render: string, a: string, p: string, rest: string, r: string)
    requires render == a + p && r == p + rest && Plain(p) && FieldEnd(rest)
    ensures render + rest == a + r && (a == "" ==> render + rest == r) && (r != "" ==> Plain(r[..1]))
  {}

  lemma AlignKeeps(begin: nat, next: int, w: Written)
    requires GoodShape(w)
    ensures w.fill.Some? ==> w.align != NoAlign
    ensures var cur := First(begin, next); var c := AfterAlign(cur, w);
            && (w.align == NoAlign ==> c == cur && c.pos == begin)
            && Rank(c.state) < 2 && c.next == next && c.specs.widthRef == NoRef && c.specs.precisionRef == NoRef
  {}

  /**
   * The parser gives back what was written: every part of the record, the end of the text,
   * and the counter after the automatic ids of width and precision. '0' without an
   * alignment means numeric alignment with zeros; with one it is ignored. If the type of the
   * argument does not allow some part, or the counter an argument id, the specifier is rejected.
   */
  lemma RoundTrip(prefix: string, w: Written, rest: string, next: int, t: ArgType)
    requires GoodShape(w) && FieldEnd(rest) && Decided(w, t)
    ensures var r := FormatSpecsAt(prefix + Render(w) + rest, |prefix|, next, t);
            && (r.Some? <==> Allowed(w, t) && Resolvable(w, next))
            && (r.Some? ==>
                  var width := ResolveCount(w.width, next).value;
                  var precision := ResolveCount(w.precision, width.1).value;
                  && r.value.pos == |prefix| + |Render(w)|
                  && r.value.specs == Expected(w, width.0, precision.0)
                  && r.value.next == precision.1)
  {
    GoodCounts(w);
    hide *;
    var s := prefix + Render(w) + rest;
    HoldsBehind(prefix, Render(w), rest);
    FirstIs(|prefix|, next);
    ReadsBack(s, |prefix|, next, w, t, rest);
    if Resolvable(w, next) {
      ResolvableIs(w, next);
      Summary(First(|prefix|, next), w);
    }
  }

  lemma ResolvableIs(w: Written, next: int)
    requires Resolvable(w, next)
    ensures ResolveCount(w.width, next).Some? && ResolveCount(w.precision, ResolveCount(w.width, next).value.1).Some?
  {}

  lemma HoldsBehind(prefix: string, text: string, rest: string)
    ensures Holds(prefix + text + rest, |prefix|, text + rest)
  {
    assert (prefix + text + rest)[|prefix|..] == text + rest;
  }

  lemma FirstIs(begin: nat, next: int)
    ensures var c := First(begin, next); c.pos == begin && c.next == next && c == First(c.pos, c.next)
  {}

  lemma Summary(cur: Cursor, w: Written)
    requires GoodShape(w) && Resolvable(w, cur.next) && cur == First(cur.pos, cur.next)
    ensures var last := AfterAll(AfterAlign(cur, w), w);
            var width := ResolveCount(w.width, cur.next).value;
            var precision := ResolveCount(w.precision, width.1).value;
            && last.pos == cur.pos + |Render(w)| && last.next == precision.1
            && last.specs == Expected(w, width.0, precision.0)
  {
    var c1 := AfterAlign(cur, w);
    var c3 := AfterFlags(c1, w);
    FlagSummary(cur, w);
    CountFacts(c3, w);
    TailSummary(c3, w);
    hide AfterAlign, AfterFlags, AfterWidthAndPrecision, AfterLocale, AfterLetter, GoodCount, CountText, ResolveRef,
      SignText, HashText, ZeroText, LocaleText, LetterText, PrecisionText, AlignText;
  }

  lemma FlagSummary(cur: Cursor, w: Written)
    requires cur == First(cur.pos, cur.next) && (w.fill.Some? ==> w.align != NoAlign)
    ensures var c := AfterFlags(AfterAlign(cur, w), w);
            && c.pos == cur.pos + |AlignText(w)| + |SignText(w)| + |HashText(w)| + |ZeroText(w)|
            && c.next == cur.next && Rank(c.state) < 5
            && c.specs == DefaultSpecs().(
              align := if w.align != NoAlign then w.align else if w.zero then Numeric else NoAlign,
              fill := if w.fill.Some? then w.fill.value else if w.zero && w.align == NoAlign then "0" else " ",
              sign := w.sign, alt := w.alt)
  {}

  lemma TailSummary(c: Cursor, w: Written)
    requires GoodShape(w) && Resolvable(w, c.next)
    requires c.specs.widthRef == NoRef && c.specs.precisionRef == NoRef && !c.specs.upper && !c.specs.localized
    requires c.specs.width == 0 && c.specs.precision == -1 && c.specs.presentation == NoPresentation
    ensures GoodCount(w.width) && GoodCount(w.precision)
    ensures var last := AfterLetter(AfterLocale(AfterWidthAndPrecision(c, w), w), w);
            var width := ResolveCount(w.width, c.next).value;
            var precision := ResolveCount(w.precision, width.1).value;
            && last.pos == c.pos + |CountText(w.width)| + |PrecisionText(w)| + |LocaleText(w)| + |LetterText(w)|
            && last.next == precision.1
            && last.specs == c.specs.(
              width := if w.width.Number? then w.width.n else 0, widthRef := width.0,
              precision := if w.precision.Number? then w.precision.n else -1, precisionRef := precision.0,
              localized := w.localized, upper := w.upper, presentation := w.presentation)
  {
    CountsSummary(c, w);
    assert w.upper ==> w.presentation != NoPresentation;
    LettersSummary(AfterWidthAndPrecision(c, w), w);
    hide *;
  }

  lemma CountsSummary(c: Cursor, w: Written)
    requires GoodShape(w) && Resolvable(w, c.next)
    requires c.specs.widthRef == NoRef && c.specs.precisionRef == NoRef && c.specs.width == 0 && c.specs.precision == -1
    ensures GoodCount(w.width) && GoodCount(w.precision)
    ensures var last := AfterWidthAndPrecision(c, w);
            var width := ResolveCount(w.width, c.next).value;
            var precision := ResolveCount(w.precision, width.1).value;
            && last.pos == c.pos + |CountText(w.width)| + |PrecisionText(w)| && last.next == precision.1
            && last.specs == c.specs.(
              width := if w.width.Number? then w.width.n else 0, widthRef := width.0,
              precision := if w.precision.Number? then w.precision.n else -1, precisionRef := precision.0)
  {
    assert CountText(Absent) == "";
    hide GoodCount, CountText, ResolveRef;
  }

  lemma LettersSummary(c: Cursor, w: Written)
    requires !c.specs.upper && !c.specs.localized && c.specs.presentation == NoPresentation
    requires w.upper ==> w.presentation != NoPresentation
    ensures var last := AfterLetter(AfterLocale(c, w), w);
            && last.pos == c.pos + |LocaleText(w)| + |LetterText(w)| && last.next == c.next
            && last.specs == c.specs.(
              localized := w.localized, upper := w.upper, presentation := w.presentation)
  {}

  // ----- Other letters -----

  /** A specifier of nothing but a letter. */
  function OnlyLetter(p: Presentation, upper: bool): Written {
    Written(None, NoAlign, NoSign, false, false, Absent, Absent, false, p, upper)
  }

  /** The letter stands for a presentation type that the type of the argument allows. */
  ghost predicate IsLetterFor(c: char, t: ArgType) {
    exists p, upper ::
      p != NoPresentation && (upper ==> HasUpper(p)) && Letter(p, upper) == c && LetterAllowed(OnlyLetter(p, upper), t)
  }

  /** A letter by itself is accepted exactly if it stands for a presentation type that the type allows. */
  lemma OneLetter(prefix: string, c: char, next: int, t: ArgType)
    requires (IsLetter(c) || c == '?') && c != 'L' && t != NoneType
    ensures FormatSpecsAt(prefix + [c] + "}", |prefix|, next, t).Some? <==> IsLetterFor(c, t)
  {
    Letters(c);
    hide IsLetter;
    if Presented(c).Some? {
      var p := Presented(c).value;
      LetterBack(c);
      var w := OnlyLetter(p.0, p.2);
      OnlyLetterIs(p.0, p.2, next, t);
      hide *;
      RoundTrip(prefix, w, "}", next, t);
      LettersDiffer(c, p.0, p.2, t);
    } else {
      NoLetter(prefix, c, next, t);
      forall p, upper | p != NoPresentation && (upper ==> HasUpper(p)) ensures Letter(p, upper) != c {
        LetterMeans(OnlyLetter(p, upper), t);
      }
      hide Presented, FormatSpecsAt, Letter, HasUpper;
    }
  }

  lemma LetterBack(c: char)
    requires Presented(c).Some?
    ensures var p := Presented(c).value;
            p.0 != NoPresentation && (p.2 ==> HasUpper(p.0)) && Letter(p.0, p.2) == c
  {}

  lemma OnlyLetterIs(p: Presentation, upper: bool, next: int, t: ArgType)
    requires p != NoPresentation && (upper ==> HasUpper(p))
    ensures var w := OnlyLetter(p, upper);
            && GoodShape(w) && Resolvable(w, next) && FieldEnd("}") && (Allowed(w, t) <==> LetterAllowed(w, t))
            && w.presentation == p && w.upper == upper && Render(w) == [Letter(p, upper)]
  {
    hide Letter, LetterAllowed, HasUpper;
  }

  lemma LettersDiffer(c: char, p: Presentation, upper: bool, t: ArgType)
    requires p != NoPresentation && (upper ==> HasUpper(p)) && Letter(p, upper) == c
    ensures IsLetterFor(c, t) <==> LetterAllowed(OnlyLetter(p, upper), t)
  {
    LetterMeans(OnlyLetter(p, upper), t);
    forall q, up | q != NoPresentation && (up ==> HasUpper(q)) && Letter(q, up) == c ensures q == p && up == upper {
      LetterMeans(OnlyLetter(q, up), t);
    }
    hide Letter, LetterAllowed, HasUpper, Presented;
  }

  lemma NoLetter(prefix: string, c: char, next: int, t: ArgType)
    requires ('a' <= c <= 'z' || 'A' <= c <= 'Z' || c == '?') && c != 'L' && Presented(c).None?
    ensures FormatSpecsAt(prefix + [c] + "}", |prefix|, next, t) == None
  {
    var s, cur := prefix + [c] + "}", First(|prefix|, next);
    LeadLengths(c);
    hide CodePointLength, Presented;
    assert FirstChar(s, |prefix|) == c;
    StepsToOther(s, c, cur, t);
    assert FillStep(s, cur) == Failed;
  }

  lemma StepsToOther(s: string, c: char, cur: Cursor, t: ArgType)
    requires cur.pos < |s| && c == ToAscii(s[cur.pos]) && c != 'L'
    requires ('a' <= c <= 'z' || 'A' <= c <= 'Z' || c == '?') && Presented(c).None?
    ensures Step(s, c, cur, t) == FillStep(s, cur)
  {
    hide Presented, WidthStep, FillStep, CodePointLength, PrecisionStep, ZeroStep, PresentationStep, EnterIf;
  }

  // ----- Other errors -----

  /** A width above INT_MAX is an error. */
  lemma WidthTooBig(prefix: string, digits: string, rest: string, next: int, t: ArgType)
    requires digits != "" && AllDigits(digits) && digits[0] != '0' && DigitsVal(digits) > 0x7fff_ffff
    requires NoDigitFirst(rest) && (rest == "" || Plain(rest[..1]))
    ensures FormatSpecsAt(prefix + digits + rest, |prefix|, next, t) == None
  {
    hide *;
    var s, cur := prefix + digits + rest, First(|prefix|, next);
    HoldsBehind(prefix, digits, rest);
    FirstIs(|prefix|, next);
    Advance(s, |prefix|, digits, rest);
    NumberAt(s, |prefix|, digits, rest);
    IntNeverWraps(digits, -1);
    DigitsStart(s, |prefix|, digits, rest, next, t);
    TooBig(s, |prefix|, digits, cur.specs.width, cur.specs.widthRef, next);
    NoWidthStep(s, cur);
    StepsToWidth(s, cur, t);
    Stops(s, cur, t);
  }

  lemma TooBig(s: string, pos: nat, digits: string, value: int, ref: ArgRef, next: int)
    requires pos < |s| && IsDigit(s[pos]) && DigitsEnd(s, pos) == pos + |digits| && s[pos..pos + |digits|] == digits
    requires NonnegativeInt(digits, -1) == -1
    ensures DynamicAt(s, pos, value, ref, next) == None
  {
    hide DigitsEnd, NonnegativeInt;
  }

  lemma DigitsStart(s: string, begin: nat, digits: string, rest: string, next: int, t: ArgType)
    requires Holds(s, begin, digits + rest) && digits != "" && AllDigits(digits) && (rest == "" || Plain(rest[..1]))
    ensures begin < |s| && IsDigit(s[begin]) && s[begin] == digits[0]
    ensures FormatSpecsAt(s, begin, next, t) == Continue(s, First(begin, next), t)
  {
    assert s[begin] == s[begin..][0];
    if begin + 1 < |s| {
      assert s[begin + 1] == s[begin..][1];
      assert rest != "" ==> rest[0] == rest[..1][0];
    }
    assert FirstChar(s, begin) == s[begin];
    hide Step;
  }

  /** A point needs a precision behind it. */
  lemma PointAlone(prefix: string, rest: string, next: int, t: ArgType)
    requires FieldEnd(rest) && t != NoneType
    ensures FormatSpecsAt(prefix + "." + rest, |prefix|, next, t) == None
  {
    var s, cur := prefix + "." + rest, First(|prefix|, next);
    assert s[|prefix|] == '.' && (rest != "" ==> s[|prefix| + 1] == '}');
    StepsToPrecision(s, cur, t);
    assert PrecisionStep(s, cur, t) == Failed;
    assert FirstChar(s, |prefix|) == '.';
    hide Step, PrecisionStep;
  }

  /** An opening brace is no fill character. */
  lemma BraceFill(prefix: string, a: Align, rest: string, next: int, t: ArgType)
    requires a == Left || a == Right || a == Center
    ensures FormatSpecsAt(prefix + ("{" + [AlignChar(a)]) + rest, |prefix|, next, t) == None
  {
    var s, cur := prefix + ("{" + [AlignChar(a)]) + rest, First(|prefix|, next);
    assert s[|prefix|] == '{' && s[|prefix| + 1] == AlignChar(a);
    assert FirstChar(s, |prefix|) == '\0';
    StepsToFill(s, '\0', cur, t);
    hide CodePointLength;
    assert FillStep(s, cur) == Failed;
    hide Step, FillStep;
  }
}
