/** Compiling a format string to a tree, and why formatting the tree equals interpreting the string. */
module CompileFormat {
  import opened Options
  import opened ArgIds
  import opened FormatSpecs
  import opened FormatStrings

  // ----- Formatting -----

  /** How one argument is written, with or without specifiers; None is an error. */
  type Writer = (Arg, Option<Specs>) -> Option<string>

  /** get_dynamic_spec: a width or precision taken from an integer argument that fits an int. */
  function IntegerOf(arg: Arg): Option<int> {
    if (arg.typ == SignedType || arg.typ == UnsignedType) && 0 <= arg.number <= 0x7fff_ffff then Some(arg.number) else None
  }

  /** handle_dynamic_spec. */
  function DynamicValue(ref: ArgRef, value: int, args: seq<Arg>): Option<int> {
    match ref
    case NoRef => Some(value)
    case IndexRef(k) => if 0 <= k < |args| then IntegerOf(args[k]) else None
    case NameRef(n) => if FindName(args, n).Some? then IntegerOf(args[FindName(args, n).value]) else None
  }

  function WithDynamics(specs: Specs, args: seq<Arg>): Option<Specs> {
    var width := DynamicValue(specs.widthRef, specs.width, args);
    var precision := DynamicValue(specs.precisionRef, specs.precision, args);
    if width.None? || precision.None? then None
    else Some(specs.(width := width.value, precision := precision.value))
  }

  function WriteSpecs(id: nat, specs: Specs, args: seq<Arg>, write: Writer): Option<string>
    requires id < |args|
  {
    var resolved := WithDynamics(specs, args);
    if resolved.None? then None else write(args[id], resolved)
  }

  function Join(a: Option<string>, b: Option<string>): Option<string> {
    if a.None? || b.None? then None else Some(a.value + b.value)
  }

  /** What the interpreter writes for one event. */
  function EventText(e: Event, args: seq<Arg>, write: Writer): Option<string> {
    match e
    case TextEvent(t) => Some(t)
    case Field(id, specs) =>
      if id >= |args| then None
      else if specs.None? then write(args[id], None)
      else WriteSpecs(id, specs.value, args, write)
  }

  function EventsText(events: seq<Event>, args: seq<Arg>, write: Writer): Option<string> {
    if events == [] then Some("")
    else Join(EventText(events[0], args, write), EventsText(events[1..], args, write))
  }

  /** vformat: interpreting a format string. */
  function Interpret(s: string, args: seq<Arg>, write: Writer): Option<string> {
    var events := ParseFormatString(s, args);
    if events.None? then None else EventsText(events.value, args, write)
  }

  // ----- The text depends on the layout only -----

  function LayoutText(l: Layout, args: seq<Arg>, write: Writer): Option<string>
    requires |l.texts| == |l.fields| + 1
    decreases |l.fields|
  {
    if l.fields == [] then Some(l.texts[0])
    else
      Join(Some(l.texts[0]),
           Join(EventText(l.fields[0], args, write), LayoutText(Layout(l.texts[1..], l.fields[1..]), args, write)))
  }

  lemma JoinLaws(a: Option<string>, b: Option<string>, c: Option<string>)
    ensures Join(a, Join(b, c)) == Join(Join(a, b), c)
    ensures Join(Some(""), a) == a && Join(a, Some("")) == a
  {
    if a.Some? && b.Some? && c.Some? {
      assert a.value + (b.value + c.value) == (a.value + b.value) + c.value;
    }
    if a.Some? {
      assert "" + a.value == a.value && a.value + "" == a.value;
    }
  }

  lemma PrependText(text: string, l: Layout, args: seq<Arg>, write: Writer)
    requires |l.texts| == |l.fields| + 1
    ensures LayoutText(Prepend(text, l), args, write) == Join(Some(text), LayoutText(l, args, write))
  {
    if l.fields != [] {
      assert Prepend(text, l).texts[1..] == l.texts[1..];
      var rest := Join(EventText(l.fields[0], args, write), LayoutText(Layout(l.texts[1..], l.fields[1..]), args, write));
      JoinLaws(Some(text), Some(l.texts[0]), rest);
    }
  }

  lemma {:induction false} EventsTextIsLayoutText(events: seq<Event>, args: seq<Arg>, write: Writer)
    ensures EventsText(events, args, write) == LayoutText(Normalize(events), args, write)
  {
    if events != [] {
      EventsTextIsLayoutText(events[1..], args, write);
      var rest := Normalize(events[1..]);
      if events[0].TextEvent? {
        PrependText(events[0].text, rest, args, write);
      } else {
        var l := Normalize(events);
        assert l.texts[1..] == rest.texts && l.fields[1..] == rest.fields && l.fields[0] == events[0];
        JoinLaws(LayoutText(l, args, write), None, None);
        JoinLaws(Join(EventText(events[0], args, write), LayoutText(rest, args, write)), None, None);
      }
    }
  }

  lemma SameText(a: Option<seq<Event>>, b: Option<seq<Event>>, args: seq<Arg>, write: Writer)
    requires SameLayout(a, b) && a.Some?
    ensures b.Some? && EventsText(a.value, args, write) == EventsText(b.value, args, write)
  {
    EventsTextIsLayoutText(a.value, args, write);
    EventsTextIsLayoutText(b.value, args, write);
  }

  lemma PrefixText(e: Event, events: seq<Event>, args: seq<Arg>, write: Writer)
    ensures EventsText([e] + events, args, write) == Join(EventText(e, args, write), EventsText(events, args, write))
  {
    assert ([e] + events)[1..] == events;
  }

  // ----- Compilation -----

  datatype Node =
    | TextNode(text: string)
    | CodeUnit(unit: char)
    | FieldNode(index: nat)
    | NamedField(name: string)
    | SpecField(index: nat, specs: Specs)
    | Concat(lhs: Node, rhs: Node)

  /** A compilation may be rejected, give up and leave the string to the interpreter, or yield a tree. */
  datatype Compiled = Rejected | Unknown | Ok(node: Node)

  /** The first argument whose name is known statically to be the given one. */
  function StaticIndex(args: seq<Arg>, name: string, i: nat): (r: Option<nat>)
    requires i <= |args|
    ensures r.Some? ==> i <= r.value < |args| && args[r.value].isStatic && args[r.value].name == Some(name)
    ensures forall j :: i <= j < (if r.Some? then r.value else |args|) ==> !(args[j].isStatic && args[j].name == Some(name))
    decreases |args| - i
  {
    if i == |args| then None
    else if args[i].isStatic && args[i].name == Some(name) then Some(i)
    else StaticIndex(args, name, i + 1)
  }

  /** The end of a run of text. */
  function TextEnd(s: string, pos: nat): (end: nat)
    requires pos <= |s|
    ensures pos <= end <= |s| && forall i :: pos <= i < end ==> s[i] != '{' && s[i] != '}'
    decreases |s| - pos
  {
    if pos == |s| || s[pos] == '{' || s[pos] == '}' then pos else TextEnd(s, pos + 1)
  }

  /** check_char_specs: a character written as such takes no numeric options. */
  predicate CharSpecsOk(specs: Specs) {
    specs.presentation in {NoPresentation, Chr, Debug} ==> specs.align != Numeric && specs.sign == NoSign && !specs.alt
  }

  const MANUAL_INDEXING: int := -1

  /** parse_specs: the specs, the position after them and the next automatic id. */
  function ParseSpecsAt(s: string, pos: nat, next: int, t: ArgType): (r: Option<(Specs, nat, int)>)
    requires pos <= |s|
    ensures r.Some? ==> pos <= r.value.1 <= |s|
  {
    var parsed := if pos == |s| || s[pos] == '}' then Some(Cursor(pos, Start, [], DefaultSpecs(), next))
                  else FormatSpecsAt(s, pos, next, t);
    if parsed.None? || (pos < |s| && s[pos] != '}' && t == CharType && !CharSpecsOk(parsed.value.specs)) then None
    else if next == 0 then Some((parsed.value.specs, parsed.value.pos, MANUAL_INDEXING))
    else if parsed.value.next < 0 then None
    else Some((parsed.value.specs, parsed.value.pos, parsed.value.next))
  }

  /** compile_format_string: pos is the position, id the next automatic id or -1. */
  function CompileAt(s: string, pos: nat, id: int, args: seq<Arg>): Compiled
    requires pos < |s|
    decreases |s| - pos, 3
  {
    if s[pos] == '{' then
      if pos + 1 == |s| then Rejected
      else if s[pos + 1] == '{' then ParseTail(TextNode("{"), s, pos, pos + 2, id, args)
      else if s[pos + 1] == '}' || s[pos + 1] == ':' then
        if id < 0 || id >= |args| then Rejected else FieldThenTail(id, s, pos, pos + 1, id + 1, args)
      else CompileNumbered(s, pos, id, args)
    else if s[pos] == '}' then
      if pos + 1 == |s| then Rejected else ParseTail(TextNode("}"), s, pos, pos + 2, id, args)
    else
      var end := TextEnd(s, pos + 1);
      ParseTail(if end - pos > 1 then TextNode(s[pos..end]) else CodeUnit(s[pos]), s, pos, end, id, args)
  }

  /** A field with an explicit index or a name. */
  function CompileNumbered(s: string, pos: nat, id: int, args: seq<Arg>): Compiled
    requires pos + 1 < |s|
    decreases |s| - pos, 2
  {
    var arg := ArgIdAt(s, pos + 1);
    if arg.None? || arg.value.1 == |s| || (s[arg.value.1] != '}' && s[arg.value.1] != ':') then Rejected
    else
      var end := arg.value.1;
      match arg.value.0
      case Index(k) =>
        if (id != MANUAL_INDEXING && id != 0) || k < 0 || k >= |args| then Rejected
        else FieldThenTail(k, s, pos, end, MANUAL_INDEXING, args)
      case Name(n) =>
        var k := StaticIndex(args, n, 0);
        if k.Some? then FieldThenTail(k.value, s, pos, end, if id != MANUAL_INDEXING then id + 1 else id, args)
        else if s[end] == '}' then ParseTail(NamedField(n), s, pos, end + 1, id, args)
        else Unknown
      case Auto => Rejected
  }

  /** parse_replacement_field_then_tail; start is where the field begins. */
  function FieldThenTail(index: nat, s: string, start: nat, end: nat, next: int, args: seq<Arg>): Compiled
    requires start < end <= |s| && index < |args|
    decreases |s| - start, 1
  {
    if end == |s| then Rejected
    else if s[end] == '}' then ParseTail(FieldNode(index), s, start, end + 1, next, args)
    else if s[end] != ':' then Rejected
    else
      var specs := ParseSpecsAt(s, end + 1, if next == MANUAL_INDEXING then 0 else next, args[index].typ);
      if specs.None? || specs.value.1 >= |s| || s[specs.value.1] != '}' then Rejected
      else ParseTail(SpecField(index, specs.value.0), s, start, specs.value.1 + 1, specs.value.2, args)
  }

  function ParseTail(head: Node, s: string, start: nat, pos: nat, id: int, args: seq<Arg>): Compiled
    requires start < pos <= |s|
    decreases |s| - start, 0
  {
    if pos == |s| then Ok(head)
    else
      var tail := CompileAt(s, pos, id, args);
      if tail.Ok? then Ok(Concat(head, tail.node)) else tail
  }

  /** compile. */
  function Compile(s: string, args: seq<Arg>): Compiled {
    if s == "" then Ok(TextNode("")) else CompileAt(s, 0, 0, args)
  }

  /** The format methods of the nodes. */
  function FormatNode(node: Node, args: seq<Arg>, write: Writer): Option<string> {
    match node
    case TextNode(t) => Some(t)
    case CodeUnit(c) => Some([c])
    case FieldNode(k) => if k < |args| then write(args[k], None) else None
    case NamedField(n) => if FindName(args, n).Some? then write(args[FindName(args, n).value], None) else None
    case SpecField(k, specs) => if k < |args| then WriteSpecs(k, specs, args, write) else None
    case Concat(l, r) => Join(FormatNode(l, args, write), FormatNode(r, args, write))
  }

  // ----- Specifiers under manual indexing -----

  /** The same cursor, except for the counter; the first one is under manual indexing. */
  predicate SameManual(a: Cursor, b: Cursor) {
    a.next == MANUAL_INDEXING && b == a.(next := b.next)
  }

  lemma ManualDynamic(s: string, i: nat, value: int, ref: ArgRef, next: int)
    requires i < |s|
    ensures var a, b := DynamicAt(s, i, value, ref, -1), DynamicAt(s, i, value, ref, next);
            a.Some? && b.Some? ==> a.value.next == -1 && b.value == a.value.(next := b.value.next)
  {
    hide ArgIdAt, DigitsEnd, NonnegativeInt;
  }

  /** Two outcomes, unless one is an error, are of the same kind with the same cursor. */
  predicate SameOutcome(x: Outcome, y: Outcome) {
    && (x.More? && y.More? ==> SameManual(x.next, y.next))
    && (x.Done? && y.Done? ==> SameManual(x.last, y.last))
    && (x.More? ==> !y.Done?) && (x.Done? ==> !y.More?)
  }

  lemma ManualCounts(s: string, a: Cursor, b: Cursor, t: ArgType)
    requires a.pos < |s| && SameManual(a, b)
    ensures SameOutcome(WidthStep(s, a), WidthStep(s, b)) && SameOutcome(PrecisionStep(s, a, t), PrecisionStep(s, b, t))
  {
    hide *;
    ManualWidth(s, a, b);
    ManualPrecision(s, a, b, t);
  }

  lemma ManualWidth(s: string, a: Cursor, b: Cursor)
    requires a.pos < |s| && SameManual(a, b)
    ensures SameOutcome(WidthStep(s, a), WidthStep(s, b))
  {
    ManualDynamic(s, a.pos, a.specs.width, a.specs.widthRef, b.next);
    hide DynamicAt;
  }

  lemma ManualPrecision(s: string, a: Cursor, b: Cursor, t: ArgType)
    requires a.pos < |s| && SameManual(a, b)
    ensures SameOutcome(PrecisionStep(s, a, t), PrecisionStep(s, b, t))
  {
    if a.pos + 1 < |s| {
      ManualDynamic(s, a.pos + 1, a.specs.precision, a.specs.precisionRef, b.next);
    }
    hide DynamicAt;
  }

  lemma ManualOthers(s: string, a: Cursor, b: Cursor, t: ArgType)
    requires a.pos < |s| && SameManual(a, b)
    ensures SameOutcome(ZeroStep(a, t), ZeroStep(b, t)) && SameOutcome(FillStep(s, a), FillStep(s, b))
    ensures forall p :: SameOutcome(PresentationStep(a, p, t), PresentationStep(b, p, t))
  {
    hide CodePointLength, ToAscii, ParseAlign;
  }

  lemma ManualStep(s: string, c: char, a: Cursor, b: Cursor, t: ArgType)
    requires a.pos < |s| && (c == ToAscii(s[a.pos]) || c == '\0') && SameManual(a, b)
    ensures SameOutcome(Step(s, c, a, t), Step(s, c, b, t))
  {
    hide *;
    ManualCounts(s, a, b, t);
    ManualOthers(s, a, b, t);
    ManualEnterIf(a, b);
    StepCases(s, c, a, b, t);
  }

  /** Both steps take the same case of the switch. */
  lemma StepCases(s: string, c: char, a: Cursor, b: Cursor, t: ArgType)
    requires a.pos < |s| && (c == ToAscii(s[a.pos]) || c == '\0') && SameManual(a, b)
    requires SameOutcome(WidthStep(s, a), WidthStep(s, b)) && SameOutcome(PrecisionStep(s, a, t), PrecisionStep(s, b, t))
    requires SameOutcome(ZeroStep(a, t), ZeroStep(b, t)) && SameOutcome(FillStep(s, a), FillStep(s, b))
    requires forall p :: SameOutcome(PresentationStep(a, p, t), PresentationStep(b, p, t))
    requires SameOutcome(Done(a), Done(b))
    requires forall valid, st, specs :: SameOutcome(EnterIf(valid, a, st, specs), EnterIf(valid, b, st, specs))
    ensures SameOutcome(Step(s, c, a, t), Step(s, c, b, t))
  {
    assert a.specs == b.specs && a.pos == b.pos;
    hide WidthStep, PrecisionStep, ZeroStep, FillStep, PresentationStep, Presented, ToAscii, ParseAlign, IsArithmetic,
      AllowsSign, EnterIf, SameOutcome, SameManual, SignOf;
  }

  lemma ManualEnterIf(a: Cursor, b: Cursor)
    requires SameManual(a, b)
    ensures a.specs == b.specs && SameOutcome(Done(a), Done(b))
    ensures forall valid, st, specs :: SameOutcome(EnterIf(valid, a, st, specs), EnterIf(valid, b, st, specs))
  {}

  /** Specifiers read under manual indexing and under any other counter are the same, if both are accepted. */
  lemma {:induction false} ManualSpecs(s: string, c: char, a: Cursor, b: Cursor, t: ArgType)
    requires a.pos < |s| && (c == ToAscii(s[a.pos]) || c == '\0') && SameManual(a, b)
    ensures var x, y := Dispatch(s, c, a, t), Dispatch(s, c, b, t); x.Some? && y.Some? ==> SameManual(x.value, y.value)
    decreases |s| - a.pos
  {
    ManualStep(s, c, a, b, t);
    hide Step, ToAscii;
    var x, y := Step(s, c, a, t), Step(s, c, b, t);
    if x.More? && y.More? && x.next.pos < |s| {
      ManualSpecs(s, ToAscii(s[x.next.pos]), x.next, y.next, t);
    }
  }

  lemma ManualSpecsAt(s: string, begin: nat, next: int, t: ArgType)
    requires begin <= |s|
    ensures var a, b := FormatSpecsAt(s, begin, -1, t), FormatSpecsAt(s, begin, next, t);
            a.Some? && b.Some? ==> SameManual(a.value, b.value)
  {
    hide Dispatch, DefaultSpecs;
    if begin < |s| {
      ManualSpecs(s, FirstChar(s, begin), Cursor(begin, Start, [], DefaultSpecs(), -1),
                  Cursor(begin, Start, [], DefaultSpecs(), next), t);
    }
  }

  /** Where the compiler takes the short way, the parser would have accepted the empty specs as well. */
  lemma EmptySpecs(s: string, begin: nat, next: int, t: ArgType)
    requires begin < |s| && s[begin] == '}'
    ensures FormatSpecsAt(s, begin, next, t) == Some(Cursor(begin, Start, [], DefaultSpecs(), next))
  {
    hide WidthStep, PrecisionStep, ZeroStep, PresentationStep, EnterIf, DefaultSpecs;
    assert Presented('}').None? && Presented('\0').None?;
    hide Presented;
  }

  // ----- Compilation preserves meaning -----

  /**
   * The first argument with a name that is known statically is the first one with that name.
   * The compiler looks for the former, the interpreter for the latter.
   */
  predicate NamesAgree(args: seq<Arg>) {
    forall j :: 0 <= j < |args| && args[j].isStatic && args[j].name.Some? && IsName(args[j].name.value) ==>
      FirstIsStatic(args, args[j].name.value)
  }

  predicate FirstIsStatic(args: seq<Arg>, name: string) {
    var first := FindName(args, name);
    first.Some? ==> args[first.value].isStatic
  }

  /** The counter of the interpreter and that of the compiler: equal, unless the interpreter is under manual indexing. */
  predicate Counters(id: int, next: int) {
    next < 0 || id == next
  }

  /** From pos on, the tree formats to what the interpreter writes, if both accept the rest. */
  ghost predicate SameMeaning(s: string, pos: nat, id: int, next: int, args: seq<Arg>, write: Writer)
    requires pos < |s|
  {
    var c, events := CompileAt(s, pos, id, args), EventsFrom(s, pos, next, args);
    c.Ok? && events.Some? ==> FormatNode(c.node, args, write) == EventsText(events.value, args, write)
  }

  /** A head that formats like the events so far, and then the tail. */
  ghost predicate TailMeaning(s: string, pos: nat, id: int, next: int, args: seq<Arg>, write: Writer)
    requires pos <= |s|
  {
    pos < |s| ==> SameMeaning(s, pos, id, next, args, write)
  }

  lemma TailStep(head: Node, e: Event, s: string, start: nat, pos: nat, id: int, next: int, args: seq<Arg>, write: Writer)
    requires start < pos <= |s| && TailMeaning(s, pos, id, next, args, write)
    requires FormatNode(head, args, write) == EventText(e, args, write)
    ensures var c, events := ParseTail(head, s, start, pos, id, args), Prefix(e, EventsFrom(s, pos, next, args));
            c.Ok? && events.Some? ==> FormatNode(c.node, args, write) == EventsText(events.value, args, write)
  {
    hide CompileAt, EventText;
    var rest := EventsFrom(s, pos, next, args);
    if rest.Some? {
      PrefixText(e, rest.value, args, write);
      JoinLaws(EventText(e, args, write), None, None);
    }
  }

  lemma StaticIsFound(args: seq<Arg>, name: string)
    requires NamesAgree(args) && IsName(name)
    ensures var k := StaticIndex(args, name, 0); k.Some? ==> FindName(args, name) == k
  {
    var k, f := StaticIndex(args, name, 0), FindName(args, name);
    if k.Some? {
      assert args[k.value].name == Some(name);
      assert FirstIsStatic(args, name);
      assert f.Some? && args[f.value].name == Some(name) && args[f.value].isStatic;
    }
  }

  /** A field whose argument both sides agree on: what follows the id. */
  lemma FieldMeaning(index: nat, s: string, start: nat, end: nat, id: int, next: int, args: seq<Arg>, write: Writer)
    requires start < end < |s| && index < |args| && (s[end] == '}' || s[end] == ':')
    requires next == -1 || (next == id && next > 0)
    requires forall p, i, n :: end < p <= |s| && Counters(i, n) ==> TailMeaning(s, p, i, n, args, write)
    ensures var c := FieldThenTail(index, s, start, end, id, args);
            var f := if s[end] == '}' then Some(FieldResult(Field(index, None), next, end + 1))
                     else SpecFieldAt(s, end + 1, index, next, args);
            c.Ok? && f.Some? ==>
              var events := Prefix(f.value.event, EventsFrom(s, f.value.end, f.value.next, args));
              events.Some? ==> FormatNode(c.node, args, write) == EventsText(events.value, args, write)
  {
    hide ParseTail, EventsFrom, EventsText, FormatSpecsAt, TailMeaning, CharSpecsOk;
    if s[end] == '}' {
      assert TailMeaning(s, end + 1, id, next, args, write);
      TailStep(FieldNode(index), Field(index, None), s, start, end + 1, id, next, args, write);
    } else {
      var t, p := args[index].typ, end + 1;
      var f := SpecFieldAt(s, p, index, next, args);
      var n := if id == MANUAL_INDEXING then 0 else id;
      var specs := ParseSpecsAt(s, p, n, t);
      if f.Some? && specs.Some? {
        if s[p] == '}' {
          EmptySpecs(s, p, n, t);
        }
        if next == -1 {
          ManualSpecsAt(s, p, n, t);
        }
        var q := f.value.end;
        assert Counters(specs.value.2, f.value.next) && specs.value.1 + 1 == q;
        assert f.value.event == Field(index, Some(specs.value.0));
        assert TailMeaning(s, q, specs.value.2, f.value.next, args, write);
        TailStep(SpecField(index, specs.value.0), f.value.event, s, start, q, specs.value.2, f.value.next, args, write);
      }
    }
  }

  /** A field with an explicit index or a name. */
  lemma NumberedMeaning(s: string, pos: nat, id: int, next: int, args: seq<Arg>, write: Writer)
    requires pos + 1 < |s| && s[pos] == '{' && s[pos + 1] != '{' && s[pos + 1] != '}' && s[pos + 1] != ':'
    requires NamesAgree(args)
    requires forall p, i, n :: pos + 1 < p <= |s| && Counters(i, n) ==> TailMeaning(s, p, i, n, args, write)
    ensures var c, f := CompileNumbered(s, pos, id, args), FieldAt(s, pos, next, args);
            c.Ok? && f.Some? ==>
              var events := Prefix(f.value.event, EventsFrom(s, f.value.end, f.value.next, args));
              events.Some? ==> FormatNode(c.node, args, write) == EventsText(events.value, args, write)
  {
    hide FieldThenTail, ParseTail, EventsFrom, EventsText, FormatNode, SpecFieldAt, TailMeaning, EventText, NamesAgree,
      IsName, StaticIndex;
    var arg := ArgIdAt(s, pos + 1);
    if arg.Some? && arg.value.1 < |s| && (s[arg.value.1] == '}' || s[arg.value.1] == ':') {
      var end := arg.value.1;
      hide ArgIdAt;
      match arg.value.0
      case Auto =>
      case Index(k) =>
        if 0 <= k < |args| {
          FieldMeaning(k, s, pos, end, MANUAL_INDEXING, -1, args, write);
        }
      case Name(n) =>
        var k := StaticIndex(args, n, 0);
        StaticIsFound(args, n);
        if k.Some? {
          FieldMeaning(k.value, s, pos, end, if id != MANUAL_INDEXING then id + 1 else id, -1, args, write);
        } else if s[end] == '}' && FindName(args, n).Some? {
          var found := FindName(args, n).value;
          assert TailMeaning(s, end + 1, id, -1, args, write);
          NamedText(n, args, write);
          TailStep(NamedField(n), Field(found, None), s, pos, end + 1, id, -1, args, write);
        }
    }
  }

  lemma NamedText(name: string, args: seq<Arg>, write: Writer)
    requires FindName(args, name).Some?
    ensures FormatNode(NamedField(name), args, write) == EventText(Field(FindName(args, name).value, None), args, write)
  {}

  /** A run of text formats to the text and what comes after it. */
  lemma RunMeaning(s: string, pos: nat, end: nat, next: int, args: seq<Arg>, write: Writer)
    requires pos <= end <= |s| && forall i :: pos <= i < end ==> s[i] != '{' && s[i] != '}'
    ensures var whole, one := EventsFrom(s, pos, next, args), Prefix(TextEvent(s[pos..end]), EventsFrom(s, end, next, args));
            whole.Some? ==> one.Some? && EventsText(whole.value, args, write) == EventsText(one.value, args, write)
  {
    PlainRun(s, pos, end, next, args);
    hide EventsFrom, SameLayout, Prefix;
    var whole, one := EventsFrom(s, pos, next, args), Prefix(TextEvent(s[pos..end]), EventsFrom(s, end, next, args));
    Symmetric(one, whole);
    if whole.Some? {
      SameText(whole, one, args, write);
    }
  }

  lemma Symmetric(a: Option<seq<Event>>, b: Option<seq<Event>>)
    requires SameLayout(a, b)
    ensures SameLayout(b, a)
  {}

  lemma {:induction false} CompilePreserves(s: string, pos: nat, id: int, next: int, args: seq<Arg>, write: Writer)
    requires pos < |s| && NamesAgree(args) && Counters(id, next)
    ensures SameMeaning(s, pos, id, next, args, write)
    decreases |s| - pos
  {
    forall p, i, n | pos < p <= |s| && Counters(i, n) ensures TailMeaning(s, p, i, n, args, write) {
      if p < |s| {
        CompilePreserves(s, p, i, n, args, write);
      }
    }
    hide TailMeaning, EventsText, EventText, FormatNode, FieldThenTail, CompileNumbered, ParseTail, Counters;
    if s[pos] == '{' {
      OpeningMeaning(s, pos, id, next, args, write);
    } else if s[pos] == '}' {
      if pos + 1 < |s| {
        assert TailMeaning(s, pos + 2, id, next, args, write);
        TextMeaning(TextNode("}"), "}", args, write);
        TailStep(TextNode("}"), TextEvent("}"), s, pos, pos + 2, id, next, args, write);
      }
    } else {
      var end := TextEnd(s, pos + 1);
      var text := s[pos..end];
      assert TailMeaning(s, end, id, next, args, write);
      var head := if end - pos > 1 then TextNode(text) else CodeUnit(s[pos]);
      TextMeaning(head, text, args, write);
      TailStep(head, TextEvent(text), s, pos, end, id, next, args, write);
      RunMeaning(s, pos, end, next, args, write);
    }
  }

  lemma TextMeaning(head: Node, text: string, args: seq<Arg>, write: Writer)
    requires head == TextNode(text) || (|text| == 1 && head == CodeUnit(text[0]))
    ensures FormatNode(head, args, write) == EventText(TextEvent(text), args, write)
  {
    assert |text| == 1 ==> [text[0]] == text;
  }

  /** An opening brace: doubled, an automatic field, or another field. */
  lemma OpeningMeaning(s: string, pos: nat, id: int, next: int, args: seq<Arg>, write: Writer)
    requires pos < |s| && s[pos] == '{' && NamesAgree(args) && Counters(id, next)
    requires forall p, i, n :: pos < p <= |s| && Counters(i, n) ==> TailMeaning(s, p, i, n, args, write)
    ensures SameMeaning(s, pos, id, next, args, write)
  {
    hide TailMeaning, EventsText, EventText, FormatNode, FieldThenTail, CompileNumbered, ParseTail, SpecFieldAt;
    if pos + 1 == |s| {
    } else if s[pos + 1] == '{' {
      assert TailMeaning(s, pos + 2, id, next, args, write);
      TextMeaning(TextNode("{"), "{", args, write);
      TailStep(TextNode("{"), TextEvent("{"), s, pos, pos + 2, id, next, args, write);
    } else if s[pos + 1] == '}' || s[pos + 1] == ':' {
      if 0 <= id < |args| && next >= 0 {
        FieldMeaning(id, s, pos, pos + 1, id + 1, next + 1, args, write);
      }
    } else {
      hide FieldAt;
      NumberedMeaning(s, pos, id, next, args, write);
    }
  }

  /**
   * Compilation preserves meaning: for every string that both sides accept, formatting the
   * compiled tree yields what interpreting the string yields.
   */
  lemma CompiledEqualsInterpreted(s: string, args: seq<Arg>, write: Writer)
    requires NamesAgree(args) && Compile(s, args).Ok? && ParseFormatString(s, args).Some?
    ensures FormatNode(Compile(s, args).node, args, write) == Interpret(s, args, write)
  {
    SameReadings(s, args);
    SameText(ParseFormatString(s, args), EventsFrom(s, 0, 0, args), args, write);
    hide ParseFormatString, SameLayout;
    if s == "" {
      assert EventsFrom(s, 0, 0, args) == Some([]);
      assert EventsText([], args, write) == Some("");
      assert FormatNode(TextNode(""), args, write) == Some("");
    } else {
      CompilePreserves(s, 0, 0, 0, args, write);
      assert Compile(s, args) == CompileAt(s, 0, 0, args);
    }
  }

  /** A name in braces is read as that name. */
  lemma {:induction false} NameInBraces(n: string, i: nat)
    requires IsName(n) && 0 < i <= |n| + 1
    ensures NameEnd("{" + n + "}", i) == |n| + 1
    decreases |n| + 1 - i
  {
    var s := "{" + n + "}";
    if i <= |n| {
      assert s[i] == n[i - 1];
      NameInBraces(n, i + 1);
    } else {
      assert s[i] == '}';
    }
  }

  lemma NamedFieldAt(n: string)
    requires IsName(n)
    ensures ArgIdAt("{" + n + "}", 1) == Some((Name(n), |n| + 1))
  {
    var s := "{" + n + "}";
    assert s[1] == n[0] && s[1..|n| + 1] == n;
    NameInBraces(n, 2);
    hide NameEnd;
  }

  lemma NameCompiled(n: string, args: seq<Arg>)
    requires IsName(n) && StaticIndex(args, n, 0).Some?
    ensures Compile("{" + n + "}", args) == Ok(FieldNode(StaticIndex(args, n, 0).value))
  {
    var s, k := "{" + n + "}", StaticIndex(args, n, 0).value;
    NamedFieldAt(n);
    assert s[0] == '{' && s[1] == n[0] && s[|n| + 1] == '}' && |s| == |n| + 2;
    assert s[1] != '{' && s[1] != '}' && s[1] != ':';
    hide StaticIndex, IsName, NameEnd, ArgIdAt;
    assert CompileAt(s, 0, 0, args) == CompileNumbered(s, 0, 0, args);
    hide CompileAt;
    assert CompileNumbered(s, 0, 0, args) == FieldThenTail(k, s, 0, |n| + 1, 1, args);
    assert ParseTail(FieldNode(k), s, 0, |s|, 1, args) == Ok(FieldNode(k));
  }

  lemma NameInterpreted(n: string, args: seq<Arg>)
    requires IsName(n) && FindName(args, n).Some?
    ensures EventsFrom("{" + n + "}", 0, 0, args) == Some([Field(FindName(args, n).value, None)])
  {
    var s, first := "{" + n + "}", FindName(args, n).value;
    NamedFieldAt(n);
    assert s[0] == '{' && s[1] == n[0] && s[|n| + 1] == '}' && |s| == |n| + 2;
    hide IsName, FindName, NameEnd, ArgIdAt;
    assert FieldAt(s, 0, 0, args) == Some(FieldResult(Field(first, None), -1, |s|));
    hide FieldAt;
    assert EventsFrom(s, |s|, -1, args) == Some([]);
    assert [Field(first, None)] + [] == [Field(first, None)];
  }

  /** The field of a name alone: the compiler formats the first static argument of that name, the interpreter the first one. */
  lemma NameAlone(n: string, args: seq<Arg>, write: Writer)
    requires IsName(n) && StaticIndex(args, n, 0).Some? && FindName(args, n).Some?
    ensures var s := "{" + n + "}"; var k := StaticIndex(args, n, 0).value;
            && Compile(s, args) == Ok(FieldNode(k)) && ParseFormatString(s, args).Some?
            && FormatNode(FieldNode(k), args, write) == write(args[k], None)
            && Interpret(s, args, write) == write(args[FindName(args, n).value], None)
  {
    var s, first := "{" + n + "}", FindName(args, n).value;
    NameCompiled(n, args);
    NameInterpreted(n, args);
    SameReadings(s, args);
    hide Compile, StaticIndex, FindName, IsName, EventsFrom, ParseFormatString, SameLayout;
    Symmetric(ParseFormatString(s, args), EventsFrom(s, 0, 0, args));
    SameText(EventsFrom(s, 0, 0, args), ParseFormatString(s, args), args, write);
    var events := [Field(first, None)];
    assert events[1..] == [];
    assert EventsText(events, args, write) == Join(write(args[first], None), Some(""));
    JoinLaws(write(args[first], None), None, None);
  }

  /**
   * The condition on names is exact: where it fails there is a string that both sides accept
   * and whose text differs as soon as the writer tells the two arguments of one name apart.
   */
  lemma NamesMustAgree(args: seq<Arg>) returns (n: string, first: nat, k: nat)
    requires !NamesAgree(args)
    ensures first < k < |args| && args[first].name == args[k].name == Some(n) && !args[first].isStatic && args[k].isStatic
    ensures Compile("{" + n + "}", args).Ok? && ParseFormatString("{" + n + "}", args).Some?
    ensures forall write: Writer ::
              FormatNode(Compile("{" + n + "}", args).node, args, write) == Interpret("{" + n + "}", args, write)
              <==> write(args[first], None) == write(args[k], None)
  {
    var j :| 0 <= j < |args| && args[j].isStatic && args[j].name.Some? && IsName(args[j].name.value)
             && !FirstIsStatic(args, args[j].name.value);
    n := args[j].name.value;
    first, k := FindName(args, n).value, StaticIndex(args, n, 0).value;
    hide NamesAgree, FirstIsStatic, Compile, Interpret, ParseFormatString, FindName, StaticIndex, IsName;
    NameAlone(n, args, (a: Arg, specs: Option<Specs>) => None);
    forall write: Writer
      ensures FormatNode(Compile("{" + n + "}", args).node, args, write) == Interpret("{" + n + "}", args, write)
              <==> write(args[first], None) == write(args[k], None)
    {
      NameAlone(n, args, write);
    }
  }

  /** An argument named dynamically and then one of the same name named statically: the simplest such list. */
  lemma RepeatedName(t: ArgType, x: string, y: string)
    ensures var args := [Arg(t, Some("a"), false, 0, x), Arg(t, Some("a"), true, 0, y)];
            var write := (a: Arg, specs: Option<Specs>) => Some(a.value);
            && !NamesAgree(args) && Compile("{a}", args) == Ok(FieldNode(1))
            && FormatNode(FieldNode(1), args, write) == Some(y) && Interpret("{a}", args, write) == Some(x)
  {
    var args := [Arg(t, Some("a"), false, 0, x), Arg(t, Some("a"), true, 0, y)];
    assert FindName(args, "a") == Some(0) && StaticIndex(args, "a", 0) == Some(1);
    assert IsName("a") && args[1].name == Some("a");
    assert !FirstIsStatic(args, "a");
    NameAlone("a", args, (a: Arg, specs: Option<Specs>) => Some(a.value));
    assert "{" + "a" + "}" == "{a}";
  }

  /** Only the compiler accepts a single closing brace: it does not look at the next character. */
  lemma LoneClosingBrace(c: char, args: seq<Arg>)
    requires c != '}'
    ensures Compile(['}', c], args) == Ok(TextNode("}")) && ParseFormatString(['}', c], args).None?
  {
    var s := ['}', c];
    assert ParseTail(TextNode("}"), s, 0, 2, 0, args) == Ok(TextNode("}"));
    assert ShortFrom(s, 0, 0, 0, args) == None;
  }
}
