/** What a format string means, piece by piece, and why the interpreter writes just that. */
module FormatMeaning {
  import opened Options
  import opened Digits
  import opened ArgIds
  import opened FormatSpecs
  import opened FormatStrings
  import opened SpecsRoundTrip
  import opened CompileFormat

  /** A piece of a format string: text, or a field with or without specifiers. */
  datatype Item = Literal(text: string) | Replace(id: ArgId, spec: Option<SpecsRoundTrip.Written>)

  predicate GoodItem(x: Item) {
    x.Replace? ==> GoodId(x.id) && (x.spec.Some? ==> GoodShape(x.spec.value))
  }

  predicate GoodItems(items: seq<Item>) {
    forall i :: 0 <= i < |items| ==> GoodItem(items[i])
  }

  function SpecText(spec: Option<SpecsRoundTrip.Written>): string
    requires spec.Some? ==> GoodShape(spec.value)
  {
    if spec.None? then "" else ":" + Render(spec.value)
  }

  /** Braces in the text are doubled; a field is written in braces. */
  function ItemText(x: Item): string
    requires GoodItem(x)
  {
    match x
    case Literal(text) => Doubled(text)
    case Replace(id, spec) => "{" + IdText(id) + SpecText(spec) + "}"
  }

  function AllText(items: seq<Item>): string
    requires GoodItems(items)
  {
    if items == [] then "" else ItemText(items[0]) + AllText(items[1..])
  }

  // ----- The meaning -----

  /**
   * The argument that an id means, and the next automatic index: without an id the arguments
   * are taken in order; an index or a name ends that, and an index must not come after it has begun.
   */
  function Target(id: ArgId, next: int, args: seq<Arg>): Option<(nat, int)> {
    match id
    case Auto => if 0 <= next < |args| then Some((next, next + 1)) else None
    case Index(k) => if next <= 0 && 0 <= k < |args| then Some((k, -1)) else None
    case Name(n) => if FindName(args, n).Some? then Some((FindName(args, n).value, -1)) else None
  }

  /** A width or precision: the number written, or the value of an integer argument from 0 to INT_MAX. */
  function CountValue(c: Count, absent: int, next: int, args: seq<Arg>): Option<(int, int)> {
    match c
    case Absent => Some((absent, next))
    case Number(n) => Some((n, next))
    case Argument(id) =>
      var target := Target(id, next, args);
      if target.None? then None
      else
        var arg := args[target.value.0];
        if (arg.typ == SignedType || arg.typ == UnsignedType) && 0 <= arg.number <= 0x7fff_ffff then
          Some((arg.number, target.value.1))
        else None
  }

  /** How a width or precision given by an argument is kept in the specifiers. */
  function CountRef(c: Count, next: int): ArgRef {
    match c
    case Argument(Auto) => IndexRef(next)
    case Argument(Index(k)) => IndexRef(k)
    case Argument(Name(n)) => NameRef(n)
    case _ => NoRef
  }

  /** What the record asks for, with the values of width and precision. */
  function Given(w: SpecsRoundTrip.Written, width: int, precision: int, widthRef: ArgRef, precisionRef: ArgRef): Specs {
    Specs(
      width, precision, w.presentation,
      if w.align != NoAlign then w.align else if w.zero then Numeric else NoAlign,
      w.sign, w.upper, w.alt, w.localized,
      if w.fill.Some? then w.fill.value else if w.zero && w.align == NoAlign then "0" else " ",
      widthRef, precisionRef)
  }

  /** A field: the argument written with what its specifiers ask for, and the next automatic index. */
  function FieldMeans(id: ArgId, spec: Option<SpecsRoundTrip.Written>, next: int, args: seq<Arg>, write: Writer)
      : Option<(string, int)>
  {
    var target := Target(id, next, args);
    if target.None? then None
    else
      var arg := args[target.value.0];
      if spec.None? then Written(write(arg, None), target.value.1)
      else
        var w := spec.value;
        var width := CountValue(w.width, 0, target.value.1, args);
        if width.None? then None
        else
          var precision := CountValue(w.precision, -1, width.value.1, args);
          if precision.None? || !Allowed(w, arg.typ) then None
          else
            var refs := (CountRef(w.width, target.value.1), CountRef(w.precision, width.value.1));
            Written(write(arg, Some(Given(w, width.value.0, precision.value.0, refs.0, refs.1))), precision.value.1)
  }

  function Written(text: Option<string>, next: int): Option<(string, int)> {
    if text.None? then None else Some((text.value, next))
  }

  /** The text of the pieces, and the next automatic index. */
  function Meaning(items: seq<Item>, next: int, args: seq<Arg>, write: Writer): Option<(string, int)> {
    if items == [] then Some(("", next))
    else
      var first := match items[0]
                   case Literal(text) => Some((text, next))
                   case Replace(id, spec) => FieldMeans(id, spec, next, args, write);
      if first.None? then None
      else
        var rest := Meaning(items[1..], first.value.1, args, write);
        if rest.None? then None else Some((first.value.0 + rest.value.0, rest.value.1))
  }

  // ----- The text of events -----

  /** What the interpreter writes for the rest of a string. */
  function TextFrom(s: string, p: nat, next: int, args: seq<Arg>, write: Writer): Option<string>
    requires p <= |s|
  {
    var events := EventsFrom(s, p, next, args);
    if events.None? then None else EventsText(events.value, args, write)
  }

  lemma PrefixEvents(e: Event, rest: Option<seq<Event>>, args: seq<Arg>, write: Writer)
    ensures var r := Prefix(e, rest);
            (if r.None? then None else EventsText(r.value, args, write))
            == Join(EventText(e, args, write), if rest.None? then None else EventsText(rest.value, args, write))
  {
    if rest.Some? {
      PrefixText(e, rest.value, args, write);
    }
  }

  lemma InterpretIs(s: string, args: seq<Arg>, write: Writer)
    ensures Interpret(s, args, write) == TextFrom(s, 0, 0, args, write)
  {
    SameReadings(s, args);
    hide ParseFormatString, EventsFrom;
    if EventsFrom(s, 0, 0, args).Some? {
      SameText(ParseFormatString(s, args), EventsFrom(s, 0, 0, args), args, write);
    }
  }

  // ----- Text -----

  function Unit(c: char): string {
    if c == '{' || c == '}' then [c, c] else [c]
  }

  lemma {:induction false} LiteralAt(s: string, p: nat, text: string, rest: string, next: int, args: seq<Arg>, write: Writer)
    requires Holds(s, p, Doubled(text) + rest)
    ensures p + |Doubled(text)| <= |s| && Holds(s, p + |Doubled(text)|, rest)
    ensures TextFrom(s, p, next, args, write) == Join(Some(text), TextFrom(s, p + |Doubled(text)|, next, args, write))
    decreases |text|
  {
    hide *;
    Advance(s, p, Doubled(text), rest);
    HoldsAfter(s, p + |Doubled(text)|, rest);
    DoubledIs(text);
    if text == "" {
      JoinLaws(TextFrom(s, p, next, args, write), None, None);
    } else {
      var u := Unit(text[0]);
      assert (u + Doubled(text[1..])) + rest == u + (Doubled(text[1..]) + rest);
      UnitAt(s, p, text[0], Doubled(text[1..]) + rest);
      LiteralAt(s, p + |u|, text[1..], rest, next, args, write);
      CharacterText(s, p, text[0], next, args, write);
      JoinCharacter(text, TextFrom(s, p + |Doubled(text)|, next, args, write));
    }
  }

  lemma DoubledIs(text: string)
    ensures Doubled(text) == if text == "" then "" else Unit(text[0]) + Doubled(text[1..])
  {}

  lemma JoinCharacter(text: string, after: Option<string>)
    requires text != ""
    ensures Join(Some([text[0]]), Join(Some(text[1..]), after)) == Join(Some(text), after)
  {
    JoinLaws(Some([text[0]]), Some(text[1..]), after);
    assert text == [text[0]] + text[1..];
  }

  lemma UnitAt(s: string, p: nat, c: char, r: string)
    requires Holds(s, p, Unit(c) + r)
    ensures p < |s| && s[p] == c && (|Unit(c)| == 2 ==> p + 1 < |s| && s[p + 1] == c)
    ensures p + |Unit(c)| <= |s| && Holds(s, p + |Unit(c)|, r)
  {
    Advance(s, p, Unit(c), r);
    assert s[p..p + |Unit(c)|][|Unit(c)| - 1] == c;
  }

  lemma CharacterText(s: string, p: nat, c: char, next: int, args: seq<Arg>, write: Writer)
    requires p < |s| && s[p] == c && (|Unit(c)| == 2 ==> p + 1 < |s| && s[p + 1] == c)
    ensures p + |Unit(c)| <= |s|
    ensures TextFrom(s, p, next, args, write) == Join(Some([c]), TextFrom(s, p + |Unit(c)|, next, args, write))
  {
    var q := p + |Unit(c)|;
    PrefixEvents(TextEvent([c]), EventsFrom(s, q, next, args), args, write);
    hide EventsText;
    assert EventsFrom(s, p, next, args) == Prefix(TextEvent([c]), EventsFrom(s, q, next, args));
    hide EventsFrom;
  }

  // ----- Fields -----

  /** An id in a field means what the handler makes of it. */
  lemma TargetIs(id: ArgId, next: int, args: seq<Arg>)
    ensures FieldArg(id, next, args) == Target(id, next, args)
  {}

  /** A field without specifiers. */
  lemma PlainFieldAt(s: string, p: nat, id: ArgId, rest: string, next: int, args: seq<Arg>)
    requires GoodId(id) && (id.Index? ==> id.index >= 0) && Holds(s, p, "{" + IdText(id) + "}" + rest)
    ensures var end := p + |IdText(id)| + 2;
            && end <= |s| && Holds(s, end, rest) && s[p] == '{'
            && FieldAt(s, p, next, args)
               == (var target := Target(id, next, args);
                   if target.None? then None else Some(FieldResult(Field(target.value.0, None), target.value.1, end)))
  {
    hide *;
    FieldIdAt(s, p, id, '}', rest);
    TargetIs(id, next, args);
    PlainFieldIs(s, p, id, p + 1 + |IdText(id)|, next, args);
  }

  /** The id of a field and what comes behind it. */
  lemma FieldIdAt(s: string, p: nat, id: ArgId, c: char, rest: string)
    requires GoodId(id) && (id.Index? ==> id.index >= 0) && (c == '}' || c == ':')
    requires Holds(s, p, "{" + IdText(id) + [c] + rest)
    ensures var end := p + 1 + |IdText(id)|;
            && end < |s| && s[p] == '{' && s[p + 1] != '{' && s[end] == c && Holds(s, end + 1, rest)
            && ArgIdAt(s, p + 1) == Some((id, end))
  {
    hide *;
    var text := IdText(id);
    assert "{" + text + [c] + rest == ['{'] + text + ([c] + rest);
    SkipOne(s, p, '{', text, [c] + rest);
    ClosesIs(c);
    IdAt(s, p + 1, id, c, rest);
    Advance(s, p + 1, text, [c] + rest);
    HoldsAfter(s, p + 1 + |text|, [c] + rest);
    assert [c] + rest == [c] + "" + rest && "" + rest == rest;
    SkipOne(s, p + 1 + |text|, c, "", rest);
    NoBraceId(s, p + 1);
  }

  lemma NoBraceId(s: string, i: nat)
    requires i < |s| && ArgIdAt(s, i).Some?
    ensures s[i] != '{'
  {}

  lemma PlainFieldIs(s: string, p: nat, id: ArgId, end: nat, next: int, args: seq<Arg>)
    requires p + 1 < |s| && s[p + 1] != '{' && ArgIdAt(s, p + 1) == Some((id, end)) && end < |s| && s[end] == '}'
    ensures FieldAt(s, p, next, args)
            == (var target := FieldArg(id, next, args);
                if target.None? then None else Some(FieldResult(Field(target.value.0, None), target.value.1, end + 1)))
  {
    hide ArgIdAt, FieldArg, SpecFieldAt;
  }

  lemma SpecFieldIs(s: string, p: nat, id: ArgId, end: nat, next: int, args: seq<Arg>)
    requires p + 1 < |s| && s[p + 1] != '{' && ArgIdAt(s, p + 1) == Some((id, end)) && end < |s| && s[end] == ':'
    ensures FieldAt(s, p, next, args)
            == (var target := FieldArg(id, next, args);
                if target.None? then None else SpecFieldAt(s, end + 1, target.value.0, target.value.1, args))
  {
    hide ArgIdAt, FieldArg, SpecFieldAt;
  }

  /** Width and precision: what the parser resolves and the formatter looks up is what is meant. */
  lemma CountMeans(c: Count, absent: int, next: int, args: seq<Arg>)
    ensures var ref := ResolveCount(c, next);
            var means := CountValue(c, absent, next, args);
            && (ref.None? ==> means.None?)
            && (ref.Some? ==>
                  var value := DynamicValue(ref.value.0, if c.Number? then c.n else absent, args);
                  && ref.value.0 == CountRef(c, next)
                  && (means.None? <==> value.None?)
                  && (means.Some? ==> means.value == (value.value, ref.value.1)))
  {}

  /** The field that the parser makes of a record for argument k. */
  function Parsed(w: SpecsRoundTrip.Written, k: nat, t: ArgType, after: int, end: nat): Option<FieldResult> {
    if Allowed(w, t) && Resolvable(w, after) then
      var width := ResolveCount(w.width, after).value;
      var precision := ResolveCount(w.precision, width.1).value;
      Some(FieldResult(Field(k, Some(Expected(w, width.0, precision.0))), precision.1, end))
    else None
  }

  lemma ParsedIs(w: SpecsRoundTrip.Written, k: nat, t: ArgType, after: int, end: nat)
    ensures Parsed(w, k, t, after, end)
            == if Allowed(w, t) && Resolvable(w, after) then
                 var width := ResolveCount(w.width, after).value;
                 var precision := ResolveCount(w.precision, width.1).value;
                 Some(FieldResult(Field(k, Some(Expected(w, width.0, precision.0))), precision.1, end))
               else None
  {
    hide Allowed, Resolvable, ResolveCount, Expected;
  }

  /** The specifiers of a field are read as written. */
  lemma SpecParsed(s: string, q: nat, w: SpecsRoundTrip.Written, rest: string, k: nat, after: int, args: seq<Arg>)
    requires GoodShape(w) && Holds(s, q, Render(w) + ("}" + rest)) && k < |args| && args[k].typ != NoneType
    ensures var end := q + |Render(w)|;
            && end < |s| && Holds(s, end + 1, rest)
            && SpecFieldAt(s, q, k, after, args) == Parsed(w, k, args[k].typ, after, end + 1)
  {
    hide *;
    GoodCounts(w);
    ParsedIs(w, k, args[k].typ, after, q + |Render(w)| + 1);
    DecidedIs(w, args[k].typ);
    var text, behind := Render(w), "}" + rest;
    SpecEnd(s, q, text, rest);
    Ends(rest);
    Behind(s, q, text + behind);
    assert s[..q] + text + behind == s[..q] + (text + behind);
    RoundTrip(s[..q], w, behind, after, args[k].typ);
    SpecFieldFrom(s, q, k, after, args);
  }

  lemma SpecEnd(s: string, q: nat, text: string, rest: string)
    requires Holds(s, q, text + ("}" + rest))
    ensures var end := q + |text|; end + 1 <= |s| && s[end] == '}' && Holds(s, end + 1, rest)
  {
    hide *;
    var end := q + |text|;
    Advance(s, q, text, "}" + rest);
    HoldsAfter(s, end, "}" + rest);
    assert ['}'] + "" + rest == "}" + rest && "" + rest == rest;
    SkipOne(s, end, '}', "", rest);
  }

  lemma DecidedIs(w: SpecsRoundTrip.Written, t: ArgType)
    requires t != NoneType
    ensures Decided(w, t)
  {}

  lemma Ends(rest: string)
    ensures FieldEnd("}" + rest)
  {}

  lemma Behind(s: string, q: nat, text: string)
    requires Holds(s, q, text)
    ensures q <= |s| && s == s[..q] + text && |s[..q]| == q
  {}

  lemma SpecFieldFrom(s: string, q: nat, k: nat, after: int, args: seq<Arg>)
    requires q <= |s| && k < |args|
    ensures var specs := FormatSpecsAt(s, q, after, args[k].typ);
            SpecFieldAt(s, q, k, after, args)
            == if specs.None? || specs.value.pos == |s| || s[specs.value.pos] != '}' then None
               else Some(FieldResult(Field(k, Some(specs.value.specs)), specs.value.next, specs.value.pos + 1))
  {
    hide FormatSpecsAt;
  }

  /** The writer gets what the record asks for, with the values of width and precision. */
  lemma SpecWritten(w: SpecsRoundTrip.Written, k: nat, after: int, args: seq<Arg>, write: Writer)
    requires GoodShape(w) && Resolvable(w, after) && k < |args|
    ensures var width := ResolveCount(w.width, after).value;
            var precision := ResolveCount(w.precision, width.1).value;
            var a := CountValue(w.width, 0, after, args);
            var b := CountValue(w.precision, -1, width.1, args);
            EventText(Field(k, Some(Expected(w, width.0, precision.0))), args, write)
            == if a.None? || b.None? then None
               else write(args[k], Some(Given(w, a.value.0, b.value.0, CountRef(w.width, after), CountRef(w.precision, width.1))))
  {
    ResolvableIs(w, after);
    CountMeans(w.width, 0, after, args);
    CountMeans(w.precision, -1, ResolveCount(w.width, after).value.1, args);
    hide ResolveCount, CountValue, DynamicValue, CountRef, GoodShape, Resolvable;
  }

  /** A field at some place in a string. */
  lemma OpeningText(s: string, p: nat, next: int, args: seq<Arg>, write: Writer)
    requires p < |s| && s[p] == '{'
    ensures var f := FieldAt(s, p, next, args);
            TextFrom(s, p, next, args, write)
            == if f.None? then None
               else Join(EventText(f.value.event, args, write), TextFrom(s, f.value.end, f.value.next, args, write))
  {
    var f := FieldAt(s, p, next, args);
    if f.Some? {
      PrefixEvents(f.value.event, EventsFrom(s, f.value.end, f.value.next, args), args, write);
    }
    hide FieldAt, EventsText, EventText;
    assert EventsFrom(s, p, next, args)
           == if f.None? then None else Prefix(f.value.event, EventsFrom(s, f.value.end, f.value.next, args));
    hide EventsFrom;
  }

  /** The text so far, and then what comes from position q on with the counter that the text leaves. */
  function Followed(m: Option<(string, int)>, s: string, q: nat, args: seq<Arg>, write: Writer): Option<string>
    requires q <= |s|
  {
    if m.None? then None else Join(Some(m.value.0), TextFrom(s, q, m.value.1, args, write))
  }

  /** A field means the event that the parser makes of it. */
  lemma FieldFollows(s: string, p: nat, q: nat, m: Option<(string, int)>, next: int, args: seq<Arg>, write: Writer)
    requires p < |s| && q <= |s| && s[p] == '{'
    requires var f := FieldAt(s, p, next, args);
             && (f.Some? ==> f.value.end == q)
             && m == if f.None? then None else Written(EventText(f.value.event, args, write), f.value.next)
    ensures TextFrom(s, p, next, args, write) == Followed(m, s, q, args, write)
  {
    hide *;
    OpeningText(s, p, next, args, write);
    var f := FieldAt(s, p, next, args);
    if f.None? {
      FollowedIs(m, s, q, args, write);
    } else {
      FollowedText(EventText(f.value.event, args, write), f.value.next, s, q, args, write);
    }
  }

  lemma PlainReplaced(s: string, p: nat, id: ArgId, rest: string, next: int, args: seq<Arg>, write: Writer)
    requires GoodId(id) && (id.Index? ==> id.index >= 0) && Holds(s, p, "{" + IdText(id) + "}" + rest)
    ensures var q := p + |IdText(id)| + 2;
            && q <= |s| && Holds(s, q, rest)
            && TextFrom(s, p, next, args, write) == Followed(FieldMeans(id, None, next, args, write), s, q, args, write)
  {
    hide *;
    PlainFieldAt(s, p, id, rest, next, args);
    PlainMeans(id, next, args, write);
    HoldsWithin(s, p + |IdText(id)| + 2, rest);
    FieldFollows(s, p, p + |IdText(id)| + 2, FieldMeans(id, None, next, args, write), next, args, write);
  }

  lemma HoldsWithin(s: string, q: nat, rest: string)
    requires Holds(s, q, rest)
    ensures q <= |s|
  {}

  lemma PlainMeans(id: ArgId, next: int, args: seq<Arg>, write: Writer)
    ensures var target := Target(id, next, args);
            FieldMeans(id, None, next, args, write)
            == if target.None? then None else Written(EventText(Field(target.value.0, None), args, write), target.value.1)
  {}

  /** The field that the parser makes of an id and a record. */
  function SpecResult(id: ArgId, w: SpecsRoundTrip.Written, next: int, args: seq<Arg>, end: nat): Option<FieldResult> {
    var target := Target(id, next, args);
    if target.None? || target.value.0 >= |args| then None
    else Parsed(w, target.value.0, args[target.value.0].typ, target.value.1, end)
  }

  /** A field with specifiers stands at p. */
  predicate SpecFieldHolds(s: string, p: nat, id: string, spec: string, rest: string) {
    Holds(s, p, "{" + id + [':'] + (spec + ("}" + rest)))
  }

  lemma SpecIdAt(s: string, p: nat, id: ArgId, spec: string, rest: string)
    requires GoodId(id) && (id.Index? ==> id.index >= 0) && SpecFieldHolds(s, p, IdText(id), spec, rest)
    ensures var end := p + 1 + |IdText(id)|;
            && end < |s| && s[p] == '{' && s[p + 1] != '{' && s[end] == ':' && Holds(s, end + 1, spec + ("}" + rest))
            && ArgIdAt(s, p + 1) == Some((id, end))
  {
    FieldIdAt(s, p, id, ':', spec + ("}" + rest));
    hide Holds, ArgIdAt, IdText, GoodId;
  }

  lemma SpecFieldStart(s: string, p: nat, id: ArgId, spec: string, rest: string, next: int, args: seq<Arg>)
    requires GoodId(id) && (id.Index? ==> id.index >= 0) && SpecFieldHolds(s, p, IdText(id), spec, rest)
    ensures var q := p + 2 + |IdText(id)|;
            && q <= |s| && s[p] == '{' && Holds(s, q, spec + ("}" + rest))
            && q + |spec| + 1 <= |s| && Holds(s, q + |spec| + 1, rest)
            && var target := Target(id, next, args);
              FieldAt(s, p, next, args)
              == if target.None? then None else SpecFieldAt(s, q, target.value.0, target.value.1, args)
  {
    hide *;
    SpecIdAt(s, p, id, spec, rest);
    SpecFieldIs(s, p, id, p + 1 + |IdText(id)|, next, args);
    TargetIs(id, next, args);
    SpecEnd(s, p + 2 + |IdText(id)|, spec, rest);
  }

  lemma SpecTarget(s: string, q: nat, id: ArgId, w: SpecsRoundTrip.Written, rest: string, next: int, args: seq<Arg>)
    requires GoodShape(w) && Typed(args) && Holds(s, q, Render(w) + ("}" + rest)) && q <= |s|
    ensures var target := Target(id, next, args);
            (if target.None? then None else SpecFieldAt(s, q, target.value.0, target.value.1, args))
            == SpecResult(id, w, next, args, q + |Render(w)| + 1)
  {
    hide *;
    GoodCounts(w);
    SpecResultIs(id, w, next, args, q + |Render(w)| + 1);
    var target := Target(id, next, args);
    if target.Some? {
      TargetType(id, next, args);
      SpecParsed(s, q, w, rest, target.value.0, target.value.1, args);
    }
  }

  lemma SpecFound(s: string, p: nat, id: ArgId, w: SpecsRoundTrip.Written, rest: string, next: int, args: seq<Arg>)
    requires GoodId(id) && (id.Index? ==> id.index >= 0) && GoodShape(w) && Typed(args)
    requires SpecFieldHolds(s, p, IdText(id), Render(w), rest)
    ensures var q := p + 2 + |IdText(id)| + |Render(w)| + 1;
            && q <= |s| && s[p] == '{' && Holds(s, q, rest) && FieldAt(s, p, next, args) == SpecResult(id, w, next, args, q)
  {
    hide *;
    GoodCounts(w);
    SpecFieldStart(s, p, id, Render(w), rest, next, args);
    SpecTarget(s, p + 2 + |IdText(id)|, id, w, rest, next, args);
  }

  predicate Typed(args: seq<Arg>) {
    forall k :: 0 <= k < |args| ==> args[k].typ != NoneType
  }

  lemma TargetType(id: ArgId, next: int, args: seq<Arg>)
    requires Typed(args) && Target(id, next, args).Some?
    ensures var k := Target(id, next, args).value.0; k < |args| && args[k].typ != NoneType
  {}

  lemma SpecResultIs(id: ArgId, w: SpecsRoundTrip.Written, next: int, args: seq<Arg>, end: nat)
    ensures var target := Target(id, next, args);
            SpecResult(id, w, next, args, end)
            == if target.None? || target.value.0 >= |args| then None
               else Parsed(w, target.value.0, args[target.value.0].typ, target.value.1, end)
  {
    hide Parsed, Target;
  }

  lemma SpecResultEnd(id: ArgId, w: SpecsRoundTrip.Written, next: int, args: seq<Arg>, end: nat)
    ensures SpecResult(id, w, next, args, end).Some? ==> SpecResult(id, w, next, args, end).value.end == end
  {
    hide Allowed, Resolvable, ResolveCount, Expected, Target;
  }

  lemma SpecReplaced(s: string, p: nat, id: ArgId, w: SpecsRoundTrip.Written, rest: string,
                     next: int, args: seq<Arg>, write: Writer)
    requires GoodId(id) && (id.Index? ==> id.index >= 0) && GoodShape(w) && Typed(args)
    requires SpecFieldHolds(s, p, IdText(id), Render(w), rest)
    ensures var q := p + 2 + |IdText(id)| + |Render(w)| + 1;
            && q <= |s| && Holds(s, q, rest)
            && TextFrom(s, p, next, args, write) == Followed(FieldMeans(id, Some(w), next, args, write), s, q, args, write)
  {
    hide *;
    GoodCounts(w);
    var q := p + 2 + |IdText(id)| + |Render(w)| + 1;
    SpecFound(s, p, id, w, rest, next, args);
    SpecMeans(id, w, next, args, write, q);
    SpecResultEnd(id, w, next, args, q);
    FieldFollows(s, p, q, FieldMeans(id, Some(w), next, args, write), next, args, write);
  }

  lemma FollowedIs(m: Option<(string, int)>, s: string, q: nat, args: seq<Arg>, write: Writer)
    requires q <= |s|
    ensures m.None? ==> Followed(m, s, q, args, write) == None
  {}

  lemma FollowedText(text: Option<string>, next: int, s: string, q: nat, args: seq<Arg>, write: Writer)
    requires q <= |s|
    ensures Followed(Written(text, next), s, q, args, write) == Join(text, TextFrom(s, q, next, args, write))
  {
    hide TextFrom;
  }

  /** A field with specifiers means the event that the parser makes of it. */
  lemma SpecMeans(id: ArgId, w: SpecsRoundTrip.Written, next: int, args: seq<Arg>, write: Writer, end: nat)
    requires GoodShape(w)
    ensures var f := SpecResult(id, w, next, args, end);
            FieldMeans(id, Some(w), next, args, write)
            == if f.None? then None else Written(EventText(f.value.event, args, write), f.value.next)
  {
    var target := Target(id, next, args);
    if target.Some? {
      var (k, after) := target.value;
      assert k < |args|;
      CountMeans(w.width, 0, after, args);
      if ResolveCount(w.width, after).Some? {
        CountMeans(w.precision, -1, ResolveCount(w.width, after).value.1, args);
      }
      ResolvableMeans(w, after);
      hide Target, ResolveCount, CountValue, DynamicValue, CountRef, GoodShape, Resolvable, Allowed, EventText, Given, Expected;
      if Resolvable(w, after) {
        SpecWritten(w, k, after, args, write);
      }
    }
  }

  lemma ResolvableMeans(w: SpecsRoundTrip.Written, next: int)
    ensures Resolvable(w, next)
            <==> ResolveCount(w.width, next).Some? && ResolveCount(w.precision, ResolveCount(w.width, next).value.1).Some?
  {}

  // ----- What reaches the writer -----

  /** A width or precision: its own number without a reference, otherwise that of the integer argument referred to. */
  ghost predicate IsValue(ref: ArgRef, own: int, v: int, args: seq<Arg>) {
    match ref
    case NoRef => v == own
    case IndexRef(k) => 0 <= k < |args| && IsCount(args[k], v)
    case NameRef(n) =>
      exists k :: 0 <= k < |args| && args[k].name == Some(n) && IsCount(args[k], v)
                  && forall j :: 0 <= j < k ==> args[j].name != Some(n)
  }

  predicate IsCount(arg: Arg, v: int) {
    (arg.typ == SignedType || arg.typ == UnsignedType) && v == arg.number && 0 <= v <= 0x7fff_ffff
  }

  /** The writer gets the specifiers that were read, with only width and precision replaced by their values. */
  lemma WriterGets(k: nat, specs: Specs, width: int, precision: int, args: seq<Arg>, write: Writer)
    requires k < |args|
    requires IsValue(specs.widthRef, specs.width, width, args) && IsValue(specs.precisionRef, specs.precision, precision, args)
    ensures EventText(Field(k, Some(specs)), args, write)
            == write(args[k], Some(specs.(width := width, precision := precision)))
  {
    ValueIs(specs.widthRef, specs.width, width, args);
    ValueIs(specs.precisionRef, specs.precision, precision, args);
    hide IsValue, DynamicValue;
  }

  lemma ValueIs(ref: ArgRef, own: int, v: int, args: seq<Arg>)
    ensures IsValue(ref, own, v, args) <==> DynamicValue(ref, own, args) == Some(v)
  {
    if ref.NameRef? && IsValue(ref, own, v, args) {
      var k :| 0 <= k < |args| && args[k].name == Some(ref.name) && IsCount(args[k], v)
               && forall j :: 0 <= j < k ==> args[j].name != Some(ref.name);
      assert FindName(args, ref.name) == Some(k);
    }
  }

  /** Without such a value nothing is written. */
  lemma NoValueIsError(k: nat, specs: Specs, args: seq<Arg>, write: Writer)
    requires k < |args|
    requires (forall v :: !IsValue(specs.widthRef, specs.width, v, args))
             || (forall v :: !IsValue(specs.precisionRef, specs.precision, v, args))
    ensures EventText(Field(k, Some(specs)), args, write) == None
  {
    var a, b := DynamicValue(specs.widthRef, specs.width, args), DynamicValue(specs.precisionRef, specs.precision, args);
    if a.Some? {
      ValueIs(specs.widthRef, specs.width, a.value, args);
    }
    if b.Some? {
      ValueIs(specs.precisionRef, specs.precision, b.value, args);
    }
    hide IsValue, DynamicValue;
  }

  // ----- The theorem -----

  lemma ItemIs(x: Item)
    requires GoodItem(x)
    ensures x.Literal? ==> ItemText(x) == Doubled(x.text)
    ensures x.Replace? ==> GoodId(x.id) && (x.id.Index? ==> x.id.index >= 0) && (x.spec.Some? ==> GoodShape(x.spec.value))
    ensures x.Replace? && x.spec.None? ==> ItemText(x) == "{" + IdText(x.id) + "}"
    ensures x.Replace? && x.spec.Some? ==> ItemText(x) == "{" + IdText(x.id) + (":" + Render(x.spec.value)) + "}"
  {
    hide Doubled, IdText, Render, GoodShape;
  }

  lemma SpecTextAt(s: string, p: nat, id: string, spec: string, rest: string)
    requires Holds(s, p, ("{" + id + (":" + spec) + "}") + rest)
    ensures SpecFieldHolds(s, p, id, spec, rest)
  {
    assert ("{" + id + (":" + spec) + "}") + rest == "{" + id + [':'] + (spec + ("}" + rest));
  }

  /** One piece, and then what comes behind it. */
  lemma ItemAt(s: string, p: nat, x: Item, rest: string, next: int, args: seq<Arg>, write: Writer)
    requires GoodItem(x) && Holds(s, p, ItemText(x) + rest)
    requires Typed(args)
    ensures var q := p + |ItemText(x)|;
            var m := if x.Literal? then Some((x.text, next)) else FieldMeans(x.id, x.spec, next, args, write);
            q <= |s| && Holds(s, q, rest) && TextFrom(s, p, next, args, write) == Followed(m, s, q, args, write)
  {
    hide *;
    ItemIs(x);
    match x
    case Literal(text) =>
      LiteralAt(s, p, text, rest, next, args, write);
      FollowedText(Some(text), next, s, p + |Doubled(text)|, args, write);
      WrittenIsPair(text, next);
    case Replace(id, spec) =>
      if spec.None? {
        PlainReplaced(s, p, id, rest, next, args, write);
      } else {
        GoodCounts(spec.value);
        SpecTextAt(s, p, IdText(id), Render(spec.value), rest);
        SpecReplaced(s, p, id, spec.value, rest, next, args, write);
      }
  }

  lemma WrittenIsPair(text: string, next: int)
    ensures Written(Some(text), next) == Some((text, next))
  {}

  /** All the pieces from some place on, and then what comes behind them. */
  lemma {:induction false} ItemsAt(s: string, p: nat, items: seq<Item>, rest: string, next: int, args: seq<Arg>, write: Writer)
    requires GoodItems(items) && Holds(s, p, AllText(items) + rest)
    requires Typed(args)
    ensures var q := p + |AllText(items)|;
            && q <= |s| && Holds(s, q, rest)
            && TextFrom(s, p, next, args, write) == Followed(Meaning(items, next, args, write), s, q, args, write)
    decreases |items|
  {
    hide *;
    if items == [] {
      NoItems(s, p, rest, next, args, write);
    } else {
      var x, more := items[0], items[1..];
      var m := if x.Literal? then Some((x.text, next)) else FieldMeans(x.id, x.spec, next, args, write);
      MoreItems(items, next, args, write, rest);
      ItemAt(s, p, x, AllText(more) + rest, next, args, write);
      var q := p + |ItemText(x)|;
      var after := if m.Some? then m.value.1 else 0;
      ItemsAt(s, q, more, rest, after, args, write);
      FollowedTwice(m, more, s, q, q + |AllText(more)|, args, write);
    }
  }

  lemma NoItems(s: string, p: nat, rest: string, next: int, args: seq<Arg>, write: Writer)
    requires GoodItems([]) && Holds(s, p, AllText([]) + rest)
    ensures AllText([]) == "" && p <= |s| && Holds(s, p, rest)
    ensures TextFrom(s, p, next, args, write) == Followed(Meaning([], next, args, write), s, p, args, write)
  {
    assert "" + rest == rest;
    JoinLaws(TextFrom(s, p, next, args, write), None, None);
    hide TextFrom;
  }

  lemma MoreItems(items: seq<Item>, next: int, args: seq<Arg>, write: Writer, rest: string)
    requires items != [] && GoodItems(items)
    ensures GoodItem(items[0]) && GoodItems(items[1..])
    ensures AllText(items) + rest == ItemText(items[0]) + (AllText(items[1..]) + rest)
    ensures |AllText(items)| == |ItemText(items[0])| + |AllText(items[1..])|
    ensures var x := items[0];
            var m := if x.Literal? then Some((x.text, next)) else FieldMeans(x.id, x.spec, next, args, write);
            Meaning(items, next, args, write) == Then(m, items[1..], args, write)
  {
    hide ItemText, FieldMeans, GoodItem;
  }

  function Then(m: Option<(string, int)>, items: seq<Item>, args: seq<Arg>, write: Writer): Option<(string, int)> {
    if m.None? then None
    else
      var rest := Meaning(items, m.value.1, args, write);
      if rest.None? then None else Some((m.value.0 + rest.value.0, rest.value.1))
  }

  lemma FollowedTwice(m: Option<(string, int)>, items: seq<Item>, s: string, q: nat, end: nat, args: seq<Arg>, write: Writer)
    requires q <= |s| && end <= |s|
    requires m.Some? ==>
               TextFrom(s, q, m.value.1, args, write) == Followed(Meaning(items, m.value.1, args, write), s, end, args, write)
    ensures Followed(m, s, q, args, write) == Followed(Then(m, items, args, write), s, end, args, write)
  {
    hide TextFrom, Meaning;
    if m.Some? {
      var rest := Meaning(items, m.value.1, args, write);
      if rest.Some? {
        JoinLaws(Some(m.value.0), Some(rest.value.0), TextFrom(s, end, rest.value.1, args, write));
      }
    }
  }

  /** Interpreting a format string written from pieces gives what the pieces mean. */
  lemma InterpretMeaning(items: seq<Item>, args: seq<Arg>, write: Writer)
    requires GoodItems(items) && Typed(args)
    ensures var m := Meaning(items, 0, args, write);
            Interpret(AllText(items), args, write) == if m.None? then None else Some(m.value.0)
  {
    hide *;
    var s := AllText(items);
    InterpretIs(s, args, write);
    AtStart(s, s, "");
    ItemsAt(s, 0, items, "", 0, args, write);
    FollowedEnd(Meaning(items, 0, args, write), s, args, write);
  }

  /** Where the compiler accepts the string as well, its tree gives the same. */
  lemma CompiledMeaning(items: seq<Item>, args: seq<Arg>, write: Writer)
    requires GoodItems(items) && Typed(args) && NamesAgree(args)
    requires Compile(AllText(items), args).Ok? && Meaning(items, 0, args, write).Some?
    ensures FormatNode(Compile(AllText(items), args).node, args, write) == Some(Meaning(items, 0, args, write).value.0)
  {
    InterpretMeaning(items, args, write);
    assert ParseFormatString(AllText(items), args).Some?;
    hide *;
    CompiledEqualsInterpreted(AllText(items), args, write);
  }

  lemma AtStart(s: string, a: string, b: string)
    requires s == a + b
    ensures Holds(s, 0, a + b)
  {}

  lemma FollowedEnd(m: Option<(string, int)>, s: string, args: seq<Arg>, write: Writer)
    ensures Followed(m, s, |s|, args, write) == if m.None? then None else Some(m.value.0)
  {
    if m.Some? {
      EndOfText(s, m.value.1, args, write);
      JoinLaws(Some(m.value.0), None, None);
    }
    hide TextFrom;
  }

  lemma EndOfText(s: string, next: int, args: seq<Arg>, write: Writer)
    ensures TextFrom(s, |s|, next, args, write) == Some("")
  {}

  /** A single brace that nothing closes, or a closing one that is not doubled, behind any pieces is an error. */
  lemma Unbalanced(items: seq<Item>, rest: string, args: seq<Arg>, write: Writer)
    requires GoodItems(items) && Typed(args)
    requires rest == "{" || (rest != "" && rest[0] == '}' && (|rest| == 1 || rest[1] != '}'))
    ensures Interpret(AllText(items) + rest, args, write) == None
  {
    hide *;
    var s := AllText(items) + rest;
    InterpretIs(s, args, write);
    AtStart(s, AllText(items), rest);
    ItemsAt(s, 0, items, rest, 0, args, write);
    var m, q := Meaning(items, 0, args, write), |AllText(items)|;
    FollowedIs(m, s, q, args, write);
    if m.Some? {
      BadEnd(s, q, rest, m.value.1, args, write);
      FollowedNothing(m.value, s, q, args, write);
    }
  }

  lemma FollowedNothing(m: (string, int), s: string, q: nat, args: seq<Arg>, write: Writer)
    requires q <= |s| && TextFrom(s, q, m.1, args, write) == None
    ensures Followed(Some(m), s, q, args, write) == None
  {
    hide TextFrom;
  }

  lemma BadEnd(s: string, q: nat, rest: string, next: int, args: seq<Arg>, write: Writer)
    requires rest == "{" || (rest != "" && rest[0] == '}' && (|rest| == 1 || rest[1] != '}'))
    requires Holds(s, q, rest)
    ensures TextFrom(s, q, next, args, write) == None
  {
    assert s[q] == s[q..][0];
    assert |rest| > 1 ==> s[q + 1] == s[q..][1];
  }
}
