/** The two parsers of format strings: a simple loop for short strings, and a search-based one for long strings. */
module FormatStrings {
  import opened Options
  import opened ArgIds
  import opened FormatSpecs

  /** An argument: its type, its name if it has one, whether the name is known statically, and its value. */
  datatype Arg = Arg(typ: ArgType, name: Option<string>, isStatic: bool, number: int, value: string)

  /** What a handler is told: a piece of text, or a replacement field with or without specifiers. */
  datatype Event = TextEvent(text: string) | Field(id: nat, specs: Option<Specs>)

  /** The first argument with the name: get_id. */
  function FindName(args: seq<Arg>, name: string): (r: Option<nat>)
    ensures r.Some? ==> r.value < |args| && args[r.value].name == Some(name)
    ensures r.Some? ==> forall i :: 0 <= i < r.value ==> args[i].name != Some(name)
    ensures r.None? ==> forall i :: 0 <= i < |args| ==> args[i].name != Some(name)
  {
    FindNameFrom(args, name, 0)
  }

  function FindNameFrom(args: seq<Arg>, name: string, i: nat): (r: Option<nat>)
    requires i <= |args|
    ensures r.Some? ==> i <= r.value < |args| && args[r.value].name == Some(name)
    ensures r.Some? ==> forall j :: i <= j < r.value ==> args[j].name != Some(name)
    ensures r.None? ==> forall j :: i <= j < |args| ==> args[j].name != Some(name)
    decreases |args| - i
  {
    if i == |args| then None
    else if args[i].name == Some(name) then Some(i)
    else FindNameFrom(args, name, i + 1)
  }

  /** on_arg_id: the argument an id refers to and the counter afterwards; a missing argument is an error. */
  function FieldArg(id: ArgId, next: int, args: seq<Arg>): (r: Option<(nat, int)>)
    ensures r.Some? ==> r.value.0 < |args|
  {
    var target := ResolveRef(id, next);
    if target.None? then None
    else
      match target.value.0
      case IndexRef(k) => if 0 <= k < |args| then Some((k, target.value.1)) else None
      case NameRef(n) =>
        var k := FindName(args, n);
        if k.Some? then Some((k.value, target.value.1)) else None
      case NoRef => None
  }

  /** One replacement field: the event, the counter and the position after it; None is a reported error. */
  datatype FieldResult = FieldResult(event: Event, next: int, end: nat)

  function FieldAt(s: string, p: nat, next: int, args: seq<Arg>): (r: Option<FieldResult>)
    requires p < |s|
    ensures r.Some? ==> p + 1 < r.value.end <= |s|
  {
    var b := p + 1;
    if b == |s| then None
    else if s[b] == '{' then Some(FieldResult(TextEvent("{"), next, b + 1))
    else
      var id := ArgIdAt(s, b);
      if id.None? then None
      else
        var arg := FieldArg(id.value.0, next, args);
        if arg.None? || id.value.1 == |s| then None
        else if s[id.value.1] == '}' then Some(FieldResult(Field(arg.value.0, None), arg.value.1, id.value.1 + 1))
        else if s[id.value.1] == ':' then SpecFieldAt(s, id.value.1 + 1, arg.value.0, arg.value.1, args)
        else None
  }

  function SpecFieldAt(s: string, p: nat, id: nat, next: int, args: seq<Arg>): (r: Option<FieldResult>)
    requires p <= |s| && id < |args|
    ensures r.Some? ==> p < r.value.end <= |s|
  {
    var specs := FormatSpecsAt(s, p, next, args[id].typ);
    if specs.None? || specs.value.pos == |s| || s[specs.value.pos] != '}' then None
    else Some(FieldResult(Field(id, Some(specs.value.specs)), specs.value.next, specs.value.pos + 1))
  }

  function Prefix(e: Event, rest: Option<seq<Event>>): (r: Option<seq<Event>>)
    ensures r.Some? <==> rest.Some?
  {
    if rest.None? then None else Some([e] + rest.value)
  }

  // ----- The three readings of a format string -----

  /** The reference: one character, one doubled brace or one field at a time. */
  function EventsFrom(s: string, p: nat, next: int, args: seq<Arg>): Option<seq<Event>>
    requires p <= |s|
    decreases |s| - p
  {
    if p == |s| then Some([])
    else if s[p] == '{' then
      var field := FieldAt(s, p, next, args);
      if field.None? then None
      else Prefix(field.value.event, EventsFrom(s, field.value.end, field.value.next, args))
    else if s[p] == '}' then
      if p + 1 == |s| || s[p + 1] != '}' then None
      else Prefix(TextEvent("}"), EventsFrom(s, p + 2, next, args))
    else Prefix(TextEvent([s[p]]), EventsFrom(s, p + 1, next, args))
  }

  /** The simple loop: text since begin is pending while p moves on. */
  function ShortFrom(s: string, begin: nat, p: nat, next: int, args: seq<Arg>): Option<seq<Event>>
    requires begin <= p <= |s|
    decreases |s| - p
  {
    if p == |s| then Some([TextEvent(s[begin..])])
    else if s[p] == '{' then
      var field := FieldAt(s, p, next, args);
      if field.None? then None
      else
        var f := field.value;
        Prefix(TextEvent(s[begin..p]), Prefix(f.event, ShortFrom(s, f.end, f.end, f.next, args)))
    else if s[p] == '}' then
      if p + 1 == |s| || s[p + 1] != '}' then None
      else Prefix(TextEvent(s[begin..p + 1]), ShortFrom(s, p + 2, p + 2, next, args))
    else ShortFrom(s, begin, p + 1, next, args)
  }

  /** The first occurrence of c in [from, end), or end. */
  function Find(s: string, from: nat, end: nat, c: char): (p: nat)
    requires from <= end <= |s|
    ensures from <= p <= end && (p < end ==> s[p] == c)
    ensures forall i :: from <= i < p ==> s[i] != c
    decreases end - from
  {
    if from == end || s[from] == c then from else Find(s, from + 1, end, c)
  }

  /** The writer: the text of [from, end), with doubled closing braces. */
  function Written(s: string, from: nat, end: nat): Option<seq<Event>>
    requires from <= end <= |s|
    decreases end - from
  {
    var p := Find(s, from, end, '}');
    if p == end then Some([TextEvent(s[from..end])])
    else if p + 1 == end || s[p + 1] != '}' then None
    else Prefix(TextEvent(s[from..p + 1]), Written(s, p + 2, end))
  }

  function WriteText(s: string, from: nat, end: nat): Option<seq<Event>>
    requires from <= end <= |s|
  {
    if from == end then Some([]) else Written(s, from, end)
  }

  function Append(first: Option<seq<Event>>, rest: Option<seq<Event>>): Option<seq<Event>> {
    if first.None? || rest.None? then None else Some(first.value + rest.value)
  }

  /** The search for the next opening brace, and the text before it. */
  function LongFrom(s: string, begin: nat, next: int, args: seq<Arg>): Option<seq<Event>>
    requires begin <= |s|
    decreases |s| - begin
  {
    if begin == |s| then Some([])
    else
      var p := Find(s, begin, |s|, '{');
      if p == |s| then WriteText(s, begin, p)
      else
        var field := FieldAt(s, p, next, args);
        if field.None? then None
        else
          Append(WriteText(s, begin, p),
                 Prefix(field.value.event, LongFrom(s, field.value.end, field.value.next, args)))
  }

  /** parse_format_string: what the handler is told, or None for a reported error. */
  function ParseFormatString(s: string, args: seq<Arg>): Option<seq<Event>> {
    if |s| < 32 then ShortFrom(s, 0, 0, 0, args) else LongFrom(s, 0, 0, args)
  }

  // ----- Fields and the text between them -----

  /** The fields in order, and the concatenated text before, between and after them. */
  datatype Layout = Layout(texts: seq<string>, fields: seq<Event>)

  function Normalize(events: seq<Event>): (l: Layout)
    ensures |l.texts| == |l.fields| + 1
  {
    if events == [] then Layout([""], [])
    else if events[0].TextEvent? then Prepend(events[0].text, Normalize(events[1..]))
    else
      var rest := Normalize(events[1..]);
      Layout([""] + rest.texts, [events[0]] + rest.fields)
  }

  function Prepend(text: string, l: Layout): (r: Layout)
    requires l.texts != []
    ensures |r.texts| == |l.texts| && r.fields == l.fields
  {
    Layout([text + l.texts[0]] + l.texts[1..], l.fields)
  }

  function SameLayout(a: Option<seq<Event>>, b: Option<seq<Event>>): bool {
    (a.Some? <==> b.Some?) && (a.Some? ==> Normalize(a.value) == Normalize(b.value))
  }

  lemma NormalizePrefix(e: Event, events: seq<Event>)
    ensures e.TextEvent? ==> Normalize([e] + events) == Prepend(e.text, Normalize(events))
    ensures e.Field? ==> Normalize([e] + events) == Layout([""] + Normalize(events).texts, [e] + Normalize(events).fields)
  {
    assert ([e] + events)[1..] == events;
  }

  lemma PrependNothing(l: Layout)
    requires l.texts != []
    ensures Prepend("", l) == l
  {
    assert "" + l.texts[0] == l.texts[0] && [l.texts[0]] + l.texts[1..] == l.texts;
  }

  lemma PrependTwice(a: string, b: string, l: Layout)
    requires l.texts != []
    ensures Prepend(a, Prepend(b, l)) == Prepend(a + b, l)
  {
    assert a + (b + l.texts[0]) == (a + b) + l.texts[0];
  }

  /** Pending text and the layout after it. */
  predicate SameAfter(text: string, a: Option<seq<Event>>, b: Option<seq<Event>>) {
    (a.Some? <==> b.Some?) && (a.Some? ==> Normalize(a.value) == Prepend(text, Normalize(b.value)))
  }

  lemma SamePrefix(e: Event, a: Option<seq<Event>>, b: Option<seq<Event>>)
    requires SameLayout(a, b)
    ensures SameLayout(Prefix(e, a), Prefix(e, b))
  {
    if a.Some? {
      NormalizePrefix(e, a.value);
      NormalizePrefix(e, b.value);
    }
  }

  /** Pending text, told in one event, equals the text character by character. */
  lemma PendingText(text: string, a: Option<seq<Event>>, b: Option<seq<Event>>)
    requires SameLayout(a, b)
    ensures SameAfter(text, Prefix(TextEvent(text), a), b)
  {
    if a.Some? {
      NormalizePrefix(TextEvent(text), a.value);
    }
  }

  lemma LongerText(text: string, more: string, a: Option<seq<Event>>, b: Option<seq<Event>>)
    requires SameAfter(text + more, a, b)
    ensures SameAfter(text, a, Prefix(TextEvent(more), b))
  {
    if a.Some? {
      NormalizePrefix(TextEvent(more), b.value);
      PrependTwice(text, more, Normalize(b.value));
    }
  }

  lemma {:induction false} ShortIsReference(s: string, begin: nat, p: nat, next: int, args: seq<Arg>)
    requires begin <= p <= |s|
    ensures SameAfter(s[begin..p], ShortFrom(s, begin, p, next, args), EventsFrom(s, p, next, args))
    decreases |s| - p
  {
    hide FieldAt, SameAfter, SameLayout, Normalize, Prefix;
    var text := s[begin..p];
    if p == |s| {
      assert s[begin..] == text;
      EndText(text);
    } else if s[p] == '{' {
      var field := FieldAt(s, p, next, args);
      if field.Some? {
        var f := field.value;
        ShortIsReference(s, f.end, f.end, f.next, args);
        AfterNothing(s[f.end..f.end], ShortFrom(s, f.end, f.end, f.next, args), EventsFrom(s, f.end, f.next, args));
        SamePrefix(f.event, ShortFrom(s, f.end, f.end, f.next, args), EventsFrom(s, f.end, f.next, args));
        PendingText(text, Prefix(f.event, ShortFrom(s, f.end, f.end, f.next, args)), EventsFrom(s, p, next, args));
      } else {
        BothErrors(text);
      }
    } else if s[p] == '}' {
      if p + 1 == |s| || s[p + 1] != '}' {
        BothErrors(text);
      } else {
        ShortIsReference(s, p + 2, p + 2, next, args);
        AfterNothing(s[p + 2..p + 2], ShortFrom(s, p + 2, p + 2, next, args), EventsFrom(s, p + 2, next, args));
        assert s[begin..p + 1] == text + "}";
        PendingText(text + "}", ShortFrom(s, p + 2, p + 2, next, args), EventsFrom(s, p + 2, next, args));
        LongerText(text, "}", ShortFrom(s, begin, p, next, args), EventsFrom(s, p + 2, next, args));
      }
    } else {
      ShortIsReference(s, begin, p + 1, next, args);
      assert s[begin..p + 1] == text + [s[p]];
      LongerText(text, [s[p]], ShortFrom(s, begin, p, next, args), EventsFrom(s, p + 1, next, args));
    }
  }

  lemma BothErrors(text: string)
    ensures SameAfter(text, None, None)
  {}

  lemma EndText(text: string)
    ensures SameAfter(text, Some([TextEvent(text)]), Some([]))
  {
    NormalizePrefix(TextEvent(text), []);
    assert [TextEvent(text)] + [] == [TextEvent(text)];
  }

  lemma AfterNothing(text: string, a: Option<seq<Event>>, b: Option<seq<Event>>)
    requires SameAfter(text, a, b) && text == ""
    ensures SameLayout(a, b)
  {
    if a.Some? {
      PrependNothing(Normalize(b.value));
    }
  }

  // ----- The search-based path -----

  /** A run of characters that are no braces. */
  lemma {:induction false} PlainRun(s: string, from: nat, p: nat, next: int, args: seq<Arg>)
    requires from <= p <= |s| && forall i :: from <= i < p ==> s[i] != '{' && s[i] != '}'
    ensures SameLayout(Prefix(TextEvent(s[from..p]), EventsFrom(s, p, next, args)), EventsFrom(s, from, next, args))
    decreases p - from
  {
    var rest := EventsFrom(s, p, next, args);
    hide FieldAt, Normalize, SameLayout, Prefix;
    if from == p {
      EmptyText(s[from..p], rest);
    } else {
      PlainRun(s, from + 1, p, next, args);
      assert s[from..p] == [s[from]] + s[from + 1..p];
      TwoTexts([s[from]], s[from + 1..p], rest, EventsFrom(s, from + 1, next, args));
    }
  }

  lemma EmptyText(text: string, rest: Option<seq<Event>>)
    requires text == ""
    ensures SameLayout(Prefix(TextEvent(text), rest), rest)
  {
    if rest.Some? {
      NormalizePrefix(TextEvent(text), rest.value);
      PrependNothing(Normalize(rest.value));
    }
  }

  lemma TwoTexts(a: string, b: string, rest: Option<seq<Event>>, other: Option<seq<Event>>)
    requires SameLayout(Prefix(TextEvent(b), rest), other)
    ensures SameLayout(Prefix(TextEvent(a + b), rest), Prefix(TextEvent(a), other))
  {
    if rest.Some? {
      NormalizePrefix(TextEvent(a + b), rest.value);
      NormalizePrefix(TextEvent(b), rest.value);
      PrependTwice(a, b, Normalize(rest.value));
      NormalizePrefix(TextEvent(a), other.value);
    }
  }

  lemma SameTransitive(a: Option<seq<Event>>, b: Option<seq<Event>>, c: Option<seq<Event>>)
    requires SameLayout(a, b) && SameLayout(b, c)
    ensures SameLayout(a, c)
  {}

  lemma AppendPrefix(e: Event, a: Option<seq<Event>>, b: Option<seq<Event>>)
    ensures Append(Prefix(e, a), b) == Prefix(e, Append(a, b))
  {
    if a.Some? && b.Some? {
      assert ([e] + a.value) + b.value == [e] + (a.value + b.value);
    }
  }

  /** One event with a closing brace at its end, or two events. */
  lemma ClosingBrace(text: string, rest: Option<seq<Event>>)
    ensures SameLayout(Prefix(TextEvent(text + "}"), rest), Prefix(TextEvent(text), Prefix(TextEvent("}"), rest)))
  {
    if rest.Some? {
      NormalizePrefix(TextEvent(text + "}"), rest.value);
      NormalizePrefix(TextEvent("}"), rest.value);
      NormalizePrefix(TextEvent(text), [TextEvent("}")] + rest.value);
      PrependTwice(text, "}", Normalize(rest.value));
    }
  }

  /** The writer up to an opening brace or the end agrees with the reference. */
  lemma {:induction false} WrittenIsReference(s: string, from: nat, end: nat, next: int, args: seq<Arg>)
    requires from <= end <= |s| && (end < |s| ==> s[end] == '{')
    requires forall i :: from <= i < end ==> s[i] != '{'
    ensures SameLayout(Append(Written(s, from, end), EventsFrom(s, end, next, args)), EventsFrom(s, from, next, args))
    decreases end - from
  {
    hide FieldAt, Normalize, SameLayout, EventsFrom, Written, Prefix, Append;
    var p := Find(s, from, end, '}');
    var rest := EventsFrom(s, end, next, args);
    PlainRun(s, from, p, next, args);
    WrittenIs(s, from, end);
    if p == end {
      AppendOne(TextEvent(s[from..end]), rest);
    } else {
      ClosingIs(s, p, next, args);
      if p + 1 == end || s[p + 1] != '}' {
        NoLayout(TextEvent(s[from..p]), EventsFrom(s, from, next, args), rest);
      } else {
        WrittenIsReference(s, p + 2, end, next, args);
        assert s[from..p + 1] == s[from..p] + "}";
        BraceStep(s[from..p], Written(s, p + 2, end), rest, EventsFrom(s, p + 2, next, args), EventsFrom(s, from, next, args));
      }
    }
  }

  lemma WrittenIs(s: string, from: nat, end: nat)
    requires from <= end <= |s|
    ensures var p := Find(s, from, end, '}');
            Written(s, from, end)
            == if p == end then Some([TextEvent(s[from..end])])
               else if p + 1 == end || s[p + 1] != '}' then None
               else Prefix(TextEvent(s[from..p + 1]), Written(s, p + 2, end))
  {}

  lemma ClosingIs(s: string, p: nat, next: int, args: seq<Arg>)
    requires p < |s| && s[p] == '}'
    ensures EventsFrom(s, p, next, args)
            == if p + 1 == |s| || s[p + 1] != '}' then None
               else Prefix(TextEvent("}"), EventsFrom(s, p + 2, next, args))
  {
    hide FieldAt;
  }

  /** The text up to a doubled closing brace, what the writer tells after it, and the reference. */
  lemma BraceStep(text: string, written: Option<seq<Event>>, rest: Option<seq<Event>>,
                  after: Option<seq<Event>>, reference: Option<seq<Event>>)
    requires SameLayout(Append(written, rest), after)
    requires SameLayout(Prefix(TextEvent(text), Prefix(TextEvent("}"), after)), reference)
    ensures SameLayout(Append(Prefix(TextEvent(text + "}"), written), rest), reference)
  {
    hide Normalize, SameLayout, Prefix, Append;
    var e := TextEvent(text + "}");
    AppendPrefix(e, written, rest);
    SamePrefix(e, Append(written, rest), after);
    ClosingBrace(text, after);
    SameTransitive(Prefix(e, Append(written, rest)), Prefix(e, after), Prefix(TextEvent(text), Prefix(TextEvent("}"), after)));
    SameTransitive(Prefix(e, Append(written, rest)), Prefix(TextEvent(text), Prefix(TextEvent("}"), after)), reference);
  }

  lemma AppendOne(e: Event, rest: Option<seq<Event>>)
    ensures Append(Some([e]), rest) == Prefix(e, rest)
  {}

  lemma NoLayout(e: Event, a: Option<seq<Event>>, rest: Option<seq<Event>>)
    requires SameLayout(Prefix(e, None), a)
    ensures SameLayout(Append(None, rest), a)
  {}

  lemma WriteTextIsReference(s: string, from: nat, end: nat, next: int, args: seq<Arg>)
    requires from <= end <= |s| && (end < |s| ==> s[end] == '{')
    requires forall i :: from <= i < end ==> s[i] != '{'
    ensures SameLayout(Append(WriteText(s, from, end), EventsFrom(s, end, next, args)), EventsFrom(s, from, next, args))
  {
    if from == end {
      AppendNothing(EventsFrom(s, end, next, args));
    } else {
      WrittenIsReference(s, from, end, next, args);
    }
  }

  lemma AppendNothing(a: Option<seq<Event>>)
    ensures Append(Some([]), a) == a && Append(a, Some([])) == a
  {
    if a.Some? {
      assert [] + a.value == a.value && a.value + [] == a.value;
    }
  }

  /** The events of the writer in front do not matter. */
  lemma {:induction false} SameAppend(w: seq<Event>, a: Option<seq<Event>>, b: Option<seq<Event>>)
    requires SameLayout(a, b)
    ensures SameLayout(Append(Some(w), a), Append(Some(w), b))
  {
    if w == [] {
      AppendNothing(a);
      AppendNothing(b);
    } else {
      SameAppend(w[1..], a, b);
      assert w == [w[0]] + w[1..] && Prefix(w[0], Some(w[1..])) == Some(w);
      AppendPrefix(w[0], Some(w[1..]), a);
      AppendPrefix(w[0], Some(w[1..]), b);
      SamePrefix(w[0], Append(Some(w[1..]), a), Append(Some(w[1..]), b));
    }
  }

  lemma {:induction false} LongIsReference(s: string, begin: nat, next: int, args: seq<Arg>)
    requires begin <= |s|
    ensures SameLayout(LongFrom(s, begin, next, args), EventsFrom(s, begin, next, args))
    decreases |s| - begin
  {
    if begin < |s| {
      var p := Find(s, begin, |s|, '{');
      var text := WriteText(s, begin, p);
      WriteTextIsReference(s, begin, p, next, args);
      var reference := EventsFrom(s, p, next, args);
      hide FieldAt, Normalize, SameLayout, Written, WriteText;
      if p == |s| {
        AppendNothing(text);
      } else {
        var field := FieldAt(s, p, next, args);
        if field.None? {
          NoneAppended(text, EventsFrom(s, begin, next, args));
        } else {
          var f := field.value;
          LongIsReference(s, f.end, f.next, args);
          SamePrefix(f.event, LongFrom(s, f.end, f.next, args), EventsFrom(s, f.end, f.next, args));
          if text.Some? {
            SameAppend(text.value, Prefix(f.event, LongFrom(s, f.end, f.next, args)), reference);
            SameTransitive(LongFrom(s, begin, next, args), Append(text, reference), EventsFrom(s, begin, next, args));
          }
        }
      }
    }
  }

  lemma NoneAppended(a: Option<seq<Event>>, b: Option<seq<Event>>)
    requires SameLayout(Append(a, None), b)
    ensures SameLayout(None, b)
  {}

  /** Both paths accept the same strings and report the same fields with the same text between them. */
  lemma SameReadings(s: string, args: seq<Arg>)
    ensures SameLayout(ShortFrom(s, 0, 0, 0, args), LongFrom(s, 0, 0, args))
    ensures SameLayout(ParseFormatString(s, args), EventsFrom(s, 0, 0, args))
  {
    ShortIsReference(s, 0, 0, 0, args);
    AfterNothing(s[0..0], ShortFrom(s, 0, 0, 0, args), EventsFrom(s, 0, 0, args));
    LongIsReference(s, 0, 0, args);
    hide ShortFrom, LongFrom, EventsFrom, Normalize;
  }

  // ----- Doubled braces -----

  function Doubled(text: string): string {
    if text == "" then ""
    else (if text[0] == '{' || text[0] == '}' then [text[0], text[0]] else [text[0]]) + Doubled(text[1..])
  }

  lemma {:induction false} DoubledFrom(s: string, p: nat, text: string, next: int, args: seq<Arg>)
    requires p <= |s| && s[p..] == Doubled(text)
    ensures var r := EventsFrom(s, p, next, args); r.Some? && Normalize(r.value) == Layout([text], [])
    decreases |text|
  {
    if text != "" {
      var c := text[0];
      var q := if c == '{' || c == '}' then p + 2 else p + 1;
      assert s[p] == s[p..][0] == c;
      assert q == p + 2 ==> s[p + 1] == s[p..][1] == c;
      assert s[q..] == s[p..][q - p..] == Doubled(text[1..]);
      DoubledFrom(s, q, text[1..], next, args);
      var rest := EventsFrom(s, q, next, args).value;
      NormalizePrefix(TextEvent([c]), rest);
      assert text == [c] + text[1..];
      hide Normalize, Doubled;
    }
  }

  /** Doubling every brace of a text makes either path emit exactly the text, with no field. */
  lemma DoublingEscapes(text: string, args: seq<Arg>)
    ensures var s := Doubled(text);
            && ShortFrom(s, 0, 0, 0, args).Some? && Normalize(ShortFrom(s, 0, 0, 0, args).value) == Layout([text], [])
            && LongFrom(s, 0, 0, args).Some? && Normalize(LongFrom(s, 0, 0, args).value) == Layout([text], [])
  {
    var s := Doubled(text);
    assert s[0..] == s;
    hide Doubled, ShortFrom, LongFrom, EventsFrom, Normalize;
    DoubledFrom(s, 0, text, 0, args);
    ShortIsReference(s, 0, 0, 0, args);
    AfterNothing(s[0..0], ShortFrom(s, 0, 0, 0, args), EventsFrom(s, 0, 0, args));
    LongIsReference(s, 0, 0, args);
  }
}
