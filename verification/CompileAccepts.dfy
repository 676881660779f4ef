/** Which strings the compiler accepts, of those that the interpreter accepts. */
module CompileAccepts {
  import opened Options
  import opened ArgIds
  import opened FormatSpecs
  import opened FormatStrings
  import opened CompileFormat

  /** No argument has a name. */
  predicate Nameless(args: seq<Arg>) {
    forall k :: 0 <= k < |args| ==> args[k].name == None
  }

  predicate HasNameRef(specs: Specs) {
    specs.widthRef.NameRef? || specs.precisionRef.NameRef?
  }

  /** A character written as one takes no sign, no '#' and no padding with zeros. */
  predicate CharacterOk(t: ArgType, specs: Specs) {
    t == CharType && (specs.presentation == NoPresentation || specs.presentation == Chr || specs.presentation == Debug) ==>
      specs.sign == NoSign && !specs.alt && specs.align != Numeric
  }

  predicate NoNames(events: seq<Event>) {
    forall i :: 0 <= i < |events| && events[i].Field? && events[i].specs.Some? ==> !HasNameRef(events[i].specs.value)
  }

  predicate CharactersOk(events: seq<Event>, args: seq<Arg>) {
    forall i :: 0 <= i < |events| && events[i].Field? && events[i].specs.Some? && events[i].id < |args| ==>
      CharacterOk(args[events[i].id].typ, events[i].specs.value)
  }

  // ----- Specifiers of an automatic field -----

  /** Before a width or a precision there is no reference; automatic indexing goes on, unless a name has ended it. */
  predicate StillAutomatic(c: Cursor) {
    && (Rank(c.state) < 5 ==> c.specs.widthRef == NoRef)
    && (Rank(c.state) < 6 ==> c.specs.precisionRef == NoRef)
    && (c.next > 0 || HasNameRef(c.specs))
  }

  predicate KeepsAutomatic(r: Outcome) {
    (r.More? ==> StillAutomatic(r.next)) && (r.Done? ==> StillAutomatic(r.last))
  }

  lemma AutomaticDynamic(s: string, i: nat, value: int, next: int)
    requires i < |s|
    ensures var d := DynamicAt(s, i, value, NoRef, next); d.Some? && next > 0 ==> d.value.next > 0 || d.value.ref.NameRef?
  {
    hide ArgIdAt, DigitsEnd, NonnegativeInt;
  }

  lemma AutomaticWidth(s: string, cur: Cursor)
    requires cur.pos < |s| && StillAutomatic(cur)
    ensures KeepsAutomatic(WidthStep(s, cur))
  {
    AutomaticDynamic(s, cur.pos, cur.specs.width, cur.next);
    hide DynamicAt;
  }

  lemma AutomaticPrecision(s: string, cur: Cursor, t: ArgType)
    requires cur.pos < |s| && StillAutomatic(cur)
    ensures KeepsAutomatic(PrecisionStep(s, cur, t))
  {
    if cur.pos + 1 < |s| {
      AutomaticDynamic(s, cur.pos + 1, cur.specs.precision, cur.next);
    }
    hide DynamicAt;
  }

  predicate SameRefs(a: Specs, b: Specs) {
    a.widthRef == b.widthRef && a.precisionRef == b.precisionRef
  }

  lemma AutomaticOthers(s: string, cur: Cursor, t: ArgType)
    requires cur.pos < |s| && StillAutomatic(cur)
    ensures KeepsAutomatic(ZeroStep(cur, t)) && KeepsAutomatic(FillStep(s, cur)) && KeepsAutomatic(Done(cur))
    ensures forall p :: KeepsAutomatic(PresentationStep(cur, p, t))
    ensures forall valid, st, specs :: SameRefs(specs, cur.specs) ==> KeepsAutomatic(EnterIf(valid, cur, st, specs))
  {
    hide CodePointLength, ToAscii, ParseAlign, IsArithmetic;
  }

  lemma AutomaticStep(s: string, c: char, cur: Cursor, t: ArgType)
    requires cur.pos < |s| && (c == ToAscii(s[cur.pos]) || c == '\0') && StillAutomatic(cur)
    ensures KeepsAutomatic(Step(s, c, cur, t))
  {
    hide *;
    AutomaticWidth(s, cur);
    AutomaticPrecision(s, cur, t);
    AutomaticOthers(s, cur, t);
    AutomaticCases(s, c, cur, t);
  }

  lemma AutomaticCases(s: string, c: char, cur: Cursor, t: ArgType)
    requires cur.pos < |s| && (c == ToAscii(s[cur.pos]) || c == '\0')
    requires KeepsAutomatic(WidthStep(s, cur)) && KeepsAutomatic(PrecisionStep(s, cur, t))
    requires KeepsAutomatic(ZeroStep(cur, t)) && KeepsAutomatic(FillStep(s, cur)) && KeepsAutomatic(Done(cur))
    requires forall p :: KeepsAutomatic(PresentationStep(cur, p, t))
    requires forall valid, st, specs :: SameRefs(specs, cur.specs) ==> KeepsAutomatic(EnterIf(valid, cur, st, specs))
    ensures KeepsAutomatic(Step(s, c, cur, t))
  {
    hide WidthStep, PrecisionStep, ZeroStep, FillStep, PresentationStep, Presented, ToAscii, ParseAlign, IsArithmetic,
      AllowsSign, EnterIf, KeepsAutomatic, SignOf;
  }

  lemma {:induction false} AutomaticSpecs(s: string, c: char, cur: Cursor, t: ArgType)
    requires cur.pos < |s| && (c == ToAscii(s[cur.pos]) || c == '\0') && StillAutomatic(cur)
    ensures var r := Dispatch(s, c, cur, t); r.Some? ==> StillAutomatic(r.value)
    decreases |s| - cur.pos
  {
    AutomaticStep(s, c, cur, t);
    hide Step, ToAscii, StillAutomatic;
    var r := Step(s, c, cur, t);
    if r.More? && r.next.pos < |s| {
      AutomaticSpecs(s, ToAscii(s[r.next.pos]), r.next, t);
    }
  }

  /** Specifiers that begin under automatic indexing leave it only for a name. */
  lemma AutomaticSpecsAt(s: string, begin: nat, next: int, t: ArgType)
    requires begin <= |s| && next > 0
    ensures var r := FormatSpecsAt(s, begin, next, t); r.Some? ==> r.value.next > 0 || HasNameRef(r.value.specs)
  {
    assert StillAutomatic(Cursor(begin, Start, [], DefaultSpecs(), next));
    hide Dispatch, DefaultSpecs;
    if begin < |s| {
      AutomaticSpecs(s, FirstChar(s, begin), Cursor(begin, Start, [], DefaultSpecs(), next), t);
    }
  }

  // ----- Specifiers of a field with an index -----

  /** The first outcome is an error, or the second one is the same but for the counter, which is not automatic. */
  predicate Follows(x: Outcome, y: Outcome) {
    match x
    case Failed => true
    case Done(a) => y.Done? && SameManual(a, y.last) && y.last.next <= 0
    case More(a) => y.More? && SameManual(a, y.next) && y.next.next <= 0
  }

  lemma FollowsDynamic(s: string, i: nat, value: int, ref: ArgRef, next: int)
    requires i < |s| && next <= 0
    ensures var a, b := DynamicAt(s, i, value, ref, -1), DynamicAt(s, i, value, ref, next);
            a.Some? ==> b.Some? && a.value.next == -1 && b.value.next <= 0 && b.value == a.value.(next := b.value.next)
  {
    hide ArgIdAt, DigitsEnd, NonnegativeInt;
  }

  lemma FollowsWidth(s: string, a: Cursor, b: Cursor)
    requires a.pos < |s| && SameManual(a, b) && b.next <= 0
    ensures Follows(WidthStep(s, a), WidthStep(s, b))
  {
    FollowsDynamic(s, a.pos, a.specs.width, a.specs.widthRef, b.next);
    hide DynamicAt;
  }

  lemma FollowsPrecision(s: string, a: Cursor, b: Cursor, t: ArgType)
    requires a.pos < |s| && SameManual(a, b) && b.next <= 0
    ensures Follows(PrecisionStep(s, a, t), PrecisionStep(s, b, t))
  {
    if a.pos + 1 < |s| {
      FollowsDynamic(s, a.pos + 1, a.specs.precision, a.specs.precisionRef, b.next);
    }
    hide DynamicAt;
  }

  lemma FollowsOthers(s: string, a: Cursor, b: Cursor, t: ArgType)
    requires a.pos < |s| && SameManual(a, b) && b.next <= 0
    ensures a.specs == b.specs && Follows(Done(a), Done(b))
    ensures Follows(ZeroStep(a, t), ZeroStep(b, t)) && Follows(FillStep(s, a), FillStep(s, b))
    ensures forall p :: Follows(PresentationStep(a, p, t), PresentationStep(b, p, t))
    ensures forall valid, st, specs :: Follows(EnterIf(valid, a, st, specs), EnterIf(valid, b, st, specs))
  {
    hide CodePointLength, ToAscii, ParseAlign, IsArithmetic;
  }

  lemma FollowsStep(s: string, c: char, a: Cursor, b: Cursor, t: ArgType)
    requires a.pos < |s| && (c == ToAscii(s[a.pos]) || c == '\0') && SameManual(a, b) && b.next <= 0
    ensures Follows(Step(s, c, a, t), Step(s, c, b, t))
  {
    hide *;
    FollowsWidth(s, a, b);
    FollowsPrecision(s, a, b, t);
    FollowsOthers(s, a, b, t);
    FollowsCases(s, c, a, b, t);
  }

  lemma FollowsCases(s: string, c: char, a: Cursor, b: Cursor, t: ArgType)
    requires a.pos < |s| && (c == ToAscii(s[a.pos]) || c == '\0') && SameManual(a, b)
    requires Follows(WidthStep(s, a), WidthStep(s, b)) && Follows(PrecisionStep(s, a, t), PrecisionStep(s, b, t))
    requires Follows(ZeroStep(a, t), ZeroStep(b, t)) && Follows(FillStep(s, a), FillStep(s, b)) && Follows(Done(a), Done(b))
    requires forall p :: Follows(PresentationStep(a, p, t), PresentationStep(b, p, t))
    requires forall valid, st, specs :: Follows(EnterIf(valid, a, st, specs), EnterIf(valid, b, st, specs))
    ensures Follows(Step(s, c, a, t), Step(s, c, b, t))
  {
    assert a.specs == b.specs && a.pos == b.pos;
    hide WidthStep, PrecisionStep, ZeroStep, FillStep, PresentationStep, Presented, ToAscii, ParseAlign, IsArithmetic,
      AllowsSign, EnterIf, Follows, SameManual, SignOf;
  }

  lemma {:induction false} ManualAccepted(s: string, c: char, a: Cursor, b: Cursor, t: ArgType)
    requires a.pos < |s| && (c == ToAscii(s[a.pos]) || c == '\0') && SameManual(a, b) && b.next <= 0
    ensures var x, y := Dispatch(s, c, a, t), Dispatch(s, c, b, t); x.Some? ==> y.Some? && SameManual(x.value, y.value)
    decreases |s| - a.pos
  {
    FollowsStep(s, c, a, b, t);
    hide Step, ToAscii;
    var x, y := Step(s, c, a, t), Step(s, c, b, t);
    if x.More? && x.next.pos < |s| {
      ManualAccepted(s, ToAscii(s[x.next.pos]), x.next, y.next, t);
    }
  }

  /** What is accepted under manual indexing is accepted, and read alike, by a parser that has not begun to count. */
  lemma ManualAcceptedAt(s: string, begin: nat, t: ArgType)
    requires begin <= |s|
    ensures var a, b := FormatSpecsAt(s, begin, -1, t), FormatSpecsAt(s, begin, 0, t);
            a.Some? ==> b.Some? && SameManual(a.value, b.value)
  {
    hide Dispatch, DefaultSpecs;
    if begin < |s| {
      ManualAccepted(s, FirstChar(s, begin), Cursor(begin, Start, [], DefaultSpecs(), -1),
                     Cursor(begin, Start, [], DefaultSpecs(), 0), t);
    }
  }

  // ----- Events -----

  lemma FirstEvent(e: Event, events: seq<Event>, args: seq<Arg>)
    ensures NoNames([e] + events) <==> NoNames([e]) && NoNames(events)
    ensures CharactersOk([e] + events, args) <==> CharactersOk([e], args) && CharactersOk(events, args)
  {
    var all := [e] + events;
    assert forall i :: 0 <= i < |events| ==> all[i + 1] == events[i];
    assert all[0] == e && [e][0] == e;
    assert forall i :: 0 < i < |all| ==> all[i] == events[i - 1];
  }

  /** A run of text adds no fields. */
  lemma {:induction false} RunEvents(s: string, pos: nat, end: nat, next: int, args: seq<Arg>)
    requires pos <= end <= |s| && forall i :: pos <= i < end ==> s[i] != '{' && s[i] != '}'
    ensures var a, b := EventsFrom(s, pos, next, args), EventsFrom(s, end, next, args);
            a.Some? ==> b.Some? && (NoNames(a.value) <==> NoNames(b.value))
                        && (CharactersOk(a.value, args) <==> CharactersOk(b.value, args))
    decreases end - pos
  {
    hide FieldAt, NoNames, CharactersOk;
    if pos < end {
      RunEvents(s, pos + 1, end, next, args);
      var rest := EventsFrom(s, pos + 1, next, args);
      if rest.Some? {
        FirstEvent(TextEvent([s[pos]]), rest.value, args);
        TextIsOk([s[pos]], args);
      }
    }
  }

  lemma TextIsOk(text: string, args: seq<Arg>)
    ensures NoNames([TextEvent(text)]) && CharactersOk([TextEvent(text)], args)
  {}

  // ----- The compiler -----

  /** From pos on the compiler accepts the string exactly if all characters are fine; both counters are the same. */
  ghost predicate Decides(s: string, pos: nat, id: int, args: seq<Arg>)
    requires pos <= |s|
  {
    var events := EventsFrom(s, pos, id, args);
    pos < |s| && events.Some? && NoNames(events.value) ==>
      (CompileAt(s, pos, id, args).Ok? <==> CharactersOk(events.value, args)) && !CompileAt(s, pos, id, args).Unknown?
  }

  /** A head and then the tail, for an event and then the events of the rest. */
  lemma TailDecides(head: Node, e: Event, s: string, start: nat, pos: nat, id: int, args: seq<Arg>)
    requires start < pos <= |s| && Decides(s, pos, id, args) && CharactersOk([e], args)
    ensures var c, events := ParseTail(head, s, start, pos, id, args), Prefix(e, EventsFrom(s, pos, id, args));
            events.Some? && NoNames(events.value) ==> (c.Ok? <==> CharactersOk(events.value, args)) && !c.Unknown?
  {
    var rest := EventsFrom(s, pos, id, args);
    hide CompileAt, EventsFrom, NoNames, CharactersOk;
    if rest.Some? {
      FirstEvent(e, rest.value, args);
      if pos == |s| {
        EndEvents(s, id, args);
      }
    }
  }

  lemma EndEvents(s: string, id: int, args: seq<Arg>)
    ensures EventsFrom(s, |s|, id, args) == Some([]) && NoNames([]) && CharactersOk([], args)
  {}

  /** What the compiler makes of the specifiers that the parser accepts. */
  lemma SpecsDecide(s: string, p: nat, index: nat, id: int, args: seq<Arg>)
    requires p < |s| && index < |args| && (id == -1 || id > 0)
    ensures var f := SpecFieldAt(s, p, index, id, args);
            var specs := ParseSpecsAt(s, p, if id == -1 then 0 else id, args[index].typ);
            f.Some? && NoNames([f.value.event]) ==>
              && p < f.value.end <= |s| && s[f.value.end - 1] == '}'
              && f.value.event.Field? && f.value.event.specs.Some?
              && if CharactersOk([f.value.event], args) then
                   specs == Some((f.value.event.specs.value, f.value.end - 1, f.value.next)) && f.value.next >= -1
                 else specs.None?
  {
    hide *;
    var t := args[index].typ;
    SpecFieldParts(s, p, index, id, args);
    var cur := FormatSpecsAt(s, p, id, t);
    if cur.Some? && cur.value.pos < |s| && s[cur.value.pos] == '}' {
      var e := Field(index, Some(cur.value.specs));
      FieldEvent(index, cur.value.specs, args);
      CharacterIs(t, cur.value.specs);
      if s[p] == '}' {
        EmptySpecs(s, p, id, t);
        EmptySpecs(s, p, 0, t);
        EmptyOk(t);
      }
      if id == -1 {
        ManualAcceptedAt(s, p, t);
        ManualIs(cur.value, FormatSpecsAt(s, p, 0, t));
      } else if !HasNameRef(cur.value.specs) {
        AutomaticSpecsAt(s, p, id, t);
      }
      CompiledSpecs(s, p, if id == -1 then 0 else id, t);
    }
  }

  lemma SpecFieldParts(s: string, p: nat, index: nat, id: int, args: seq<Arg>)
    requires p < |s| && index < |args|
    ensures var cur := FormatSpecsAt(s, p, id, args[index].typ);
            SpecFieldAt(s, p, index, id, args)
            == if cur.None? || cur.value.pos == |s| || s[cur.value.pos] != '}' then None
               else Some(FieldResult(Field(index, Some(cur.value.specs)), cur.value.next, cur.value.pos + 1))
  {
    hide FormatSpecsAt;
  }

  lemma FieldEvent(index: nat, specs: Specs, args: seq<Arg>)
    requires index < |args|
    ensures var e := Field(index, Some(specs));
            && (NoNames([e]) <==> !HasNameRef(specs))
            && (CharactersOk([e], args) <==> CharacterOk(args[index].typ, specs))
  {
    var e := Field(index, Some(specs));
    assert [e][0] == e;
    hide HasNameRef, CharacterOk;
  }

  lemma CharacterIs(t: ArgType, specs: Specs)
    ensures CharacterOk(t, specs) <==> t != CharType || CharSpecsOk(specs)
  {}

  lemma EmptyOk(t: ArgType)
    ensures CharacterOk(t, DefaultSpecs())
  {}

  lemma ManualIs(a: Cursor, b: Option<Cursor>)
    ensures b.Some? && SameManual(a, b.value) ==> a.next == -1 && a.specs == b.value.specs && a.pos == b.value.pos
  {}

  lemma CompiledSpecs(s: string, p: nat, n: int, t: ArgType)
    requires p < |s|
    ensures var cur := if s[p] == '}' then Some(Cursor(p, Start, [], DefaultSpecs(), n)) else FormatSpecsAt(s, p, n, t);
            ParseSpecsAt(s, p, n, t)
            == if cur.None? || (s[p] != '}' && t == CharType && !CharSpecsOk(cur.value.specs)) then None
               else if n == 0 then Some((cur.value.specs, cur.value.pos, -1))
               else if cur.value.next < 0 then None
               else Some((cur.value.specs, cur.value.pos, cur.value.next))
  {
    hide FormatSpecsAt, CharSpecsOk, DefaultSpecs;
  }

  /** A field whose argument is known: what follows the id. */
  lemma FieldDecides(index: nat, s: string, start: nat, end: nat, id: int, args: seq<Arg>)
    requires start < end < |s| && index < |args| && (s[end] == '}' || s[end] == ':') && (id == -1 || id > 0)
    requires forall p, i :: end < p <= |s| && i >= -1 ==> Decides(s, p, i, args)
    ensures var c := FieldThenTail(index, s, start, end, id, args);
            var f := if s[end] == '}' then Some(FieldResult(Field(index, None), id, end + 1))
                     else SpecFieldAt(s, end + 1, index, id, args);
            f.Some? ==>
              var events := Prefix(f.value.event, EventsFrom(s, f.value.end, f.value.next, args));
              events.Some? && NoNames(events.value) ==> (c.Ok? <==> CharactersOk(events.value, args)) && !c.Unknown?
  {
    hide ParseTail, EventsFrom, SpecFieldAt, ParseSpecsAt, Decides, NoNames, CharactersOk;
    if s[end] == '}' {
      PlainIsOk(index, args);
      TailDecides(FieldNode(index), Field(index, None), s, start, end + 1, id, args);
    } else if end + 1 < |s| {
      var f := SpecFieldAt(s, end + 1, index, id, args);
      SpecsDecide(s, end + 1, index, id, args);
      if f.Some? {
        var rest := EventsFrom(s, f.value.end, f.value.next, args);
        if rest.Some? {
          FirstEvent(f.value.event, rest.value, args);
          if NoNames([f.value.event]) && CharactersOk([f.value.event], args) {
            var specs := f.value.event.specs.value;
            TailDecides(SpecField(index, specs), f.value.event, s, start, f.value.end, f.value.next, args);
          }
        }
      }
    } else {
      SpecsNeedText(s, index, id, args);
    }
  }

  lemma SpecsNeedText(s: string, index: nat, id: int, args: seq<Arg>)
    requires index < |args|
    ensures SpecFieldAt(s, |s|, index, id, args).None?
  {}

  lemma PlainIsOk(index: nat, args: seq<Arg>)
    ensures NoNames([Field(index, None)]) && CharactersOk([Field(index, None)], args)
  {}

  /** A field with an index; names are not found. */
  lemma NumberedDecides(s: string, pos: nat, id: int, args: seq<Arg>)
    requires pos + 1 < |s| && s[pos] == '{' && s[pos + 1] != '{' && s[pos + 1] != '}' && s[pos + 1] != ':' && id >= -1
    requires Nameless(args) && forall p, i :: pos + 1 < p <= |s| && i >= -1 ==> Decides(s, p, i, args)
    ensures var c, f := CompileNumbered(s, pos, id, args), FieldAt(s, pos, id, args);
            f.Some? ==>
              var events := Prefix(f.value.event, EventsFrom(s, f.value.end, f.value.next, args));
              events.Some? && NoNames(events.value) ==> (c.Ok? <==> CharactersOk(events.value, args)) && !c.Unknown?
  {
    hide FieldThenTail, ParseTail, EventsFrom, SpecFieldAt, Decides, NoNames, CharactersOk, StaticIndex;
    var arg := ArgIdAt(s, pos + 1);
    if arg.Some? && arg.value.1 < |s| && (s[arg.value.1] == '}' || s[arg.value.1] == ':') {
      var end := arg.value.1;
      hide ArgIdAt;
      match arg.value.0
      case Auto =>
      case Index(k) =>
        if 0 <= k < |args| {
          FieldDecides(k, s, pos, end, -1, args);
        }
      case Name(n) =>
    }
  }

  lemma OpeningDecides(s: string, pos: nat, id: int, args: seq<Arg>)
    requires pos < |s| && s[pos] == '{' && id >= -1
    requires Nameless(args) && forall p, i :: pos < p <= |s| && i >= -1 ==> Decides(s, p, i, args)
    ensures Decides(s, pos, id, args)
  {
    hide FieldThenTail, CompileNumbered, ParseTail, SpecFieldAt, NoNames, CharactersOk;
    if pos + 1 == |s| {
    } else if s[pos + 1] == '{' {
      TextIsOk("{", args);
      assert Decides(s, pos + 2, id, args);
      TailDecides(TextNode("{"), TextEvent("{"), s, pos, pos + 2, id, args);
    } else if s[pos + 1] == '}' || s[pos + 1] == ':' {
      if 0 <= id < |args| {
        FieldDecides(id, s, pos, pos + 1, id + 1, args);
      }
    } else {
      hide FieldAt;
      NumberedDecides(s, pos, id, args);
    }
  }

  lemma {:induction false} CompileDecides(s: string, pos: nat, id: int, args: seq<Arg>)
    requires pos <= |s| && Nameless(args) && id >= -1
    ensures Decides(s, pos, id, args)
    decreases |s| - pos
  {
    forall p, i | pos < p <= |s| && i >= -1 ensures Decides(s, p, i, args) {
      CompileDecides(s, p, i, args);
    }
    if pos < |s| {
      if s[pos] == '{' {
        OpeningDecides(s, pos, id, args);
      } else if s[pos] == '}' {
        ClosingDecides(s, pos, id, args);
      } else {
        RunDecides(s, pos, id, args);
      }
    }
  }

  lemma ClosingDecides(s: string, pos: nat, id: int, args: seq<Arg>)
    requires pos < |s| && s[pos] == '}' && (pos + 2 <= |s| ==> Decides(s, pos + 2, id, args))
    ensures Decides(s, pos, id, args)
  {
    hide ParseTail, NoNames, CharactersOk, FieldAt;
    if pos + 1 < |s| {
      TextIsOk("}", args);
      TailDecides(TextNode("}"), TextEvent("}"), s, pos, pos + 2, id, args);
    }
  }

  lemma RunDecides(s: string, pos: nat, id: int, args: seq<Arg>)
    requires pos < |s| && s[pos] != '{' && s[pos] != '}'
    requires forall p :: pos < p <= |s| ==> Decides(s, p, id, args)
    ensures Decides(s, pos, id, args)
  {
    hide ParseTail, NoNames, CharactersOk, EventsFrom;
    var end := TextEnd(s, pos + 1);
    var text := s[pos..end];
    RunEvents(s, pos, end, id, args);
    TextIsOk(text, args);
    var rest := EventsFrom(s, end, id, args);
    if rest.Some? {
      FirstEvent(TextEvent(text), rest.value, args);
    }
    assert Decides(s, end, id, args);
    TailDecides(if end - pos > 1 then TextNode(text) else CodeUnit(s[pos]), TextEvent(text), s, pos, end, id, args);
  }

  /**
   * Without names the compiler accepts every string that the interpreter reads, whatever fields and
   * specifiers it has, but for characters with a sign, '#' or padding with zeros. With names it may
   * reject more, because it counts fields with static names.
   */
  lemma CompilerAccepts(s: string, args: seq<Arg>)
    requires Nameless(args)
    requires EventsFrom(s, 0, 0, args).Some? && NoNames(EventsFrom(s, 0, 0, args).value)
    ensures Compile(s, args).Ok? <==> CharactersOk(EventsFrom(s, 0, 0, args).value, args)
  {
    CompileDecides(s, 0, 0, args);
    if s == "" {
      EndEvents(s, 0, args);
    }
    hide EventsFrom, CompileAt, NoNames, CharactersOk;
  }

  /** A static name and then an index: the interpreter reads both fields, the compiler rejects the index. */
  lemma NameThenIndex(t: ArgType, x: string)
    ensures var args := [Arg(t, Some("a"), true, 0, x)];
            && EventsFrom("{a}{0}", 0, 0, args) == Some([Field(0, None), Field(0, None)])
            && Compile("{a}{0}", args) == Rejected
  {
    var s, args := "{a}{0}", [Arg(t, Some("a"), true, 0, x)];
    assert s[0] == '{' && s[1] == 'a' && s[2] == '}' && s[3] == '{' && s[4] == '0' && s[5] == '}' && |s| == 6;
    assert NameEnd(s, 2) == 2 && s[1..2] == "a";
    assert ArgIdAt(s, 1) == Some((Name("a"), 2)) && ArgIdAt(s, 4) == Some((Index(0), 5));
    assert FindName(args, "a") == Some(0) && StaticIndex(args, "a", 0) == Some(0);
    hide ArgIdAt, FindName, StaticIndex;
    assert FieldAt(s, 0, 0, args) == Some(FieldResult(Field(0, None), -1, 3));
    assert FieldAt(s, 3, -1, args) == Some(FieldResult(Field(0, None), -1, 6));
    hide FieldAt;
    assert EventsFrom(s, 6, -1, args) == Some([]);
    assert [Field(0, None)] + [] == [Field(0, None)] && [Field(0, None)] + [Field(0, None)] == [Field(0, None), Field(0, None)];
    assert EventsFrom(s, 3, -1, args) == Prefix(Field(0, None), Some([]));
    assert EventsFrom(s, 0, 0, args) == Prefix(Field(0, None), Some([Field(0, None)]));
    assert CompileNumbered(s, 3, 1, args) == Rejected;
    assert CompileAt(s, 3, 1, args) == Rejected;
    assert CompileNumbered(s, 0, 0, args) == Rejected;
  }
}
