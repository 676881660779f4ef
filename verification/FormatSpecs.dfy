/** The parser of standard format specifiers, driven by an order of states. */
module FormatSpecs {
  import opened Options
  import opened Powers
  import opened Digits
  import opened ArgIds

  /** The argument types, as far as the parser tells them apart. */
  datatype ArgType =
    | NoneType | SignedType | UnsignedType | BoolType | CharType | FloatType
    | CStringType | StringType | PointerType

  datatype Align = NoAlign | Left | Right | Center | Numeric
  datatype Sign = NoSign | Minus | Plus | Space
  datatype Presentation =
    | NoPresentation | Debug | Text | Dec | Hex | Oct | Bin | Chr | Pointer
    | Exp | Fixed | General | HexFloat

  /** dynamic_format_specs. */
  datatype Specs = Specs(
    width: int, precision: int, presentation: Presentation, align: Align, sign: Sign,
    upper: bool, alt: bool, localized: bool, fill: string, widthRef: ArgRef, precisionRef: ArgRef)

  function DefaultSpecs(): Specs {
    Specs(0, -1, NoPresentation, NoAlign, NoSign, false, false, false, " ", NoRef, NoRef)
  }

  predicate IsArithmetic(t: ArgType) {
    t.SignedType? || t.UnsignedType? || t.BoolType? || t.CharType? || t.FloatType?
  }

  predicate AllowsSign(t: ArgType) {
    t.SignedType? || t.FloatType?
  }

  predicate AllowsPrecision(t: ArgType) {
    t.FloatType? || t.StringType? || t.CStringType?
  }

  function ParseAlign(c: char): Align {
    if c == '<' then Left else if c == '>' then Right else if c == '^' then Center else NoAlign
  }

  function ToAscii(c: char): char {
    if c as int <= 0xff then c else '\0'
  }

  /** The number of code units in a code point, 1 on error, from a packed table of two bits for every 8 lead bytes. */
  function CodePointLength(c: char): (n: nat)
    ensures 1 <= n <= 4
  {
    if c as int > 0xff then 1 else (0x3a55_0000_0000_0000 / Pow(2, 2 * (c as int / 8))) % 4 + 1
  }

  /** The states, in the order in which the parts of a specifier may come. */
  datatype State = Start | AlignState | SignState | HashState | ZeroState | WidthState | PrecisionState | LocaleState

  function Rank(s: State): nat {
    match s
    case Start => 0
    case AlignState => 1
    case SignState => 2
    case HashState => 3
    case ZeroState => 4
    case WidthState => 5
    case PrecisionState => 6
    case LocaleState => 7
  }

  /** Where the parser is: the position, the state, the states entered, the result so far and the counter. */
  datatype Cursor = Cursor(pos: nat, state: State, entered: seq<State>, specs: Specs, next: int)

  predicate CanEnter(c: Cursor, s: State) {
    Rank(c.state) < Rank(s)
  }

  function Enter(c: Cursor, s: State, pos: nat, specs: Specs, next: int): Cursor {
    Cursor(pos, s, c.entered + [s], specs, next)
  }

  /** The presentation type a letter stands for, the argument types that allow it, and whether it means upper case. */
  function Presented(c: char): (r: Option<(Presentation, set<ArgType>, bool)>)
    ensures r.Some? ==> 'a' <= c <= 'z' || ('A' <= c <= 'Z' && c != 'L') || c == '?'
  {
    var integral := {SignedType, UnsignedType, BoolType, CharType};
    match c
    case 'd' => Some((Dec, integral, false))
    case 'X' => Some((Hex, integral, true))
    case 'x' => Some((Hex, integral, false))
    case 'o' => Some((Oct, integral, false))
    case 'B' => Some((Bin, integral, true))
    case 'b' => Some((Bin, integral, false))
    case 'E' => Some((Exp, {FloatType}, true))
    case 'e' => Some((Exp, {FloatType}, false))
    case 'F' => Some((Fixed, {FloatType}, true))
    case 'f' => Some((Fixed, {FloatType}, false))
    case 'G' => Some((General, {FloatType}, true))
    case 'g' => Some((General, {FloatType}, false))
    case 'A' => Some((HexFloat, {FloatType}, true))
    case 'a' => Some((HexFloat, {FloatType}, false))
    case 'c' => Some((Chr, {SignedType, UnsignedType, CharType}, false))
    case 's' => Some((Text, {BoolType, StringType, CStringType}, false))
    case 'p' => Some((Pointer, {PointerType, CStringType}, false))
    case '?' => Some((Debug, {CharType, StringType, CStringType}, false))
    case _ => None
  }

  /** One iteration ends the parse with an error, ends it successfully, or goes on. */
  datatype Outcome = Failed | Done(last: Cursor) | More(next: Cursor)

  function EnterIf(valid: bool, c: Cursor, s: State, specs: Specs): Outcome {
    if CanEnter(c, s) && valid then More(Enter(c, s, c.pos + 1, specs, c.next)) else Failed
  }

  function SignOf(c: char): Sign {
    if c == '+' then Plus else if c == '-' then Minus else Space
  }

  function WidthStep(s: string, cur: Cursor): Outcome
    requires cur.pos < |s|
  {
    var d := DynamicAt(s, cur.pos, cur.specs.width, cur.specs.widthRef, cur.next);
    if !CanEnter(cur, WidthState) || d.None? then Failed
    else More(Enter(cur, WidthState, d.value.end, cur.specs.(width := d.value.value, widthRef := d.value.ref), d.value.next))
  }

  function PrecisionStep(s: string, cur: Cursor, t: ArgType): Outcome
    requires cur.pos < |s|
  {
    if !CanEnter(cur, PrecisionState) || !AllowsPrecision(t) || cur.pos + 1 == |s| || s[cur.pos + 1] == '}' then Failed
    else
      var d := DynamicAt(s, cur.pos + 1, cur.specs.precision, cur.specs.precisionRef, cur.next);
      if d.None? then Failed
      else More(Enter(cur, PrecisionState, d.value.end,
                      cur.specs.(precision := d.value.value, precisionRef := d.value.ref), d.value.next))
  }

  function ZeroStep(cur: Cursor, t: ArgType): Outcome {
    if !CanEnter(cur, ZeroState) then Failed
    else if !IsArithmetic(t) then
      if t.NoneType? then Done(cur.(state := ZeroState, entered := cur.entered + [ZeroState])) else Failed
    else
      var specs := if cur.specs.align == NoAlign then cur.specs.(align := Numeric, fill := "0") else cur.specs;
      More(Enter(cur, ZeroState, cur.pos + 1, specs, cur.next))
  }

  function PresentationStep(cur: Cursor, p: (Presentation, set<ArgType>, bool), t: ArgType): Outcome {
    var specs := if p.2 then cur.specs.(upper := true) else cur.specs;
    if t in p.1 then Done(cur.(pos := cur.pos + 1, specs := specs.(presentation := p.0)))
    else if t.NoneType? then Done(cur.(specs := specs))
    else Failed
  }

  /** Everything else is a fill character with an alignment, or the end of the field. */
  function FillStep(s: string, cur: Cursor): Outcome
    requires cur.pos < |s|
  {
    if s[cur.pos] == '}' then Done(cur)
    else
      var fillEnd := cur.pos + CodePointLength(s[cur.pos]);
      if fillEnd >= |s| || s[cur.pos] == '{' then Failed
      else
        var align := ParseAlign(ToAscii(s[fillEnd]));
        if align == NoAlign || !CanEnter(cur, AlignState) then Failed
        else More(Enter(cur, AlignState, fillEnd + 1, cur.specs.(fill := s[cur.pos..fillEnd], align := align), cur.next))
  }

  /** The switch on the current character, which is null when a fill character is expected. */
  function Step(s: string, c: char, cur: Cursor, t: ArgType): (r: Outcome)
    requires cur.pos < |s| && (c == ToAscii(s[cur.pos]) || c == '\0')
    ensures r.More? ==> cur.pos < r.next.pos <= |s|
    ensures r.Done? ==> cur.pos <= r.last.pos <= |s|
  {
    if c == '<' || c == '>' || c == '^' then EnterIf(true, cur, AlignState, cur.specs.(align := ParseAlign(c)))
    else if c == '+' || c == '-' || c == ' ' then
      if t.NoneType? then Done(cur) else EnterIf(AllowsSign(t), cur, SignState, cur.specs.(sign := SignOf(c)))
    else if c == '#' then
      if t.NoneType? then Done(cur) else EnterIf(IsArithmetic(t), cur, HashState, cur.specs.(alt := true))
    else if c == '0' then ZeroStep(cur, t)
    else if '1' <= c <= '9' || c == '{' then WidthStep(s, cur)
    else if c == '.' then
      if t.NoneType? then Done(cur) else PrecisionStep(s, cur, t)
    else if c == 'L' then
      if t.NoneType? then Done(cur) else EnterIf(IsArithmetic(t), cur, LocaleState, cur.specs.(localized := true))
    else if Presented(c).Some? then PresentationStep(cur, Presented(c).value, t)
    else if c == '}' then Done(cur)
    else FillStep(s, cur)
  }

  /** The loop: None is an error, otherwise the cursor where the parser stops. */
  function Dispatch(s: string, c: char, cur: Cursor, t: ArgType): (r: Option<Cursor>)
    requires cur.pos < |s| && (c == ToAscii(s[cur.pos]) || c == '\0')
    ensures r.Some? ==> cur.pos <= r.value.pos <= |s|
    decreases |s| - cur.pos, 0
  {
    match Step(s, c, cur, t)
    case Failed => None
    case Done(last) => Some(last)
    case More(next) => Continue(s, next, t)
  }

  function Continue(s: string, cur: Cursor, t: ArgType): (r: Option<Cursor>)
    requires cur.pos <= |s|
    ensures r.Some? ==> cur.pos <= r.value.pos <= |s|
    decreases |s| - cur.pos, 1
  {
    if cur.pos == |s| then Some(cur) else Dispatch(s, ToAscii(s[cur.pos]), cur, t)
  }

  /** When the second character is an alignment, the first one is a fill character whatever it is. */
  function FirstChar(s: string, begin: nat): (c: char)
    requires begin < |s|
    ensures c == ToAscii(s[begin]) || c == '\0'
  {
    if begin + 1 < |s| && ParseAlign(ToAscii(s[begin + 1])) != NoAlign then '\0' else ToAscii(s[begin])
  }

  function FormatSpecsAt(s: string, begin: nat, next: int, t: ArgType): (r: Option<Cursor>)
    requires begin <= |s|
    ensures r.Some? ==> begin <= r.value.pos <= |s|
  {
    var cur := Cursor(begin, Start, [], DefaultSpecs(), next);
    if begin == |s| then Some(cur) else Dispatch(s, FirstChar(s, begin), cur, t)
  }

  // ----- The parser itself -----

  /** enter_state: whether the state may be entered. */
  predicate MayEnter(current: State, s: State, valid: bool) {
    !(Rank(current) >= Rank(s) || !valid)
  }

  /**
   * parse_format_specs: the specs and the position where parsing stops, or None for a
   * reported error. The counter moves with every automatic id in a width or a precision.
   */
  method ParseFormatSpecs(s: string, begin: nat, ctx: ParseContext, t: ArgType) returns (r: Option<(Specs, nat)>)
    requires begin <= |s|
    modifies ctx
    ensures var cur := FormatSpecsAt(s, begin, old(ctx.nextArgId), t);
            if cur.Some? then r == Some((cur.value.specs, cur.value.pos)) && ctx.nextArgId == cur.value.next else r == None
  {
    var c, pos, current, specs := '\0', begin, Start, DefaultSpecs();
    if |s| - begin > 1 {
      var next := ToAscii(s[begin + 1]);
      c := if ParseAlign(next) == NoAlign then ToAscii(s[begin]) else '\0';
    } else {
      if begin == |s| {
        return Some((specs, begin));
      }
      c := ToAscii(s[begin]);
    }
    ghost var entered: seq<State> := [];
    hide Step, Presented, ToAscii, DefaultSpecs;
    while true
      invariant pos < |s| && (c == ToAscii(s[pos]) || c == '\0')
      invariant FormatSpecsAt(s, begin, old(ctx.nextArgId), t)
                == Dispatch(s, c, Cursor(pos, current, entered, specs, ctx.nextArgId), t)
      decreases |s| - pos
    {
      ghost var cur := Cursor(pos, current, entered, specs, ctx.nextArgId);
      var flow;
      flow, pos, current, specs := ParseSpec(s, c, pos, current, specs, ctx, t, cur);
      ghost var step := Step(s, c, cur, t);
      if flow == Error {
        return None;
      }
      if flow == Return {
        return Some((specs, pos));
      }
      entered := step.next.entered;
      if pos == |s| {
        return Some((specs, pos));
      }
      c := ToAscii(s[pos]);
    }
  }

  /** What a case of the switch does afterwards: report an error, return, or take the next character. */
  datatype Flow = Error | Return | Next

  /** The variables after a case are those of the outcome. */
  ghost predicate Agrees(flow: Flow, end: nat, state: State, specs: Specs, next: int, outcome: Outcome) {
    match outcome
    case Failed => flow == Error
    case Done(last) => flow == Return && last == Cursor(end, state, last.entered, specs, next)
    case More(c) => flow == Next && c == Cursor(end, state, c.entered, specs, next)
  }

  /** The switch of the loop. */
  method ParseSpec(s: string, c: char, begin: nat, current: State, specs: Specs, ctx: ParseContext, t: ArgType, ghost cur: Cursor)
      returns (flow: Flow, end: nat, state: State, result: Specs)
    requires begin < |s| && (c == ToAscii(s[begin]) || c == '\0')
    requires cur == Cursor(begin, current, cur.entered, specs, ctx.nextArgId)
    modifies ctx
    ensures Agrees(flow, end, state, result, ctx.nextArgId, Step(s, c, cur, t))
  {
    hide ToAscii, CodePointLength, Presented, WidthStep, PrecisionStep, ZeroStep, FillStep, PresentationStep;
    if c == '<' || c == '>' || c == '^' {
      return if MayEnter(current, AlignState, true) then Next else Error, begin + 1, AlignState, specs.(align := ParseAlign(c));
    } else if c == '+' || c == '-' || c == ' ' {
      if t == NoneType {
        return Return, begin, current, specs;
      }
      flow := if MayEnter(current, SignState, AllowsSign(t)) then Next else Error;
      match c {
        case '+' => result := specs.(sign := Plus);
        case '-' => result := specs.(sign := Minus);
        case _ => result := specs.(sign := Space);
      }
      end, state := begin + 1, SignState;
    } else if c == '#' {
      if t == NoneType {
        return Return, begin, current, specs;
      }
      return if MayEnter(current, HashState, IsArithmetic(t)) then Next else Error, begin + 1, HashState, specs.(alt := true);
    } else if c == '0' {
      flow, end, state, result := ParseZero(begin, current, specs, t, cur);
    } else if '1' <= c <= '9' || c == '{' {
      flow, end, state, result := ParseWidth(s, begin, current, specs, ctx, cur);
    } else if c == '.' {
      if t == NoneType {
        return Return, begin, current, specs;
      }
      flow, end, state, result := ParsePrecision(s, begin, current, specs, ctx, t, cur);
    } else if c == 'L' {
      if t == NoneType {
        return Return, begin, current, specs;
      }
      return if MayEnter(current, LocaleState, IsArithmetic(t)) then Next else Error,
        begin + 1, LocaleState, specs.(localized := true);
    } else if Presented(c).Some? {
      flow, end, result := ParsePresentation(Presented(c).value, begin, specs, t, cur);
      state := current;
    } else if c == '}' {
      return Return, begin, current, specs;
    } else {
      flow, end, state, result := ParseFill(s, begin, current, specs, cur);
    }
  }

  method ParseZero(begin: nat, current: State, specs: Specs, t: ArgType, ghost cur: Cursor)
      returns (flow: Flow, end: nat, state: State, result: Specs)
    requires cur == Cursor(begin, current, cur.entered, specs, cur.next)
    ensures Agrees(flow, end, state, result, cur.next, ZeroStep(cur, t))
  {
    flow, end, state, result := Next, begin, ZeroState, specs;
    if !MayEnter(current, ZeroState, true) {
      flow := Error;
      return;
    }
    if !IsArithmetic(t) {
      flow := if t == NoneType then Return else Error;
      return;
    }
    if specs.align == NoAlign {
      result := specs.(align := Numeric, fill := "0");
    }
    end := begin + 1;
  }

  method ParseWidth(s: string, begin: nat, current: State, specs: Specs, ctx: ParseContext, ghost cur: Cursor)
      returns (flow: Flow, end: nat, state: State, result: Specs)
    requires begin < |s| && cur == Cursor(begin, current, cur.entered, specs, ctx.nextArgId)
    modifies ctx
    ensures Agrees(flow, end, state, result, ctx.nextArgId, WidthStep(s, cur))
  {
    hide DynamicAt;
    flow, end, state, result := Error, begin, WidthState, specs;
    if !MayEnter(current, WidthState, true) {
      return;
    }
    var d := ParseDynamicSpec(s, begin, specs.width, specs.widthRef, ctx);
    if d.None? {
      return;
    }
    flow, end, result := Next, d.value.2, specs.(width := d.value.0, widthRef := d.value.1);
  }

  /** parse_precision, behind the point. */
  method ParsePrecision(s: string, begin: nat, current: State, specs: Specs, ctx: ParseContext, t: ArgType, ghost cur: Cursor)
      returns (flow: Flow, end: nat, state: State, result: Specs)
    requires begin < |s| && cur == Cursor(begin, current, cur.entered, specs, ctx.nextArgId)
    modifies ctx
    ensures Agrees(flow, end, state, result, ctx.nextArgId, PrecisionStep(s, cur, t))
  {
    hide DynamicAt;
    flow, end, state, result := Error, begin + 1, PrecisionState, specs;
    if !MayEnter(current, PrecisionState, AllowsPrecision(t)) || end == |s| || s[end] == '}' {
      return;
    }
    var d := ParseDynamicSpec(s, end, specs.precision, specs.precisionRef, ctx);
    if d.None? {
      return;
    }
    flow, end, result := Next, d.value.2, specs.(precision := d.value.0, precisionRef := d.value.1);
  }

  method ParsePresentation(p: (Presentation, set<ArgType>, bool), begin: nat, specs: Specs, t: ArgType, ghost cur: Cursor)
      returns (flow: Flow, end: nat, result: Specs)
    requires cur == Cursor(begin, cur.state, cur.entered, specs, cur.next)
    ensures Agrees(flow, end, cur.state, result, cur.next, PresentationStep(cur, p, t))
  {
    flow, end, result := Return, begin, specs;
    if p.2 {
      result := result.(upper := true);
    }
    if t !in p.1 {
      flow := if t == NoneType then Return else Error;
      return;
    }
    end, result := begin + 1, result.(presentation := p.0);
  }

  method ParseFill(s: string, begin: nat, current: State, specs: Specs, ghost cur: Cursor)
      returns (flow: Flow, end: nat, state: State, result: Specs)
    requires begin < |s| && cur == Cursor(begin, current, cur.entered, specs, cur.next)
    ensures Agrees(flow, end, state, result, cur.next, FillStep(s, cur))
  {
    hide CodePointLength;
    flow, end, state, result := Error, begin, current, specs;
    if s[begin] == '}' {
      flow := Return;
      return;
    }
    var fillEnd := begin + CodePointLength(s[begin]);
    if |s| - fillEnd <= 0 || s[begin] == '{' {
      return;
    }
    var align := ParseAlign(ToAscii(s[fillEnd]));
    if !MayEnter(current, AlignState, align != NoAlign) {
      return;
    }
    flow, end, state, result := Next, fillEnd + 1, AlignState, specs.(fill := s[begin..fillEnd], align := align);
  }

  // ----- The order of the states -----

  predicate Increasing(states: seq<State>) {
    forall i, j :: 0 <= i < j < |states| ==> Rank(states[i]) < Rank(states[j])
  }

  /** The states entered so far are in order, and the last one is the current state. */
  predicate InOrder(c: Cursor) {
    && Increasing(c.entered)
    && c.state == (if c.entered == [] then Start else c.entered[|c.entered| - 1])
    && (forall i :: 0 <= i < |c.entered| ==> Rank(c.entered[i]) <= Rank(c.state))
  }

  lemma EnterInOrder(c: Cursor, s: State, pos: nat, specs: Specs, next: int)
    requires InOrder(c) && CanEnter(c, s)
    ensures InOrder(Enter(c, s, pos, specs, next))
  {}

  /** What a step leaves is in order. */
  predicate OrderKept(r: Outcome) {
    (r.More? ==> InOrder(r.next)) && (r.Done? ==> InOrder(r.last))
  }

  lemma CountsInOrder(s: string, cur: Cursor, t: ArgType)
    requires cur.pos < |s| && InOrder(cur)
    ensures OrderKept(WidthStep(s, cur)) && OrderKept(PrecisionStep(s, cur, t)) && OrderKept(FillStep(s, cur))
  {
    hide InOrder, ToAscii, DynamicAt, CodePointLength, ParseAlign;
    EntersInOrder(cur);
  }

  lemma OthersInOrder(cur: Cursor, t: ArgType)
    requires InOrder(cur)
    ensures OrderKept(ZeroStep(cur, t)) && OrderKept(Done(cur))
    ensures forall p :: OrderKept(PresentationStep(cur, p, t))
    ensures forall valid, st, specs :: OrderKept(EnterIf(valid, cur, st, specs))
  {
    EntersInOrder(cur);
    forall p ensures OrderKept(PresentationStep(cur, p, t)) {
      var r := PresentationStep(cur, p, t);
      if r.Done? {
        SameOrder(cur, r.last);
      }
    }
    var zero := ZeroStep(cur, t);
    if zero.Done? {
      EnterInOrder(cur, ZeroState, cur.pos, cur.specs, cur.next);
      SameOrder(Enter(cur, ZeroState, cur.pos, cur.specs, cur.next), zero.last);
    }
    hide InOrder;
  }

  lemma EntersInOrder(c: Cursor)
    requires InOrder(c)
    ensures forall st, pos, specs, next :: CanEnter(c, st) ==> InOrder(Enter(c, st, pos, specs, next))
  {
    forall st, pos, specs, next | CanEnter(c, st) ensures InOrder(Enter(c, st, pos, specs, next)) {
      EnterInOrder(c, st, pos, specs, next);
    }
  }

  lemma StepInOrder(s: string, c: char, cur: Cursor, t: ArgType)
    requires cur.pos < |s| && (c == ToAscii(s[cur.pos]) || c == '\0') && InOrder(cur)
    ensures OrderKept(Step(s, c, cur, t))
  {
    CountsInOrder(s, cur, t);
    OthersInOrder(cur, t);
    StepIsOneOf(s, c, cur, t);
    hide *;
  }

  /** The possible steps, by what they do to the cursor. */
  ghost predicate SomeEnter(r: Outcome, cur: Cursor) {
    exists valid, st, specs :: r == EnterIf(valid, cur, st, specs)
  }

  ghost predicate SomePresentation(r: Outcome, cur: Cursor, t: ArgType) {
    exists p :: r == PresentationStep(cur, p, t)
  }

  lemma StepIsOneOf(s: string, c: char, cur: Cursor, t: ArgType)
    requires cur.pos < |s| && (c == ToAscii(s[cur.pos]) || c == '\0')
    ensures var r := Step(s, c, cur, t);
            || r == Done(cur) || r == WidthStep(s, cur) || r == PrecisionStep(s, cur, t) || r == ZeroStep(cur, t)
            || r == FillStep(s, cur) || SomeEnter(r, cur) || SomePresentation(r, cur, t)
  {
    hide ToAscii, WidthStep, PrecisionStep, FillStep, ZeroStep, PresentationStep, EnterIf, Presented, ParseAlign, AllowsSign,
      IsArithmetic, SignOf;
    if c == '<' || c == '>' || c == '^' {
      assert SomeEnter(EnterIf(true, cur, AlignState, cur.specs.(align := ParseAlign(c))), cur);
    } else if c == '+' || c == '-' || c == ' ' {
      assert SomeEnter(EnterIf(AllowsSign(t), cur, SignState, cur.specs.(sign := SignOf(c))), cur);
    } else if c == '#' {
      assert SomeEnter(EnterIf(IsArithmetic(t), cur, HashState, cur.specs.(alt := true)), cur);
    } else if c == 'L' {
      assert SomeEnter(EnterIf(IsArithmetic(t), cur, LocaleState, cur.specs.(localized := true)), cur);
    } else if Presented(c).Some? {
      assert SomePresentation(PresentationStep(cur, Presented(c).value, t), cur, t);
    }
  }

  lemma SameOrder(a: Cursor, b: Cursor)
    requires InOrder(a) && a.state == b.state && a.entered == b.entered
    ensures InOrder(b)
  {}

  lemma {:induction false} DispatchInOrder(s: string, c: char, cur: Cursor, t: ArgType)
    requires cur.pos < |s| && (c == ToAscii(s[cur.pos]) || c == '\0') && InOrder(cur)
    ensures var r := Dispatch(s, c, cur, t); r.Some? ==> InOrder(r.value)
    decreases |s| - cur.pos
  {
    StepInOrder(s, c, cur, t);
    hide Step, InOrder, ToAscii;
    var r := Step(s, c, cur, t);
    if r.More? && r.next.pos < |s| {
      DispatchInOrder(s, ToAscii(s[r.next.pos]), r.next, t);
    }
  }

  /** Every accepted specifier enters its states in strictly increasing order. */
  lemma StatesIncrease(s: string, begin: nat, next: int, t: ArgType)
    requires begin <= |s|
    ensures var r := FormatSpecsAt(s, begin, next, t); r.Some? ==> Increasing(r.value.entered)
  {
    if begin < |s| {
      DispatchInOrder(s, FirstChar(s, begin), Cursor(begin, Start, [], DefaultSpecs(), next), t);
    }
  }
}
