/** parse_format_string and its handler as they change their state step by step. */
module FormatParser {
  import opened Options
  import opened ArgIds
  import opened FormatSpecs
  import opened FormatStrings

  /** format_handler: the counter, the arguments and a log of what the handler was told. */
  class FormatHandler {
    var events: seq<Event>
    const ctx: ParseContext
    const args: seq<Arg>

    constructor (args: seq<Arg>)
      ensures this.args == args && events == [] && fresh(ctx) && ctx.nextArgId == 0
    {
      events, this.args := [], args;
      ctx := new ParseContext(0);
    }

    method OnText(text: string)
      modifies this
      ensures events == old(events) + [TextEvent(text)]
    {
      events := events + [TextEvent(text)];
    }

    /** on_arg_id in its three forms; an argument that does not exist is an error. */
    method OnArgId(id: ArgId) returns (r: Option<nat>)
      modifies ctx
      ensures var arg := FieldArg(id, old(ctx.nextArgId), args);
              if arg.Some? then r == Some(arg.value.0) && ctx.nextArgId == arg.value.1 else r == None
    {
      var ref := ctx.Resolve(id);
      if ref.None? {
        return None;
      }
      match ref.value
      case IndexRef(k) =>
        return if 0 <= k < |args| then Some(k) else None;
      case NameRef(n) =>
        return FindName(args, n);
      case NoRef =>
        return None;
    }

    method OnReplacementField(id: nat)
      modifies this
      ensures events == old(events) + [Field(id, None)]
    {
      events := events + [Field(id, None)];
    }

    /** on_format_specs: parses the specifiers and returns the position of the closing brace. */
    method OnFormatSpecs(id: nat, s: string, begin: nat) returns (r: Option<nat>)
      requires id < |args| && begin <= |s|
      modifies this, ctx
      ensures var f := SpecFieldAt(s, begin, id, old(ctx.nextArgId), args);
              if f.Some? then
                r.Some? && r.value + 1 == f.value.end && s[r.value] == '}'
                && events == old(events) + [f.value.event] && ctx.nextArgId == f.value.next
              else r.None?
    {
      var specs := ParseFormatSpecs(s, begin, ctx, args[id].typ);
      if specs.None? {
        return None;
      }
      var end := specs.value.1;
      if end == |s| || s[end] != '}' {
        return None;
      }
      events := events + [Field(id, Some(specs.value.0))];
      return Some(end);
    }
  }

  /** parse_replacement_field: the position after the field. */
  method ParseReplacementField(s: string, start: nat, handler: FormatHandler) returns (r: Option<nat>)
    requires start < |s|
    modifies handler, handler.ctx
    ensures var f := FieldAt(s, start, old(handler.ctx.nextArgId), handler.args);
            if f.Some? then
              r == Some(f.value.end) && handler.events == old(handler.events) + [f.value.event]
              && handler.ctx.nextArgId == f.value.next
            else r == None
  {
    hide ArgIdAt, FormatSpecsAt, ResolveRef;
    var begin := start + 1;
    if begin == |s| {
      return None;
    }
    if s[begin] == '}' {
      EmptyId(s, begin);
      var arg := handler.OnArgId(Auto);
      if arg.None? {
        return None;
      }
      handler.OnReplacementField(arg.value);
    } else if s[begin] == '{' {
      handler.OnText("{");
    } else {
      var id := ParseArgId(s, begin);
      if id.None? {
        return None;
      }
      var arg := handler.OnArgId(id.value.0);
      if arg.None? {
        return None;
      }
      begin := id.value.1;
      if begin == |s| {
        return None;
      }
      if s[begin] == '}' {
        handler.OnReplacementField(arg.value);
      } else if s[begin] == ':' {
        var end := handler.OnFormatSpecs(arg.value, s, begin + 1);
        if end.None? {
          return None;
        }
        begin := end.value;
      } else {
        return None;
      }
    }
    return Some(begin + 1);
  }

  lemma EmptyId(s: string, b: nat)
    requires b < |s| && s[b] == '}'
    ensures ArgIdAt(s, b) == Some((Auto, b))
  {}

  lemma AppendSome(a: seq<Event>, e: Event, rest: Option<seq<Event>>)
    ensures Append(Some(a), Prefix(e, rest)) == Append(Some(a + [e]), rest)
  {
    if rest.Some? {
      assert a + ([e] + rest.value) == (a + [e]) + rest.value;
    }
  }

  /** The path for strings shorter than 32 characters. */
  method ParseShort(s: string, handler: FormatHandler) returns (ok: bool)
    requires handler.events == []
    modifies handler, handler.ctx
    ensures var r := ShortFrom(s, 0, 0, old(handler.ctx.nextArgId), handler.args);
            ok == r.Some? && (ok ==> handler.events == r.value)
  {
    hide FieldAt, Prefix, Append;
    var begin: nat, p: nat := 0, 0;
    ghost var all := ShortFrom(s, 0, 0, handler.ctx.nextArgId, handler.args);
    AppendNothing(all);
    while p != |s|
      invariant begin <= p <= |s|
      invariant all == Append(Some(handler.events), ShortFrom(s, begin, p, handler.ctx.nextArgId, handler.args))
      decreases |s| - p
    {
      ghost var told, next := handler.events, handler.ctx.nextArgId;
      var c := s[p];
      p := p + 1;
      if c == '{' {
        handler.OnText(s[begin..p - 1]);
        var end := ParseReplacementField(s, p - 1, handler);
        if end.None? {
          AppendError(told);
          return false;
        }
        ghost var f := FieldAt(s, p - 1, next, handler.args).value;
        ghost var rest := ShortFrom(s, f.end, f.end, f.next, handler.args);
        AppendSome(told, TextEvent(s[begin..p - 1]), Prefix(f.event, rest));
        AppendSome(told + [TextEvent(s[begin..p - 1])], f.event, rest);
        begin, p := end.value, end.value;
      } else if c == '}' {
        if p == |s| || s[p] != '}' {
          AppendError(told);
          return false;
        }
        handler.OnText(s[begin..p]);
        AppendSome(told, TextEvent(s[begin..p]), ShortFrom(s, p + 1, p + 1, next, handler.args));
        p := p + 1;
        begin := p;
      }
    }
    AppendLast(handler.events, TextEvent(s[begin..]));
    handler.OnText(s[begin..]);
    return true;
  }

  lemma AppendError(a: seq<Event>)
    ensures Append(Some(a), None) == None
  {}

  lemma AppendLast(a: seq<Event>, e: Event)
    ensures Append(Some(a), Some([e])) == Some(a + [e])
  {}

  /** find. */
  method FindChar(s: string, first: nat, last: nat, value: char) returns (found: bool, out: nat)
    requires first <= last <= |s|
    ensures out == Find(s, first, last, value) && found == (out != last)
  {
    out := first;
    while out != last
      invariant first <= out <= last && Find(s, out, last, value) == Find(s, first, last, value)
      decreases last - out
    {
      if s[out] == value {
        return true, out;
      }
      out := out + 1;
    }
    return false, out;
  }

  lemma WriteTextIs(s: string, start: nat, end: nat)
    requires start <= end <= |s|
    ensures WriteText(s, start, end) == if start == end then Some([]) else Written(s, start, end)
  {
    hide Written;
  }

  lemma NothingMore(a: seq<Event>)
    ensures a + [] == a
  {}

  lemma OneMore(a: seq<Event>, b: seq<Event>, e: Event)
    ensures a + b + [e] == a + (b + [e])
  {}

  /** The writer of the other path. */
  method Write(s: string, start: nat, end: nat, handler: FormatHandler) returns (ok: bool)
    requires start <= end <= |s|
    modifies handler
    ensures var r := WriteText(s, start, end);
            ok == r.Some? && (ok ==> handler.events == old(handler.events) + r.value)
  {
    WriteTextIs(s, start, end);
    hide *;
    ghost var before := handler.events;
    if start == end {
      NothingMore(before);
      return true;
    }
    var from := start;
    ghost var all := Written(s, start, end);
    ghost var told: seq<Event> := [];
    AppendNothing(all);
    NothingMore(before);
    while true
      invariant start <= from <= end && handler.events == before + told
      invariant all == Append(Some(told), Written(s, from, end))
      decreases end - from
    {
      var found, p := FindChar(s, from, end, '}');
      WrittenIs(s, from, end);
      if !found {
        handler.OnText(s[from..end]);
        OneMore(before, told, TextEvent(s[from..end]));
        AppendLast(told, TextEvent(s[from..end]));
        return true;
      }
      p := p + 1;
      if p == end || s[p] != '}' {
        AppendError(told);
        return false;
      }
      handler.OnText(s[from..p]);
      OneMore(before, told, TextEvent(s[from..p]));
      AppendSome(told, TextEvent(s[from..p]), Written(s, p + 1, end));
      told := told + [TextEvent(s[from..p])];
      from := p + 1;
    }
  }

  /** The path for longer strings: two searches, one for each brace. */
  method ParseLong(s: string, handler: FormatHandler) returns (ok: bool)
    requires handler.events == []
    modifies handler, handler.ctx
    ensures var r := LongFrom(s, 0, old(handler.ctx.nextArgId), handler.args);
            ok == r.Some? && (ok ==> handler.events == r.value)
  {
    hide FieldAt, Prefix, Append, WriteText, Find;
    var begin := 0;
    ghost var all := LongFrom(s, 0, handler.ctx.nextArgId, handler.args);
    AppendNothing(all);
    while begin != |s|
      invariant begin <= |s|
      invariant all == Append(Some(handler.events), LongFrom(s, begin, handler.ctx.nextArgId, handler.args))
      decreases |s| - begin
    {
      ghost var told, next := handler.events, handler.ctx.nextArgId;
      LongIs(s, begin, next, handler.args, told);
      var p := begin;
      FindHere(s, begin);
      if s[begin] != '{' {
        var found;
        found, p := FindChar(s, begin + 1, |s|, '{');
        if !found {
          ok := Write(s, begin, |s|, handler);
          return;
        }
      }
      var written := Write(s, begin, p, handler);
      if !written {
        return false;
      }
      var end := ParseReplacementField(s, p, handler);
      if end.None? {
        return false;
      }
      begin := end.value;
    }
    AppendNothing(Some(handler.events));
    return true;
  }

  lemma FindHere(s: string, begin: nat)
    requires begin < |s|
    ensures s[begin] == '{' ==> Find(s, begin, |s|, '{') == begin
    ensures s[begin] != '{' ==> Find(s, begin, |s|, '{') == Find(s, begin + 1, |s|, '{')
  {}

  /** One round of the search-based path, seen from its end. */
  lemma LongIs(s: string, begin: nat, next: int, args: seq<Arg>, told: seq<Event>)
    requires begin < |s|
    ensures var p := Find(s, begin, |s|, '{');
            var text := WriteText(s, begin, p);
            var rest := Append(Some(told), LongFrom(s, begin, next, args));
            && (text.None? ==> rest == None)
            && (p == |s| && text.Some? ==> rest == Some(told + text.value))
            && (p < |s| ==> (FieldAt(s, p, next, args).None? ==> rest == None)
                            && (text.Some? && FieldAt(s, p, next, args).Some? ==>
                                  var f := FieldAt(s, p, next, args).value;
                                  rest == Append(Some(told + text.value + [f.event]), LongFrom(s, f.end, f.next, args))))
  {
    hide FieldAt, WriteText, Find;
    var p := Find(s, begin, |s|, '{');
    var text := WriteText(s, begin, p);
    if p < |s| && text.Some? && FieldAt(s, p, next, args).Some? {
      var f := FieldAt(s, p, next, args).value;
      var rest := LongFrom(s, f.end, f.next, args);
      if rest.Some? {
        assert told + (text.value + ([f.event] + rest.value)) == told + text.value + [f.event] + rest.value;
      }
    }
  }

  /** parse_format_string. */
  method Parse(s: string, handler: FormatHandler) returns (ok: bool)
    requires handler.events == [] && handler.ctx.nextArgId == 0
    modifies handler, handler.ctx
    ensures var r := ParseFormatString(s, handler.args);
            ok == r.Some? && (ok ==> handler.events == r.value)
  {
    if |s| < 32 {
      ok := ParseShort(s, handler);
    } else {
      ok := ParseLong(s, handler);
    }
  }
}
