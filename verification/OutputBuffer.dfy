/** The buffer behind format_to_n: text goes to the output up to a limit and is only counted after that. */
module OutputBuffer {

  function Min(a: nat, b: nat): (m: nat)
    ensures m <= a && m <= b && (m == a || m == b)
  {
    if a < b then a else b
  }

  /** A sequence with a part replaced. */
  function Image(a: seq<char>, at: nat, s: seq<char>): seq<char>
    requires at + |s| <= |a|
  {
    a[..at] + s + a[at + |s|..]
  }

  /** iterator_buffer<T*, T, fixed_buffer_traits> over the memory of an array, from position start on. */
  class LimitedBuffer {
    const target: array<char>
    const start: nat
    const limit: nat
    const data: array<char>
    /** Whether the pointer of the buffer is the output itself; otherwise it is data. */
    var direct: bool
    var size: nat
    var capacity: nat
    var out: nat
    /** The counter of fixed_buffer_traits: what has been flushed. */
    var flushed: nat
    /** Everything appended so far, how much of it is in the output, and what the target held before. */
    ghost var log: seq<char>
    ghost var written: nat
    ghost const initial: seq<char>

    /** The output holds the beginning of the text and nothing else of the target has changed. */
    ghost predicate Valid()
      reads this, target, data
    {
      && start + limit <= target.Length == |initial| && data.Length == 256 && data != target
      && written <= limit && written <= |log| && target[..] == Image(initial, start, log[..written])
      && |log| == flushed + size && size <= capacity
      && if direct then
           capacity == limit && flushed == 0 && out == start && written == size
         else
           capacity == 256 && out == start + written && written <= flushed
    }

    /** No text is missing in the output, and none will be. */
    ghost predicate Complete()
      reads this
    {
      direct || written == limit
    }

    constructor (target: array<char>, start: nat, limit: nat)
      requires start + limit <= target.Length
      ensures Valid() && Complete() && log == [] && fresh(data) && direct
      ensures this.target == target && this.start == start && this.limit == limit && initial == target[..]
    {
      this.target, this.start, this.limit := target, start, limit;
      data := new char[256];
      direct, size, capacity, out, flushed := true, 0, limit, start, 0;
      log, written, initial := [], 0, target[..];
    }

    /** fixed_buffer_traits::limit: counts the size and returns how much of it fits. */
    method Limit(size: nat) returns (n: nat)
      modifies this`flushed
      ensures flushed == old(flushed) + size
      ensures n == Min(size, if limit > old(flushed) then limit - old(flushed) else 0)
    {
      var rest := if limit > flushed then limit - flushed else 0;
      flushed := flushed + size;
      n := if size < rest then size else rest;
    }

    method Flush()
      requires start + limit <= target.Length
      modifies this`direct, this`size, this`capacity, this`out, this`flushed
      ensures !direct && size == 0 && flushed == old(flushed) + old(size)
      ensures capacity == if old(direct) then 256 else old(capacity)
      ensures out == if old(direct) then old(out) + Min(old(size), if limit > old(flushed) then limit - old(flushed) else 0)
                     else old(out)
    {
      var n := Limit(size);
      if direct {
        out := out + n;
        direct, capacity := false, 256;
      }
      size := 0;
    }

    /** grow: only a full buffer is flushed. */
    method Grow()
      requires Valid()
      modifies this`direct, this`size, this`capacity, this`out, this`flushed
      ensures Valid() && size < capacity && (old(size < capacity) ==> size == old(size) && capacity == old(capacity))
      ensures (old(Complete()) ==> Complete()) && (!old(direct) ==> !direct)
    {
      if size == capacity {
        Flush();
      }
    }

    method TryReserve(newCapacity: nat)
      requires Valid()
      modifies this`direct, this`size, this`capacity, this`out, this`flushed
      ensures Valid() && (newCapacity > old(size) ==> size < capacity)
      ensures (old(Complete()) ==> Complete()) && (!old(direct) ==> !direct)
    {
      if newCapacity > capacity {
        Grow();
      }
    }

    /** memcpy of the next characters behind the size, and the new size. */
    method Write(s: seq<char>, from: nat, count: nat)
      requires Valid() && from + count <= |s| && size + count <= capacity
      modifies this`size, this`log, this`written, target, data
      ensures Valid() && log == old(log) + s[from..from + count] && size == old(size) + count
      ensures (old(Complete()) ==> Complete()) && (!old(direct) ==> written == old(written))
    {
      if direct {
        WriteOutput(s[from..from + count]);
      } else {
        WriteData(s[from..from + count]);
      }
    }

    method WriteOutput(piece: seq<char>)
      requires Valid() && direct && size + |piece| <= capacity
      modifies this`size, this`log, this`written, target
      ensures Valid() && log == old(log) + piece && size == old(size) + |piece|
    {
      PlacedAfter(initial, start, log, written, piece);
      hide Image;
      CopyInto(target, start + size, piece);
      size := size + |piece|;
      log := log + piece;
      written := size;
    }

    method WriteData(piece: seq<char>)
      requires Valid() && !direct && size + |piece| <= capacity
      modifies this`size, this`log, data
      ensures Valid() && log == old(log) + piece && size == old(size) + |piece|
    {
      WholeText(log, piece, written);
      hide Image;
      CopyInto(data, size, piece);
      size := size + |piece|;
      log := log + piece;
    }

    method PushBack(value: char)
      requires Valid()
      modifies this, target, data
      ensures Valid() && log == old(log) + [value]
      ensures (old(Complete()) ==> Complete()) && (!old(direct) ==> !direct && written == old(written))
    {
      TryReserve(size + 1);
      assert [value][0..1] == [value];
      Write([value], 0, 1);
    }

    /** append: copies in chunks; each round has room for at least one character, so the loop ends. */
    method Append(s: seq<char>)
      requires Valid()
      modifies this, target, data
      ensures Valid() && log == old(log) + s
      ensures (old(Complete()) ==> Complete()) && (!old(direct) ==> !direct && written == old(written))
    {
      var begin := 0;
      while begin != |s|
        invariant 0 <= begin <= |s| && Valid()
        invariant log == old(log) + s[..begin]
        invariant (old(Complete()) ==> Complete()) && (!old(direct) ==> !direct && written == old(written))
        decreases |s| - begin
      {
        var count := |s| - begin;
        TryReserve(size + count);
        var freeCap := capacity - size;
        if freeCap < count {
          count := freeCap;
        }
        Write(s, begin, count);
        assert s[..begin + count] == s[..begin] + s[begin..begin + count];
        begin := begin + count;
      }
      assert s[..begin] == s;
    }

    /** count: everything appended, whether it fits or not. */
    method Count() returns (n: nat)
      requires Valid()
      ensures n == |log|
    {
      n := flushed + size;
    }

    /**
     * out: flushes, and returns the end of the text in the output. Afterwards the buffer no
     * longer writes to the output, so text appended later is in it only if the limit had been reached.
     */
    method Out() returns (end: nat)
      requires Valid()
      modifies this`direct, this`size, this`capacity, this`out, this`flushed
      ensures Valid() && !direct && end == start + written && flushed == |log| && size == 0
      ensures old(direct) ==> written == |log|
      ensures old(Complete()) ==> written == Min(limit, |log|)
      ensures Complete() <==> written == limit
    {
      Flush();
      end := out;
    }
  }

  /** Writing a piece behind the text that is in place. */
  lemma Placed(a: seq<char>, at: nat, s: seq<char>, piece: seq<char>)
    requires at + |s| + |piece| <= |a|
    ensures |Image(a, at, s)| == |a| && Image(Image(a, at, s), at + |s|, piece) == Image(a, at, s + piece)
  {}

  lemma PlacedAfter(a: seq<char>, at: nat, log: seq<char>, k: nat, piece: seq<char>)
    requires k == |log| && at + k + |piece| <= |a|
    ensures |Image(a, at, log[..k])| == |a|
    ensures Image(Image(a, at, log[..k]), at + k, piece) == Image(a, at, (log + piece)[..k + |piece|])
  {
    WholeText(log, piece, k);
    Placed(a, at, log, piece);
    hide Image;
  }

  lemma WholeText(log: seq<char>, piece: seq<char>, k: nat)
    requires k <= |log|
    ensures log[..|log|] == log && (log + piece)[..|log| + |piece|] == log + piece && (log + piece)[..k] == log[..k]
  {}

  method CopyInto(a: array<char>, at: nat, s: seq<char>)
    requires at + |s| <= a.Length
    modifies a
    ensures a[..] == Image(old(a[..]), at, s)
  {
    ghost var was := a[..];
    assert was == Image(was, at, s[..0]);
    hide Image;
    for i := 0 to |s|
      invariant a[..] == Image(was, at, s[..i])
    {
      ImageStep(was, at, s, i);
      ghost var before := a[..];
      a[at + i] := s[i];
      assert a[..] == before[at + i := s[i]];
    }
    assert s[..|s|] == s;
  }

  lemma ImageStep(a: seq<char>, at: nat, s: seq<char>, i: nat)
    requires at + |s| <= |a| && i < |s|
    ensures |Image(a, at, s[..i])| == |a| && Image(a, at, s[..i])[at + i := s[i]] == Image(a, at, s[..i + 1])
  {}

  /** One call on the buffer. */
  datatype Call = Push(c: char) | AppendText(s: seq<char>)

  function Total(calls: seq<Call>): seq<char> {
    if calls == [] then []
    else Total(calls[..|calls| - 1]) + (if calls[|calls| - 1].Push? then [calls[|calls| - 1].c] else calls[|calls| - 1].s)
  }

  lemma {:induction false} TotalConcat(a: seq<Call>, b: seq<Call>)
    ensures Total(a + b) == Total(a) + Total(b)
    decreases |b|
  {
    if b == [] {
      assert a + b == a;
    } else {
      TotalConcat(a, b[..|b| - 1]);
      assert (a + b)[..|a + b| - 1] == a + b[..|b| - 1];
    }
  }

  /** Performs the calls one after the other. */
  method Perform(buf: LimitedBuffer, calls: seq<Call>)
    requires buf.Valid()
    modifies buf, buf.target, buf.data
    ensures buf.Valid() && buf.log == old(buf.log) + Total(calls)
    ensures (old(buf.Complete()) ==> buf.Complete()) && (!old(buf.direct) ==> !buf.direct && buf.written == old(buf.written))
  {
    for i := 0 to |calls|
      invariant buf.Valid() && buf.log == old(buf.log) + Total(calls[..i])
      invariant (old(buf.Complete()) ==> buf.Complete())
      invariant !old(buf.direct) ==> !buf.direct && buf.written == old(buf.written)
    {
      assert calls[..i + 1][..i] == calls[..i];
      match calls[i]
      case Push(c) => buf.PushBack(c);
      case AppendText(s) => buf.Append(s);
    }
    assert calls[..|calls|] == calls;
  }

  /**
   * vformat_to_n: any sequence of calls leaves exactly the first characters in the output,
   * nothing behind them is written, and the count is that of the whole text.
   */
  method FormatToN(target: array<char>, start: nat, n: nat, calls: seq<Call>) returns (end: nat, count: nat)
    requires start + n <= target.Length
    modifies target
    ensures count == |Total(calls)| && end == start + Min(n, count)
    ensures target[..] == Image(old(target[..]), start, Total(calls)[..Min(n, count)])
  {
    hide Total, Image;
    var buf := new LimitedBuffer(target, start, n);
    StartEmpty(Total(calls));
    Perform(buf, calls);
    end := buf.Out();
    count := buf.flushed + buf.size;
  }

  /**
   * With a call of out() in between, the text before it is in the output up to the limit, and
   * the text after it only if the limit had been reached, so that it would not be there anyway:
   * text is lost exactly when the limit had not been reached and there is text afterwards.
   */
  method OutTwice(target: array<char>, start: nat, n: nat, before: seq<Call>, after: seq<Call>) returns (end: nat)
    requires start + n <= target.Length
    modifies target
    ensures end == start + Min(n, |Total(before)|)
    ensures target[..] == Image(old(target[..]), start, Total(before)[..Min(n, |Total(before)|)])
    ensures end < start + Min(n, |Total(before + after)|) <==> |Total(before)| < n && Total(after) != []
  {
    hide Total, Image;
    var buf := new LimitedBuffer(target, start, n);
    StartEmpty(Total(before));
    Perform(buf, before);
    end := buf.Out();
    Perform(buf, after);
    end := buf.Out();
    TotalConcat(before, after);
    SameStart(Total(before), Total(after), buf.written);
  }

  lemma StartEmpty(s: seq<char>)
    ensures [] + s == s
  {}

  lemma SameStart(a: seq<char>, b: seq<char>, k: nat)
    requires k <= |a|
    ensures (a + b)[..k] == a[..k] && (|a + b| > |a| <==> b != [])
  {}

  /** One character, out(), and another character, with room for two: the second one is lost. */
  method LostCharacter() returns (text: seq<char>)
    ensures text == "a?"
  {
    var target := new char[2](_ => '?');
    var end := OutTwice(target, 0, 2, [Push('a')], [Push('b')]);
    assert [Push('a')][..0] == [];
    assert Total([Push('a')]) == "a";
    text := target[..];
  }
}
