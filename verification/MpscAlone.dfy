/** Dequeue of the intrusive queue when no producer is active, and a call that fails although it need not. */
module MpscAlone {
  import opened Options
  import opened MpscMemory
  import opened MpscIntrusive

  /** How far the consumer is at most from the end of its call. */
  function Rank(c: ConsumerState): nat {
    match c
    case Idle => 0
    case StoreTail(_, _) => 1
    case LoadNextLast(_) => 2
    case LinkDummy(_, _, _) => 3
    case ExchangeDummy(_) => 4
    case ClearDummy(_) => 5
    case LoadHead(_) => 6
    case LoadNextAgain(_) => 7
    case SkipDummy(_) => 8
    case LoadNext(_) => 9
  }

  /** The consumer runs to the end of its call; nobody else moves. */
  function Finish(s: State): State
    decreases Rank(s.consumer)
  {
    if s.consumer.Idle? then s else Finish(ConsumerStep(s))
  }

  /** A whole call of Dequeue. */
  function DequeueAlone(s: State): State
    requires s.consumer.Idle?
  {
    Finish(ConsumerStep(s))
  }

  /** No producer is active, and when head is about to be loaded tail is the last node. */
  ghost predicate Quiet(s: State) {
    && Inv(s) && s.producers == map[]
    && (s.consumer.LoadHead? || s.consumer.ClearDummy? || s.consumer.ExchangeDummy? ==> s.m.t == |s.m.log| - 1)
  }

  lemma QuietStep(s: State)
    requires Quiet(s) && !s.consumer.Idle?
    ensures Quiet(ConsumerStep(s)) && Elems(ConsumerStep(s).m.log) == Elems(s.m.log)
    ensures ConsumerStep(s).returned == s.returned + if s.consumer.StoreTail? then [s.consumer.tail] else []
    ensures ConsumerStep(s).consumer.Idle?
            <==> s.consumer.StoreTail? || (s.consumer.LoadNext? && s.m.tail == Dummy && s.m.t == |s.m.log| - 1)
  {
    StepInv(s, Consume);
    QuietIdle(s);
    QuietTail(s);
    SameElems(s);
    hide Inv, Elems, ConsumerStep;
  }

  /** What of quietness is not the invariant, and what is returned. */
  lemma QuietTail(s: State)
    requires Quiet(s) && !s.consumer.Idle?
    ensures var next := ConsumerStep(s);
            && next.producers == map[] && next.returned == s.returned + (if s.consumer.StoreTail? then [s.consumer.tail] else [])
            && (next.consumer.LoadHead? || next.consumer.ClearDummy? || next.consumer.ExchangeDummy? ==>
                  next.m.t == |next.m.log| - 1)
  {
    TailLink(s);
    hide Inv, Elems;
  }

  lemma SameElems(s: State)
    ensures Elems(ConsumerStep(s).m.log) == Elems(s.m.log)
  {
    assert (s.m.log + [Dummy])[..|s.m.log|] == s.m.log;
    assert Elems(s.m.log + [Dummy]) == Elems(s.m.log);
    hide Elems;
  }

  lemma QuietIdle(s: State)
    requires Quiet(s) && !s.consumer.Idle?
    ensures ConsumerStep(s).consumer.Idle?
            <==> s.consumer.StoreTail? || (s.consumer.LoadNext? && s.m.tail == Dummy && s.m.t == |s.m.log| - 1)
  {
    TailLink(s);
    assert s.m.log[|s.m.log| - 1] == s.m.head;
    hide Inv, Elems;
  }

  /** With no producer active the only link that can be missing behind tail is the one the consumer itself has yet to store. */
  lemma TailLink(s: State)
    requires Quiet(s)
    ensures s.m.Ok() && ConsumerOk(s.m, s.consumer)
    ensures !s.consumer.LinkDummy? ==> (s.m.Next(s.m.tail) == None <==> s.m.t == |s.m.log| - 1)
  {
    if s.m.t < |s.m.log| - 1 {
      assert s.m.LinkAt(s.m.t);
    }
  }

  lemma {:induction false} FinishQuiet(s: State)
    requires Quiet(s) && !s.consumer.Idle?
    ensures Quiet(Finish(s)) && Finish(s).consumer.Idle? && Elems(Finish(s).m.log) == Elems(s.m.log)
    ensures if s.consumer.LoadNext? && s.m.tail == Dummy && s.m.t == |s.m.log| - 1 then Finish(s).returned == s.returned
            else |Finish(s).returned| == |s.returned| + 1
    decreases Rank(s.consumer)
  {
    QuietStep(s);
    var s' := ConsumerStep(s);
    StepRank(s);
    hide Quiet, Elems, ConsumerStep, Rank;
    assert Finish(s) == Finish(s');
    if !s'.consumer.Idle? {
      FinishQuiet(s');
      NotLoadNext(s);
    }
  }

  lemma StepRank(s: State)
    requires !s.consumer.Idle?
    ensures Rank(ConsumerStep(s).consumer) < Rank(s.consumer)
  {}

  lemma NotLoadNext(s: State)
    requires !s.consumer.Idle?
    ensures !ConsumerStep(s).consumer.LoadNext?
  {}

  /**
   * In a reachable state with no producer in its Enqueue, a call of Dequeue returns the first
   * element of the content, and none exactly when the content is empty.
   */
  lemma Alone(states: seq<State>, actions: seq<Action>, k: nat)
    requires Execution(states, actions) && k < |states| && states[k].producers == map[] && states[k].consumer.Idle?
    ensures var s := states[k]; var s' := DequeueAlone(s);
            && s.m.t < |s.m.log| && s'.m.t < |s'.m.log| && s'.consumer.Idle?
            && if Contents(s.m) == [] then s'.returned == s.returned && Contents(s'.m) == []
               else s'.returned == s.returned + [Contents(s.m)[0]] && Contents(s'.m) == Contents(s.m)[1..]
  {
    ExecutionInv(states, actions, k);
    var s := states[k];
    var s1 := ConsumerStep(s);
    StepInv(s, Consume);
    FinishQuiet(s1);
    var s' := DequeueAlone(s);
    ReturnedFirst(s);
    ReturnedFirst(s');
    EmptyContent(s);
    hide Inv, Elems, Contents;
    var r, c, r', c' := s.returned, Contents(s.m), s'.returned, Contents(s'.m);
    assert r + c == r' + c';
    Split(r, c, r', c');
  }

  lemma Split(r: seq<Node>, c: seq<Node>, r': seq<Node>, c': seq<Node>)
    requires r + c == r' + c'
    ensures r' == r ==> c' == c
    ensures |r'| == |r| + 1 ==> c != [] && r' == r + [c[0]] && c' == c[1..]
  {
    if r' == r {
      assert c == (r + c)[|r|..] && c' == (r' + c')[|r|..];
    } else if |r'| == |r| + 1 {
      assert |c| == 1 + |c'|;
      assert r' == (r' + c')[..|r| + 1] == (r + c)[..|r| + 1] == r + [c[0]];
      assert c' == (r' + c')[|r| + 1..] == (r + c)[|r| + 1..] == c[1..];
    }
  }

  lemma ReturnedFirst(s: State)
    requires Inv(s)
    ensures s.m.t < |s.m.log| && Elems(s.m.log) == s.returned + Contents(s.m)
  {
    ElemsConcat(s.m.log[..s.m.t], s.m.log[s.m.t..]);
    assert s.m.log[..s.m.t] + s.m.log[s.m.t..] == s.m.log;
  }

  /** The content is empty exactly when the dummy is the only node. */
  lemma EmptyContent(s: State)
    requires Inv(s)
    ensures s.m.t < |s.m.log| && (Contents(s.m) == [] <==> s.m.tail == Dummy && s.m.t == |s.m.log| - 1)
  {
    var m := s.m;
    if m.tail == Dummy {
      DummyOnly(m);
    } else {
      assert m.log[m.t..] == [m.tail] + m.log[m.t + 1..];
      ElemsConcat([m.tail], m.log[m.t + 1..]);
      assert [m.tail][..0] == [];
    }
  }

  // ----- A failing call -----

  /** The end of an execution. */
  function Last(states: seq<State>): State
    requires states != []
  {
    states[|states| - 1]
  }

  lemma Extend(states: seq<State>, actions: seq<Action>, a: Action) returns (more: seq<State>)
    requires Execution(states, actions) && Enabled(Last(states), a)
    ensures more == states + [Apply(Last(states), a)] && Execution(more, actions + [a]) && Last(more) == Apply(Last(states), a)
  {
    more := states + [Apply(Last(states), a)];
    hide Apply, Enabled, Init;
    forall k | 0 <= k < |actions + [a]|
      ensures Enabled(more[k], (actions + [a])[k]) && more[k + 1] == Apply(more[k], (actions + [a])[k])
    {
      if k < |actions| {
        assert more[k] == states[k] && more[k + 1] == states[k + 1];
      } else {
        assert more[k] == Last(states);
      }
    }
  }

  /** The four steps of an Enqueue with which no other step interleaves. */
  lemma ExtendEnqueue(states: seq<State>, actions: seq<Action>, p: nat, n: Node) returns (more: seq<State>, done: seq<Action>)
    requires Execution(states, actions) && Enabled(Last(states), Call(p, n))
    requires var s := Last(states);
             s.producers == map[] && s.m.pending == map[] && s.m.log != [] && s.m.head != n
    ensures Execution(more, done) && |done| == |actions| + 4
    ensures var s := Last(states);
            Last(more) == s.(m := Memory(n, s.m.tail, s.m.link[n := None][s.m.head := Some(n)], s.m.log + [n], s.m.t, map[]))
  {
    var s := Last(states);
    hide Execution;
    more := Extend(states, actions, Call(p, n));
    done := actions + [Call(p, n)];
    more := Extend(more, done, Produce(p));
    done := done + [Produce(p)];
    more := Extend(more, done, Produce(p));
    done := done + [Produce(p)];
    assert Last(more).producers == map[p := Exchanged(s.m.head, n, |s.m.log| - 1)];
    more := Extend(more, done, Produce(p));
    done := done + [Produce(p)];
    assert Last(more).producers == map[];
    assert Last(more).m.pending == map[];
  }

  /**
   * Dequeue can return false although the queue holds two elements, all links are stored and
   * no producer is active: the second Enqueue runs between the loads of the link and of head.
   */
  lemma FailsBetweenLoads() returns (states: seq<State>, actions: seq<Action>)
    ensures Execution(states, actions) && |states| == 14 && actions[12] == Consume
    ensures var s, s' := states[12], states[13];
            && s.producers == map[] && s.m.pending == map[] && s.m.t == 1 && s.m.log == [Dummy, Elem(0), Elem(1)]
            && s.consumer == LoadHead(Elem(0)) && s'.consumer == Idle && s'.returned == s.returned == []
  {
    states, actions := [State(Memory(Dummy, Dummy, map[], [Dummy], 0, map[]), map[], Idle, [])], [];
    states, actions := ExtendEnqueue(states, actions, 0, Elem(0));
    var s := Last(states);
    states, actions := SkipsDummy(states, actions, Elem(0));
    states, actions := ExtendEnqueue(states, actions, 1, Elem(1));
    var last := Last(states);
    var n := |states|;
    states := Extend(states, actions, Consume);
    actions := actions + [Consume];
    assert states[n - 1] == last;
  }

  /** The consumer skips the dummy, finds no link behind the first element, and is about to load head. */
  lemma SkipsDummy(states: seq<State>, actions: seq<Action>, a: Node) returns (more: seq<State>, done: seq<Action>)
    requires Execution(states, actions) && a.Elem?
    requires var s := Last(states);
             s.consumer == Idle && s.m.tail == Dummy && s.m.Next(Dummy) == Some(a) && s.m.Next(a) == None
    ensures Execution(more, done) && |done| == |actions| + 4
    ensures Last(more) == Last(states).(m := Last(states).m.Advance(a), consumer := LoadHead(a))
  {
    hide Execution;
    more := Extend(states, actions, Consume);
    done := actions + [Consume];
    more := Extend(more, done, Consume);
    done := done + [Consume];
    more := Extend(more, done, Consume);
    done := done + [Consume];
    more := Extend(more, done, Consume);
    done := done + [Consume];
  }
}
