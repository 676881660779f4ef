/** What the non-intrusive queue delivers: the values of the calls of Enqueue, one for every call of Dequeue that runs alone. */
module MpscDelivery {
  import opened Options
  import opened MpscMemory
  import opened MpscNonIntrusive

  // ----- The values are those of the calls -----

  /** An action of producer p. */
  predicate ActionOf(a: Action, p: nat) {
    (a.Call? || a.Produce?) && a.p == p
  }

  /** At step c producer p calls Enqueue, and until step k it takes no other step. */
  ghost predicate LatestCall(actions: seq<Action>, c: nat, k: nat, p: nat) {
    && c < k <= |actions| && actions[c].Call? && actions[c].p == p
    && forall j :: c < j < k ==> !ActionOf(actions[j], p)
  }

  /** At step e producer p makes the exchange of head that belongs to its call at step c. */
  ghost predicate Exchanges(actions: seq<Action>, c: nat, e: nat, p: nat) {
    e < |actions| && LatestCall(actions, c, e, p) && actions[e] == Produce(p)
  }

  lemma Transition(states: seq<State>, actions: seq<Action>, k: nat)
    requires Execution(states, actions) && k < |actions|
    ensures |states| == |actions| + 1 && Enabled(states[k], actions[k])
    ensures states[k + 1] == Apply(states[k], actions[k]) && Inv(states[k])
  {
    ExecutionInv(states, actions, k);
    hide Inv, Enabled, Apply;
  }

  /** After the call, until its next step, the producer holds a node with the value. */
  lemma {:induction false} HeldAfterCall(states: seq<State>, actions: seq<Action>, c: nat, k: nat, p: nat)
    requires Execution(states, actions) && LatestCall(actions, c, k, p)
    ensures p in states[k].producers && states[k].producers[p].Constructed?
    ensures Read(states[k], states[k].producers[p].n) == actions[c].v
    decreases k
  {
    hide Execution, Inv;
    Transition(states, actions, k - 1);
    if c < k - 1 {
      HeldAfterCall(states, actions, c, k - 1, p);
      hide Apply, Enabled;
      SameValue(states[k - 1], actions[k - 1], p);
    }
  }

  /** A producer that has yet to exchange head has called Enqueue. */
  lemma {:induction false} HasCalled(states: seq<State>, actions: seq<Action>, k: nat, p: nat) returns (c: nat)
    requires Execution(states, actions) && k < |states|
    requires p in states[k].producers && states[k].producers[p].Constructed?
    ensures LatestCall(actions, c, k, p)
  {
    var s, a := states[k - 1], actions[k - 1];
    assert states[k] == Apply(s, a) && Enabled(s, a);
    if ActionOf(a, p) {
      c := k - 1;
    } else {
      c := HasCalled(states, actions, k - 1, p);
    }
  }

  lemma SameValue(s: State, a: Action, p: nat)
    requires Inv(s) && Enabled(s, a) && !ActionOf(a, p) && p in s.producers && s.producers[p].Constructed?
    ensures p in Apply(s, a).producers && Apply(s, a).producers[p] == s.producers[p]
    ensures Read(Apply(s, a), s.producers[p].n) == Read(s, s.producers[p].n)
  {
    assert ProducerOk(s, p, s.producers[p]);
    hide Inv;
  }

  /** Call c of Enqueue makes, at step e, the exchange of head number i; its argument is the value number i from then on. */
  ghost predicate Delivered(states: seq<State>, actions: seq<Action>, k: nat, i: nat, c: nat, e: nat, p: nat)
    requires |states| == |actions| + 1 && k < |states|
  {
    && e < k && Exchanges(actions, c, e, p)
    && |states[e].m.log| == i + 1 && |states[e + 1].m.log| == i + 2
    && i < |states[k].vals| && states[k].vals[i] == actions[c].v
  }

  /** The values only grow, by the argument of the call whose exchange is made. */
  lemma ValuesGrow(states: seq<State>, actions: seq<Action>, e: nat)
    requires Execution(states, actions) && e < |actions|
    ensures |states[e].m.log| == |states[e].vals| + 1 && |states[e + 1].m.log| == |states[e + 1].vals| + 1
    ensures states[e].vals <= states[e + 1].vals && |states[e + 1].vals| <= |states[e].vals| + 1
    ensures forall c: nat, p :: Exchanges(actions, c, e, p) ==>
                          states[e + 1].vals == states[e].vals + [actions[c].v]
  {
    ExecutionInv(states, actions, e);
    ExecutionInv(states, actions, e + 1);
    assert states[e + 1] == Apply(states[e], actions[e]);
    forall c: nat, p | Exchanges(actions, c, e, p) ensures states[e + 1].vals == states[e].vals + [actions[c].v] {
      HeldAfterCall(states, actions, c, e, p);
    }
  }

  /** Every value is the argument of a call of Enqueue: of the one whose producer made the exchange with that number. */
  lemma {:induction false} ValueOfCall(states: seq<State>, actions: seq<Action>, k: nat, i: nat) returns (c: nat, e: nat, p: nat)
    requires Execution(states, actions) && k < |states| && i < |states[k].vals|
    ensures Delivered(states, actions, k, i, c, e, p)
    ensures i < |states[k].returned| ==> states[k].returned[i] == actions[c].v
  {
    Fifo(states, actions, k);
    Started(states, actions);
    hide Execution;
    ValuesGrow(states, actions, k - 1);
    if i < |states[k - 1].vals| {
      c, e, p := ValueOfCall(states, actions, k - 1, i);
      StillDelivered(states, actions, k - 1, i, c, e, p);
    } else {
      e := k - 1;
      p := Exchanger(states, actions, e);
      c := HasCalled(states, actions, e, p);
      assert Exchanges(actions, c, e, p);
    }
  }

  lemma Started(states: seq<State>, actions: seq<Action>)
    requires Execution(states, actions)
    ensures |states| == |actions| + 1 && states[0].vals == []
  {}

  /** Only an exchange of a producer makes the values longer. */
  lemma Exchanger(states: seq<State>, actions: seq<Action>, e: nat) returns (p: nat)
    requires Execution(states, actions) && e < |actions| && |states[e + 1].vals| > |states[e].vals|
    ensures p in states[e].producers && states[e].producers[p].Constructed? && actions[e] == Produce(p)
  {
    Transition(states, actions, e);
    hide Execution, Inv;
    p := actions[e].p;
  }

  lemma StillDelivered(states: seq<State>, actions: seq<Action>, k: nat, i: nat, c: nat, e: nat, p: nat)
    requires Execution(states, actions) && k + 1 < |states| && Delivered(states, actions, k, i, c, e, p)
    ensures Delivered(states, actions, k + 1, i, c, e, p)
  {
    ValuesGrow(states, actions, k);
    hide Execution, Exchanges;
  }

  /** Every call of Enqueue delivers its argument with its exchange of head, once. */
  lemma {:induction false} CallDelivers(states: seq<State>, actions: seq<Action>, k: nat, c: nat, e: nat, p: nat) returns (i: nat)
    requires Execution(states, actions) && k < |states| && e < k
    requires Exchanges(actions, c, e, p)
    ensures Delivered(states, actions, k, i, c, e, p)
    decreases k
  {
    Started(states, actions);
    hide Execution;
    if e == k - 1 {
      ValuesGrow(states, actions, e);
      i := |states[e].vals|;
    } else {
      i := CallDelivers(states, actions, k - 1, c, e, p);
      StillDelivered(states, actions, k - 1, i, c, e, p);
    }
  }

  // ----- A call of Dequeue that runs alone -----

  /** How far the consumer is at most from the end of its call. */
  function Rank(c: ConsumerState): nat {
    match c
    case Idle => 0
    case Delete(_, _) => 1
    case StoreTail(_, _, _) => 2
    case ReadData(_, _) => 3
    case LoadNext(_) => 4
  }

  /** The consumer runs to the end of its call; nobody else moves. */
  function Finish(s: State): State
    decreases Rank(s.consumer)
  {
    if s.consumer.Idle? then s else Finish(ConsumerStep(s))
  }

  /** A whole call of Dequeue. */
  function DequeueAlone(s: State): State
    requires s.consumer.Idle?
  {
    Finish(ConsumerStep(s))
  }

  /** With no producer active and the tail not the last node, the call goes through. */
  lemma FinishFrom(s: State)
    requires Inv(s) && s.producers == map[] && !s.consumer.Idle?
    ensures var s' := Finish(s);
            && Inv(s') && s'.consumer.Idle? && s'.producers == map[] && s'.vals == s.vals
            && |s'.returned| == |s.returned| + if s.consumer.LoadNext? && |s.returned| == |s.vals| then 0 else 1
    decreases Rank(s.consumer)
  {
    StepInv(s, Consume);
    AloneStep(s);
    var s1 := ConsumerStep(s);
    hide Inv, ConsumerStep;
    assert Finish(s) == Finish(s1);
    if !s1.consumer.Idle? {
      FinishFrom(s1);
    }
  }

  lemma AloneStep(s: State)
    requires Inv(s) && s.producers == map[] && !s.consumer.Idle?
    ensures var s' := ConsumerStep(s);
            && s'.producers == map[] && s'.vals == s.vals && Rank(s'.consumer) < Rank(s.consumer)
            && !s'.consumer.LoadNext?
            && (s'.consumer.Idle? <==> s.consumer.Delete? || (s.consumer.LoadNext? && |s.returned| == |s.vals|))
            && |s'.returned| == |s.returned| + if s.consumer.Delete? then 1 else 0
  {
    if s.m.t < |s.m.log| - 1 {
      assert s.m.LinkAt(s.m.t);
    }
  }

  /**
   * In a reachable state with no producer in its Enqueue, a call of Dequeue returns the next
   * value in the order of the exchanges, and none exactly when all have been returned.
   */
  lemma Alone(states: seq<State>, actions: seq<Action>, k: nat)
    requires Execution(states, actions) && k < |states| && states[k].producers == map[] && states[k].consumer.Idle?
    ensures var s := states[k]; var s' := DequeueAlone(s);
            && s'.consumer.Idle? && s'.vals == s.vals
            && if s.returned == s.vals then s'.returned == s.returned
               else |s.returned| < |s.vals| && s'.returned == s.returned + [s.vals[|s.returned|]]
  {
    ExecutionInv(states, actions, k);
    var s := states[k];
    StepInv(s, Consume);
    FinishFrom(ConsumerStep(s));
    Prefixes(s);
    Prefixes(DequeueAlone(s));
    hide Inv;
  }

  lemma Prefixes(s: State)
    requires Inv(s)
    ensures s.returned <= s.vals
  {}

  // ----- Nodes that are not live -----

  /** The states are the same but for links and elements of nodes that are not live. */
  ghost predicate SameLive(s: State, t: State) {
    && t.m == s.m.(link := t.m.link) && t == s.(m := t.m, data := t.data)
    && forall n :: n in s.owner ==> t.m.Next(n) == s.m.Next(n) && Read(t, n) == Read(s, n)
  }

  /**
   * What a node holds before it is allocated or after it is deleted never matters: no action
   * reads it, and none changes it, but for the call that allocates the node.
   */
  lemma DeadNodesIrrelevant(states: seq<State>, actions: seq<Action>, k: nat, other: State)
    requires Execution(states, actions) && k < |actions| && SameLive(states[k], other)
    ensures Enabled(other, actions[k]) && SameLive(states[k + 1], Apply(other, actions[k]))
    ensures forall n :: n !in states[k].owner && (actions[k].Call? ==> actions[k].n != n) ==>
                          states[k + 1].m.Next(n) == states[k].m.Next(n) && Read(states[k + 1], n) == Read(states[k], n)
  {
    Transition(states, actions, k);
    hide Execution;
    var s, a := states[k], actions[k];
    match a {
      case Call(p, n, v) => SameCall(s, other, p, n, v);
      case Produce(p) => SameProduce(s, other, p);
      case Consume => SameConsume(s, other);
    }
  }

  lemma SameCall(s: State, t: State, p: nat, n: nat, v: int)
    requires SameLive(s, t) && Enabled(s, Call(p, n, v))
    ensures SameLive(Construct(s, p, n, v), Construct(t, p, n, v))
    ensures forall i :: i != n ==> Construct(s, p, n, v).m.Next(i) == s.m.Next(i) && Read(Construct(s, p, n, v), i) == Read(s, i)
  {}

  lemma ProducerLive(s: State, p: nat)
    requires Inv(s) && p in s.producers
    ensures match s.producers[p]
            case Constructed(n) => n in s.owner
            case Exchanged(prev, _, _) => prev in s.owner
  {
    assert ProducerOk(s, p, s.producers[p]);
    if s.producers[p].Exchanged? {
      assert QueuedAt(s, s.producers[p].at);
    }
  }

  lemma SameProduce(s: State, t: State, p: nat)
    requires Inv(s) && SameLive(s, t) && p in s.producers
    ensures SameLive(ProducerStep(s, p), ProducerStep(t, p))
    ensures forall n :: n !in s.owner ==>
                          ProducerStep(s, p).m.Next(n) == s.m.Next(n) && Read(ProducerStep(s, p), n) == Read(s, n)
  {
    hide *;
    ProducerLive(s, p);
    match s.producers[p]
    case Constructed(n) => SameExchange(s, t, p, n);
    case Exchanged(prev, n, at) => SameLink(s, t, p, prev, n, at);
  }

  lemma SameExchange(s: State, t: State, p: nat, n: nat)
    requires SameLive(s, t) && p in s.producers && s.producers[p] == Constructed(n) && n in s.owner
    ensures SameLive(ProducerStep(s, p), ProducerStep(t, p))
    ensures forall i :: ProducerStep(s, p).m.Next(i) == s.m.Next(i) && Read(ProducerStep(s, p), i) == Read(s, i)
  {
    assert Read(t, n) == Read(s, n);
    assert ProducerStep(s, p).owner.Keys == s.owner.Keys;
  }

  lemma SameLink(s: State, t: State, p: nat, prev: nat, n: nat, at: int)
    requires SameLive(s, t) && p in s.producers && s.producers[p] == Exchanged(prev, n, at) && prev in s.owner
    ensures SameLive(ProducerStep(s, p), ProducerStep(t, p))
    ensures forall i :: i !in s.owner ==>
                          ProducerStep(s, p).m.Next(i) == s.m.Next(i) && Read(ProducerStep(s, p), i) == Read(s, i)
  {}

  lemma ConsumerLive(s: State)
    requires Inv(s)
    ensures s.consumer.LoadNext? ==> s.consumer.tail in s.owner
    ensures s.consumer.ReadData? ==> s.consumer.next in s.owner
    ensures s.consumer.StoreTail? ==> s.consumer.tail in s.owner
  {
    assert QueuedAt(s, s.m.t);
    if s.consumer.ReadData? {
      LinkedTail(s.m, s.consumer.next);
      assert QueuedAt(s, s.m.t + 1);
    }
  }

  lemma SameConsume(s: State, t: State)
    requires Inv(s) && SameLive(s, t)
    ensures SameLive(ConsumerStep(s), ConsumerStep(t))
    ensures forall n :: ConsumerStep(s).m.Next(n) == s.m.Next(n) && Read(ConsumerStep(s), n) == Read(s, n)
  {
    hide *;
    ConsumerLive(s);
    if s.consumer.Idle? || s.consumer.LoadNext? || s.consumer.ReadData? {
      SameLoad(s, t);
    } else if s.consumer.StoreTail? {
      SameStore(s, t);
    } else {
      SameDelete(s, t);
    }
  }

  lemma SameLoad(s: State, t: State)
    requires SameLive(s, t) && (s.consumer.Idle? || s.consumer.LoadNext? || s.consumer.ReadData?)
    requires s.consumer.LoadNext? ==> s.consumer.tail in s.owner
    requires s.consumer.ReadData? ==> s.consumer.next in s.owner
    ensures SameLive(ConsumerStep(s), ConsumerStep(t))
    ensures forall n :: ConsumerStep(s).m.Next(n) == s.m.Next(n) && Read(ConsumerStep(s), n) == Read(s, n)
  {}

  lemma SameStore(s: State, t: State)
    requires SameLive(s, t) && s.consumer.StoreTail? && s.consumer.tail in s.owner
    ensures SameLive(ConsumerStep(s), ConsumerStep(t))
    ensures forall n :: ConsumerStep(s).m.Next(n) == s.m.Next(n) && Read(ConsumerStep(s), n) == Read(s, n)
  {
    assert ConsumerStep(s).owner.Keys == s.owner.Keys;
  }

  lemma SameDelete(s: State, t: State)
    requires SameLive(s, t) && s.consumer.Delete?
    ensures SameLive(ConsumerStep(s), ConsumerStep(t))
    ensures forall n :: ConsumerStep(s).m.Next(n) == s.m.Next(n) && Read(ConsumerStep(s), n) == Read(s, n)
  {}
}
