/**
 * The intrusive multi-producer single-consumer queue by Vyukov as a transition system. Every
 * atomic load, store and exchange is one step; the steps of any number of producers and of
 * the single consumer interleave in any order, sequentially consistent.
 */
module MpscIntrusive {
  import opened MpscMemory
  import opened Options

  /** The dummy node belongs to the queue; elements are the nodes of the users. */
  datatype Node = Dummy | Elem(id: nat)

  /** Where a producer is inside Enqueue(n). */
  datatype ProducerState =
    | Start(n: Node)                              // link of n not yet cleared
    | Cleared(n: Node)                            // head not yet exchanged
    | Exchanged(prev: Node, n: Node, at: int)     // link of prev, which is log[at], not yet stored

  /** Where the consumer is inside Dequeue, with its local variables. */
  datatype ConsumerState =
    | Idle
    | LoadNext(tail: Node)
    | SkipDummy(next: Node)
    | LoadNextAgain(tail: Node)
    | StoreTail(tail: Node, next: Node)
    | LoadHead(tail: Node)
    | ClearDummy(tail: Node)
    | ExchangeDummy(tail: Node)
    | LinkDummy(tail: Node, prev: Node, at: int)
    | LoadNextLast(tail: Node)

  /** returned lists the elements for which Dequeue has returned true, in order. */
  datatype State = State(m: Memory<Node>, producers: map<nat, ProducerState>, consumer: ConsumerState, returned: seq<Node>)

  datatype Action =
    | Call(p: nat, n: Node)     // producer p calls Enqueue(n)
    | Produce(p: nat)           // the next atomic access of producer p
    | Consume                   // the next atomic access of the consumer; starts a Dequeue when idle

  // ----- Steps -----

  /** The node a producer is about to insert and that no other thread may touch. */
  ghost predicate Holds(p: ProducerState, n: Node) {
    !p.Exchanged? && p.n == n
  }

  /** A producer may enqueue an element that is neither queued nor being enqueued. */
  ghost predicate Enabled(s: State, a: Action) {
    match a
    case Call(p, n) =>
      && p !in s.producers && n.Elem? && s.m.Outside(n)
      && forall q :: q in s.producers ==> !Holds(s.producers[q], n)
    case Produce(p) => p in s.producers
    case Consume => true
  }

  function ProducerStep(s: State, p: nat): State
    requires p in s.producers
  {
    match s.producers[p]
    case Start(n) => s.(m := s.m.Clear(n), producers := s.producers[p := Cleared(n)])
    case Cleared(n) =>
      s.(m := s.m.Exchange(n, Producer(p)), producers := s.producers[p := Exchanged(s.m.head, n, |s.m.log| - 1)])
    case Exchanged(prev, n, at) => s.(m := s.m.Link(prev, n, at), producers := s.producers - {p})
  }

  function ConsumerStep(s: State): State {
    match s.consumer
    case Idle => s.(consumer := LoadNext(s.m.tail))
    case LoadNext(tail) =>
      (match s.m.Next(tail)
       case None => s.(consumer := if tail == Dummy then Idle else LoadHead(tail))
       case Some(next) => s.(consumer := if tail == Dummy then SkipDummy(next) else StoreTail(tail, next)))
    case SkipDummy(next) => s.(m := s.m.Advance(next), consumer := LoadNextAgain(next))
    case LoadNextAgain(tail) =>
      (match s.m.Next(tail)
       case None => s.(consumer := LoadHead(tail))
       case Some(next) => s.(consumer := StoreTail(tail, next)))
    case StoreTail(tail, next) => s.(m := s.m.Advance(next), consumer := Idle, returned := s.returned + [tail])
    case LoadHead(tail) => s.(consumer := if tail != s.m.head then Idle else ClearDummy(tail))
    case ClearDummy(tail) => s.(m := s.m.Clear(Dummy), consumer := ExchangeDummy(tail))
    case ExchangeDummy(tail) =>
      s.(m := s.m.Exchange(Dummy, Consumer), consumer := LinkDummy(tail, s.m.head, |s.m.log| - 1))
    case LinkDummy(tail, prev, at) => s.(m := s.m.Link(prev, Dummy, at), consumer := LoadNextLast(tail))
    case LoadNextLast(tail) =>
      (match s.m.Next(tail)
       case None => s.(consumer := Idle)
       case Some(next) => s.(consumer := StoreTail(tail, next)))
  }

  function Apply(s: State, a: Action): State
    requires a.Produce? ==> a.p in s.producers
  {
    match a
    case Call(p, n) => s.(producers := s.producers[p := Start(n)])
    case Produce(p) => ProducerStep(s, p)
    case Consume => ConsumerStep(s)
  }

  ghost predicate Init(s: State) {
    && s.m.head == Dummy && s.m.tail == Dummy && s.m.Next(Dummy) == None
    && s.m.log == [Dummy] && s.m.t == 0 && s.m.pending == map[]
    && s.producers == map[] && s.consumer == Idle && s.returned == []
  }

  /** A finite execution: any interleaving of enabled actions. */
  ghost predicate Execution(states: seq<State>, actions: seq<Action>) {
    && |states| == |actions| + 1 && Init(states[0])
    && forall k :: 0 <= k < |actions| ==> Enabled(states[k], actions[k]) && states[k + 1] == Apply(states[k], actions[k])
  }

  // ----- The invariant -----

  ghost predicate ProducerOk(m: Memory<Node>, p: nat, s: ProducerState) {
    match s
    case Start(n) => n.Elem? && m.Outside(n)
    case Cleared(n) => n.Elem? && m.Outside(n) && m.Next(n) == None
    case Exchanged(prev, n, at) =>
      && at in m.pending && m.pending[at] == Producer(p)
      && m.t <= at < |m.log| - 1 && m.log[at] == prev && m.log[at + 1] == n && n.Elem?
  }

  ghost predicate ProducersOk(m: Memory<Node>, producers: map<nat, ProducerState>) {
    && (forall p :: p in producers ==> ProducerOk(m, p, producers[p]))
    && (forall p, q :: p in producers && q in producers && p != q && !producers[p].Exchanged? ==>
          !Holds(producers[q], producers[p].n))
  }

  ghost predicate ConsumerOk(m: Memory<Node>, c: ConsumerState) {
    match c
    case Idle => true
    case LoadNext(tail) => tail == m.tail
    case SkipDummy(next) => m.tail == Dummy && m.Next(Dummy) == Some(next)
    case LoadNextAgain(tail) => tail == m.tail && tail != Dummy
    case StoreTail(tail, next) => tail == m.tail && tail != Dummy && m.Next(tail) == Some(next)
    case LoadHead(tail) => tail == m.tail && tail != Dummy
    case ClearDummy(tail) => tail == m.tail && tail != Dummy && m.Outside(Dummy)
    case ExchangeDummy(tail) => tail == m.tail && tail != Dummy && m.Outside(Dummy) && m.Next(Dummy) == None
    case LinkDummy(tail, prev, at) =>
      && tail == m.tail && tail != Dummy
      && at in m.pending && m.pending[at] == Consumer
      && m.t <= at < |m.log| - 1 && m.log[at] == prev && m.log[at + 1] == Dummy
    case LoadNextLast(tail) => tail == m.tail && tail != Dummy && m.t < |m.log| - 1
  }

  /** Every pending store belongs to a thread that is about to perform it. */
  ghost predicate PendingOk(s: State) {
    forall i :: i in s.m.pending ==>
      match s.m.pending[i]
      case Consumer => s.consumer.LinkDummy? && s.consumer.at == i
      case Producer(p) => p in s.producers && s.producers[p].Exchanged? && s.producers[p].at == i
  }

  /** The elements of a log, without the dummies. */
  function Elems(log: seq<Node>): seq<Node> {
    if log == [] then []
    else
      var last := log[|log| - 1];
      Elems(log[..|log| - 1]) + if last == Dummy then [] else [last]
  }

  ghost predicate Inv(s: State) {
    && s.m.Ok() && ProducersOk(s.m, s.producers) && ConsumerOk(s.m, s.consumer) && PendingOk(s)
    && s.returned == Elems(s.m.log[..s.m.t])
  }

  // ----- What they leave of the conditions of the threads -----

  lemma ClearElsewhere(m: Memory<Node>, n: Node, p: nat, s: ProducerState)
    requires m.Ok() && m.Outside(n) && ProducerOk(m, p, s)
    ensures ProducerOk(m.Clear(n), p, s)
  {}

  lemma ClearConsumer(m: Memory<Node>, n: Node, c: ConsumerState)
    requires m.Ok() && m.Outside(n) && n != Dummy && ConsumerOk(m, c)
    ensures ConsumerOk(m.Clear(n), c)
  {}

  lemma ExchangeElsewhere(m: Memory<Node>, n: Node, w: Thread, p: nat, s: ProducerState)
    requires m.Ok() && ProducerOk(m, p, s) && !Holds(s, n)
    ensures ProducerOk(m.Exchange(n, w), p, s)
  {
  }

  lemma ExchangeConsumer(m: Memory<Node>, n: Node, w: Thread, c: ConsumerState)
    requires m.Ok() && n != Dummy && ConsumerOk(m, c)
    ensures ConsumerOk(m.Exchange(n, w), c)
  {
  }

  lemma LinkElsewhere(m: Memory<Node>, at: int, p: nat, s: ProducerState)
    requires m.Ok() && at in m.pending && ProducerOk(m, p, s) && m.pending[at] != Producer(p)
    ensures ProducerOk(m.Link(m.log[at], m.log[at + 1], at), p, s)
  {}

  lemma LinkConsumer(m: Memory<Node>, at: int, c: ConsumerState)
    requires m.Ok() && at in m.pending && ConsumerOk(m, c) && m.pending[at] != Consumer
    ensures ConsumerOk(m.Link(m.log[at], m.log[at + 1], at), c)
  {
    assert m.LinkAt(at);
  }

  lemma AdvanceElsewhere(m: Memory<Node>, next: Node, p: nat, s: ProducerState)
    requires m.Ok() && m.Next(m.tail) == Some(next) && ProducerOk(m, p, s)
    ensures ProducerOk(m.Advance(next), p, s)
  {
    LinkedTail(m, next);
  }

  // ----- Every step keeps the invariant -----

  lemma CallInv(s: State, p: nat, n: Node)
    requires Inv(s) && Enabled(s, Call(p, n))
    ensures Inv(Apply(s, Call(p, n)))
  {}

  lemma ClearInv(s: State, p: nat)
    requires Inv(s) && p in s.producers && s.producers[p].Start?
    ensures Inv(ProducerStep(s, p))
  {
    IndependenceKept(s, p);
    PendingKept(s, p);
    hide PendingOk;
    var s', n := ProducerStep(s, p), s.producers[p].n;
    ClearKeeps(s.m, n);
    ClearConsumer(s.m, n, s.consumer);
    forall q | q in s.producers && q != p ensures ProducerOk(s'.m, q, s'.producers[q]) {
      ClearElsewhere(s.m, n, q, s.producers[q]);
    }
  }

  /** Pairs of producers stay independent when one of them has moved on to a state that holds no node or the same node. */
  lemma IndependenceKept(s: State, p: nat)
    requires Inv(s) && p in s.producers
    ensures var ps := ProducerStep(s, p).producers;
            forall q, r :: q in ps && r in ps && q != r && !ps[q].Exchanged? ==> !Holds(ps[r], ps[q].n)
  {}

  lemma PendingKept(s: State, p: nat)
    requires Inv(s) && p in s.producers
    ensures PendingOk(ProducerStep(s, p))
  {
    if s.producers[p].Exchanged? {
      assert ProducerOk(s.m, p, s.producers[p]);
    } else if s.producers[p].Cleared? {
      assert |s.m.log| - 1 !in s.m.pending;
    }
  }

  lemma ExchangeInv(s: State, p: nat)
    requires Inv(s) && p in s.producers && s.producers[p].Cleared?
    ensures Inv(ProducerStep(s, p))
  {
    IndependenceKept(s, p);
    PendingKept(s, p);
    hide PendingOk;
    var s', n := ProducerStep(s, p), s.producers[p].n;
    ExchangeKeeps(s.m, n, Producer(p));
    ExchangeConsumer(s.m, n, Producer(p), s.consumer);
    forall q | q in s.producers && q != p ensures ProducerOk(s'.m, q, s'.producers[q]) {
      ExchangeElsewhere(s.m, n, Producer(p), q, s.producers[q]);
    }
    assert s'.m.log[..s'.m.t] == s.m.log[..s.m.t];
  }

  lemma LinkInv(s: State, p: nat)
    requires Inv(s) && p in s.producers && s.producers[p].Exchanged?
    ensures Inv(ProducerStep(s, p))
  {
    IndependenceKept(s, p);
    PendingKept(s, p);
    hide PendingOk;
    var s', at := ProducerStep(s, p), s.producers[p].at;
    LinkKeeps(s.m, at);
    LinkConsumer(s.m, at, s.consumer);
    forall q | q in s'.producers ensures ProducerOk(s'.m, q, s'.producers[q]) {
      assert s.m.pending[at] == Producer(p);
      LinkElsewhere(s.m, at, q, s.producers[q]);
    }
  }

  lemma ProducerInv(s: State, p: nat)
    requires Inv(s) && p in s.producers
    ensures Inv(ProducerStep(s, p))
  {
    match s.producers[p] {
      case Start(_) => ClearInv(s, p);
      case Cleared(_) => ExchangeInv(s, p);
      case Exchanged(_, _, _) => LinkInv(s, p);
    }
  }

  lemma AdvanceInv(s: State, next: Node, c: ConsumerState, returned: seq<Node>)
    requires Inv(s) && s.m.Next(s.m.tail) == Some(next) && !s.consumer.LinkDummy?
    requires c == Idle || (c == LoadNextAgain(next) && next != Dummy)
    requires returned == s.returned + if s.m.tail == Dummy then [] else [s.m.tail]
    ensures Inv(State(s.m.Advance(next), s.producers, c, returned))
  {
    var m' := s.m.Advance(next);
    LinkedTail(s.m, next);
    AdvanceKeeps(s.m, next);
    forall p | p in s.producers ensures ProducerOk(m', p, s.producers[p]) {
      AdvanceElsewhere(s.m, next, p, s.producers[p]);
    }
    assert m'.log[..m'.t][..|m'.log[..m'.t]| - 1] == s.m.log[..s.m.t];
  }

  /** A step that only changes the local state of the consumer. */
  lemma LocalInv(s: State, c: ConsumerState)
    requires Inv(s) && !s.consumer.LinkDummy? && ConsumerOk(s.m, c)
    ensures Inv(s.(consumer := c))
  {}

  lemma ClearDummyInv(s: State)
    requires Inv(s) && s.consumer.ClearDummy?
    ensures Inv(ConsumerStep(s))
  {
    ClearKeeps(s.m, Dummy);
    forall p | p in s.producers ensures ProducerOk(s.m.Clear(Dummy), p, s.producers[p]) {
      ClearElsewhere(s.m, Dummy, p, s.producers[p]);
    }
  }

  lemma ExchangeDummyInv(s: State)
    requires Inv(s) && s.consumer.ExchangeDummy?
    ensures Inv(ConsumerStep(s))
  {
    var m' := s.m.Exchange(Dummy, Consumer);
    ExchangeKeeps(s.m, Dummy, Consumer);
    forall p | p in s.producers ensures ProducerOk(m', p, s.producers[p]) {
      ExchangeElsewhere(s.m, Dummy, Consumer, p, s.producers[p]);
    }
    assert m'.log[..m'.t] == s.m.log[..s.m.t];
  }

  lemma LinkDummyInv(s: State)
    requires Inv(s) && s.consumer.LinkDummy?
    ensures Inv(ConsumerStep(s))
  {
    var at := s.consumer.at;
    LinkKeeps(s.m, at);
    forall p | p in s.producers ensures ProducerOk(s.m.Link(s.consumer.prev, Dummy, at), p, s.producers[p]) {
      LinkElsewhere(s.m, at, p, s.producers[p]);
    }
  }

  lemma OnlyNode(s: State)
    requires Inv(s) && s.consumer.LoadHead? && s.consumer.tail == s.m.head
    ensures s.m.Outside(Dummy)
  {
    assert s.m.t == |s.m.log| - 1;
  }

  lemma ConsumerInv(s: State)
    requires Inv(s)
    ensures Inv(ConsumerStep(s))
  {
    match s.consumer {
      case SkipDummy(next) =>
        LinkedTail(s.m, next);
        AdvanceInv(s, next, LoadNextAgain(next), s.returned);
      case StoreTail(tail, next) => AdvanceInv(s, next, Idle, s.returned + [tail]);
      case ClearDummy(_) => ClearDummyInv(s);
      case ExchangeDummy(_) => ExchangeDummyInv(s);
      case LinkDummy(_, _, _) => LinkDummyInv(s);
      case LoadHead(tail) =>
        if tail == s.m.head {
          OnlyNode(s);
        }
        LocalInv(s, ConsumerStep(s).consumer);
      case _ => LocalInv(s, ConsumerStep(s).consumer);
    }
  }

  lemma StepInv(s: State, a: Action)
    requires Inv(s) && Enabled(s, a)
    ensures Inv(Apply(s, a))
  {
    match a {
      case Call(p, n) => CallInv(s, p, n);
      case Produce(p) => ProducerInv(s, p);
      case Consume => ConsumerInv(s);
    }
  }

  // ----- What the invariant gives -----

  /** Every state of every execution satisfies the invariant. */
  lemma {:induction false} ExecutionInv(states: seq<State>, actions: seq<Action>, k: nat)
    requires Execution(states, actions) && k < |states|
    ensures Inv(states[k])
  {
    if k == 0 {
      assert states[0].m.log[..0] == [];
    } else {
      ExecutionInv(states, actions, k - 1);
      StepInv(states[k - 1], actions[k - 1]);
    }
  }

  lemma {:induction false} ElemsConcat(a: seq<Node>, b: seq<Node>)
    ensures Elems(a + b) == Elems(a) + Elems(b)
    decreases |b|
  {
    if b == [] {
      assert a + b == a;
    } else {
      var last := |b| - 1;
      ElemsConcat(a, b[..last]);
      assert (a + b)[..|a + b| - 1] == a + b[..last];
    }
  }

  /** The content of the queue: exchanged into head and not yet returned. */
  function Contents(m: Memory<Node>): seq<Node>
    requires m.t <= |m.log|
  {
    Elems(m.log[m.t..])
  }

  /**
   * In every interleaving the elements returned so far are exactly the first elements
   * exchanged into head, in that order and each once; what remains is the content. From
   * tail on every node, the dummy included, occurs at most once.
   */
  lemma Fifo(states: seq<State>, actions: seq<Action>, k: nat)
    requires Execution(states, actions) && k < |states|
    ensures states[k].m.t < |states[k].m.log|
    ensures Elems(states[k].m.log) == states[k].returned + Contents(states[k].m)
    ensures forall i, j :: states[k].m.t <= i < j < |states[k].m.log| ==> states[k].m.log[i] != states[k].m.log[j]
    ensures Dummy !in states[k].returned
  {
    ExecutionInv(states, actions, k);
    var m := states[k].m;
    ElemsConcat(m.log[..m.t], m.log[m.t..]);
    assert m.log[..m.t] + m.log[m.t..] == m.log;
    NoDummy(m.log[..m.t]);
  }

  lemma {:induction false} NoDummy(log: seq<Node>)
    ensures Dummy !in Elems(log)
  {
    if log != [] {
      NoDummy(log[..|log| - 1]);
    }
  }

  /** A thread still has a store into the link of n ahead of it. */
  ghost predicate WillWrite(s: State, n: Node) {
    || (exists p :: p in s.producers && (Holds(s.producers[p], n) || (s.producers[p].Exchanged? && s.producers[p].prev == n)))
    || (s.consumer.LinkDummy? && s.consumer.prev == n)
    || (s.consumer.ClearDummy? && n == Dummy)
  }

  /** When Dequeue returns an element, no thread will write to it any more and the queue no longer reaches it. */
  lemma ReturnedIsFree(states: seq<State>, actions: seq<Action>, k: nat)
    requires Execution(states, actions) && k < |actions|
    requires actions[k] == Consume && states[k].consumer.StoreTail?
    ensures var s, n := states[k + 1], states[k].consumer.tail;
            && s.returned == states[k].returned + [n]
            && !WillWrite(s, n) && s.m.Outside(n)
  {
    ExecutionInv(states, actions, k);
    var s, s' := states[k], states[k + 1];
    assert s' == ConsumerStep(s);
    var n := s.consumer.tail;
    LinkedTail(s.m, s.consumer.next);
    assert s.m.log[s.m.t] == n;
    forall p | p in s.producers
      ensures !Holds(s.producers[p], n) && !(s.producers[p].Exchanged? && s.producers[p].prev == n)
    {
      assert ProducerOk(s.m, p, s.producers[p]);
    }
  }

  // ----- Returning false -----

  /** A producer has exchanged the node after tail into head and not yet stored the link to it. */
  ghost predicate Broken(s: State) {
    exists p :: p in s.producers && s.producers[p].Exchanged? && s.producers[p].at == s.m.t
  }

  /** The link of tail is missing exactly if tail is the last node or the list is broken behind it. */
  lemma MissingLink(s: State)
    requires Inv(s) && !s.consumer.LinkDummy?
    ensures s.m.Next(s.m.tail) == None <==> s.m.t == |s.m.log| - 1 || Broken(s)
    ensures Broken(s) ==> s.m.t < |s.m.log| - 1
  {
    if s.m.t < |s.m.log| - 1 {
      assert s.m.LinkAt(s.m.t);
    }
    if Broken(s) {
      var p :| p in s.producers && s.producers[p].Exchanged? && s.producers[p].at == s.m.t;
      assert ProducerOk(s.m, p, s.producers[p]);
    }
  }

  /** Step j is the load of the link of tail that the consumer acts upon at step k, which is its load of head. */
  ghost predicate LoadedAt(states: seq<State>, actions: seq<Action>, j: nat, k: nat) {
    && j < k < |states| && j < |actions| && actions[j] == Consume && Inv(states[j])
    && (states[j].consumer.LoadNext? || states[j].consumer.LoadNextAgain?)
    && states[j].m.Next(states[j].m.tail) == None && states[j].m.t == states[k].m.t
    && |states[j].m.log| <= |states[k].m.log|
    && forall i :: j < i <= k ==> states[i].consumer == states[k].consumer
  }

  lemma {:induction false} LastLoad(states: seq<State>, actions: seq<Action>, k: nat) returns (j: nat)
    requires Execution(states, actions) && k < |states| && states[k].consumer.LoadHead?
    ensures LoadedAt(states, actions, j, k)
  {
    BeforeLoadHead(states, actions, k);
    hide *;
    if actions[k - 1] == Consume {
      j := k - 1;
      JustLoaded(states, actions, j);
    } else {
      j := LastLoad(states, actions, k - 1);
      StillLoaded(states, actions, j, k);
    }
  }

  lemma BeforeLoadHead(states: seq<State>, actions: seq<Action>, k: nat)
    requires Execution(states, actions) && k < |states| && states[k].consumer.LoadHead?
    ensures 0 < k <= |actions| && Inv(states[k - 1]) && states[k].m.t == states[k - 1].m.t
    ensures |states[k - 1].m.log| <= |states[k].m.log|
    ensures var s := states[k - 1];
            if actions[k - 1] == Consume then (s.consumer.LoadNext? || s.consumer.LoadNextAgain?) && s.m.Next(s.m.tail) == None
            else s.consumer == states[k].consumer
  {
    StepBefore(states, actions, k);
    hide *;
    LoadHeadBefore(states[k - 1], actions[k - 1]);
  }

  /** The step that led to a state, if it is not the first one. */
  lemma StepBefore(states: seq<State>, actions: seq<Action>, k: nat)
    requires Execution(states, actions) && k < |states| && !states[k].consumer.Idle?
    ensures 0 < k <= |actions| && Inv(states[k - 1]) && Enabled(states[k - 1], actions[k - 1])
    ensures states[k] == Apply(states[k - 1], actions[k - 1])
  {
    assert k > 0;
    ExecutionInv(states, actions, k - 1);
    assert states[k - 1 + 1] == Apply(states[k - 1], actions[k - 1]);
    hide Inv, Apply, Enabled;
  }

  lemma JustLoaded(states: seq<State>, actions: seq<Action>, j: nat)
    requires j + 1 < |states| && j < |actions| && actions[j] == Consume && Inv(states[j])
    requires states[j].consumer.LoadNext? || states[j].consumer.LoadNextAgain?
    requires states[j].m.Next(states[j].m.tail) == None && states[j].m.t == states[j + 1].m.t
    requires |states[j].m.log| <= |states[j + 1].m.log|
    ensures LoadedAt(states, actions, j, j + 1)
  {
    hide Inv;
  }

  lemma StillLoaded(states: seq<State>, actions: seq<Action>, j: nat, k: nat)
    requires 0 < k < |states| && LoadedAt(states, actions, j, k - 1)
    requires states[k].consumer == states[k - 1].consumer && states[k].m.t == states[k - 1].m.t
    requires |states[k - 1].m.log| <= |states[k].m.log|
    ensures LoadedAt(states, actions, j, k)
  {
    hide Inv;
  }

  lemma LoadHeadBefore(s: State, a: Action)
    requires Inv(s) && Enabled(s, a) && Apply(s, a).consumer.LoadHead?
    ensures Apply(s, a).m.t == s.m.t && |s.m.log| <= |Apply(s, a).m.log|
    ensures a == Consume ==> (s.consumer.LoadNext? || s.consumer.LoadNextAgain?) && s.m.Next(s.m.tail) == None
    ensures a != Consume ==> s.consumer == Apply(s, a).consumer
  {
    assert ConsumerOk(s.m, s.consumer);
    hide Inv, Enabled;
  }

  /** Step k ends a call of Dequeue that returns false. */
  ghost predicate ReturnsFalse(states: seq<State>, actions: seq<Action>, k: nat)
    requires k < |actions| && k + 1 < |states|
  {
    && actions[k] == Consume && !states[k].consumer.Idle?
    && states[k + 1].consumer.Idle? && states[k + 1].returned == states[k].returned
  }

  /**
   * Dequeue returns false in three places, and exactly under these conditions. At the first load
   * of the link of tail, if tail is the dummy and the queue is empty or the list is broken
   * behind tail; at the last load, if it is broken; and at the load of head, if it was broken when
   * the link was loaded, in step j, or some node has been exchanged into head since then.
   */
  lemma GivesUp(states: seq<State>, actions: seq<Action>, k: nat) returns (j: nat)
    requires Execution(states, actions) && k < |actions| && actions[k] == Consume
    ensures states[k].m.t < |states[k].m.log|
    ensures var s := states[k];
            match s.consumer
            case LoadNext(_) =>
              ReturnsFalse(states, actions, k) <==> s.m.tail == Dummy && (Contents(s.m) == [] || Broken(s))
            case LoadNextLast(_) =>
              ReturnsFalse(states, actions, k) <==> Broken(s)
            case LoadHead(_) =>
              && LoadedAt(states, actions, j, k)
              && (ReturnsFalse(states, actions, k) <==> Broken(states[j]) || |states[j].m.log| < |s.m.log|)
            case _ => !ReturnsFalse(states, actions, k)
  {
    ExecutionInv(states, actions, k);
    var s := states[k];
    assert states[k + 1] == ConsumerStep(s);
    hide Execution;
    j := 0;
    if s.consumer.LoadHead? {
      j := LastLoad(states, actions, k);
      MissingLink(states[j]);
      HeadIsLast(s.m);
    } else if s.consumer.LoadNext? {
      MissingLink(s);
      if s.m.tail == Dummy {
        DummyOnly(s.m);
      }
    } else if s.consumer.LoadNextLast? {
      MissingLink(s);
    }
    hide Inv, LoadedAt, Broken, Contents;
  }

  lemma HeadIsLast(m: Memory<Node>)
    requires m.Ok()
    ensures m.tail == m.head <==> m.t == |m.log| - 1
  {}

  /** With the dummy at tail, the queue is empty exactly if there is no other node. */
  lemma DummyOnly(m: Memory<Node>)
    requires m.Ok() && m.tail == Dummy
    ensures Contents(m) == [] <==> m.t == |m.log| - 1
  {
    assert m.log[m.t..] == [Dummy] + m.log[m.t + 1..];
    ElemsConcat([Dummy], m.log[m.t + 1..]);
    assert [Dummy][..0] == [];
    if m.t < |m.log| - 1 {
      var rest := m.log[m.t + 1..];
      assert rest == [m.log[m.t + 1]] + rest[1..];
      ElemsConcat([m.log[m.t + 1]], rest[1..]);
      assert [m.log[m.t + 1]][..0] == [];
    }
  }
}
