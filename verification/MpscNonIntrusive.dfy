/**
 * The non-intrusive queue by Vyukov: Enqueue allocates a node for its element and Dequeue
 * deletes the old tail node. Addresses may be handed out again after deletion.
 */
module MpscNonIntrusive {
  import opened MpscMemory
  import opened Options

  /** Where a live node is: at a position of the log, with a producer, or about to be deleted. */
  datatype Owner = Queued(i: int) | Held(p: nat) | Retired

  datatype ProducerState =
    | Constructed(n: nat)
    | Exchanged(prev: nat, n: nat, at: int)

  datatype ConsumerState =
    | Idle
    | LoadNext(tail: nat)
    | ReadData(tail: nat, next: nat)
    | StoreTail(tail: nat, next: nat, result: int)
    | Delete(tail: nat, result: int)

  /**
   * data maps an address to the element in its node; owner lists the live addresses. vals
   * lists the elements in the order of their head exchanges, so vals[i] went with log[i + 1].
   */
  datatype State = State(
    m: Memory<nat>, data: map<nat, int>, owner: map<nat, Owner>,
    producers: map<nat, ProducerState>, consumer: ConsumerState,
    vals: seq<int>, returned: seq<int>)

  datatype Action =
    | Call(p: nat, n: nat, v: int)   // producer p calls Enqueue(v); new returns address n
    | Produce(p: nat)
    | Consume

  // ----- Steps -----

  ghost predicate Enabled(s: State, a: Action) {
    match a
    case Call(p, n, _) => p !in s.producers && n !in s.owner
    case Produce(p) => p in s.producers
    case Consume => true
  }

  /** Allocation and construction of a node, private to the producer. */
  function Construct(s: State, p: nat, n: nat, v: int): State {
    s.(m := s.m.Clear(n), data := s.data[n := v], owner := s.owner[n := Held(p)],
       producers := s.producers[p := Constructed(n)])
  }

  function Read(s: State, n: nat): int {
    if n in s.data then s.data[n] else 0
  }

  function ProducerStep(s: State, p: nat): State
    requires p in s.producers
  {
    match s.producers[p]
    case Constructed(n) =>
      s.(m := s.m.Exchange(n, Producer(p)), owner := s.owner[n := Queued(|s.m.log|)],
         producers := s.producers[p := Exchanged(s.m.head, n, |s.m.log| - 1)],
         vals := s.vals + [Read(s, n)])
    case Exchanged(prev, n, at) => s.(m := s.m.Link(prev, n, at), producers := s.producers - {p})
  }

  function ConsumerStep(s: State): State {
    match s.consumer
    case Idle => s.(consumer := LoadNext(s.m.tail))
    case LoadNext(tail) =>
      (match s.m.Next(tail)
       case None => s.(consumer := Idle)
       case Some(next) => s.(consumer := ReadData(tail, next)))
    case ReadData(tail, next) => s.(consumer := StoreTail(tail, next, Read(s, next)))
    case StoreTail(tail, next, result) =>
      s.(m := s.m.Advance(next), owner := s.owner[tail := Retired], consumer := Delete(tail, result))
    case Delete(tail, result) =>
      s.(owner := s.owner - {tail}, consumer := Idle, returned := s.returned + [result])
  }

  function Apply(s: State, a: Action): State
    requires a.Produce? ==> a.p in s.producers
  {
    match a
    case Call(p, n, v) => Construct(s, p, n, v)
    case Produce(p) => ProducerStep(s, p)
    case Consume => ConsumerStep(s)
  }

  /** The nodes that an action dereferences. */
  function Touches(s: State, a: Action): set<nat>
    requires a.Produce? ==> a.p in s.producers
  {
    match a
    case Call(_, n, _) => {}
    case Produce(p) =>
      (match s.producers[p]
       case Constructed(_) => {}
       case Exchanged(prev, _, _) => {prev})
    case Consume =>
      (match s.consumer
       case LoadNext(tail) => {tail}
       case ReadData(_, next) => {next}
       case Delete(tail, _) => {tail}
       case _ => {})
  }

  ghost predicate Init(s: State) {
    && s.m.head == s.m.tail && s.m.Next(s.m.head) == None
    && s.m.log == [s.m.head] && s.m.t == 0 && s.m.pending == map[]
    && s.owner == map[s.m.head := Queued(0)]
    && s.producers == map[] && s.consumer == Idle && s.vals == [] && s.returned == []
  }

  ghost predicate Execution(states: seq<State>, actions: seq<Action>) {
    && |states| == |actions| + 1 && Init(states[0])
    && forall k :: 0 <= k < |actions| ==> Enabled(states[k], actions[k]) && states[k + 1] == Apply(states[k], actions[k])
  }

  // ----- The invariant -----

  ghost predicate ProducerOk(s: State, p: nat, q: ProducerState) {
    match q
    case Constructed(n) => n in s.owner && s.owner[n] == Held(p) && s.m.Next(n) == None
    case Exchanged(prev, n, at) =>
      && at in s.m.pending && s.m.pending[at] == Producer(p)
      && 0 <= at < |s.m.log| - 1 && s.m.log[at] == prev && s.m.log[at + 1] == n
  }

  ghost predicate ConsumerOk(s: State) {
    match s.consumer
    case Idle => true
    case LoadNext(tail) => tail == s.m.tail
    case ReadData(tail, next) => tail == s.m.tail && s.m.Next(tail) == Some(next)
    case StoreTail(tail, next, result) =>
      tail == s.m.tail && s.m.Next(tail) == Some(next) && next in s.data && result == s.data[next]
    case Delete(tail, result) => tail in s.owner && s.owner[tail] == Retired && 0 < s.m.t <= |s.vals| && result == s.vals[s.m.t - 1]
  }

  ghost predicate PendingOk(s: State) {
    forall i :: i in s.m.pending ==>
      match s.m.pending[i]
      case Consumer => false
      case Producer(p) => p in s.producers && s.producers[p].Exchanged? && s.producers[p].at == i
  }

  /** The live nodes are exactly those of the window, those held by producers and one about to be deleted. */
  ghost predicate OwnersOk(s: State) {
    && (forall n :: n in s.owner ==>
          match s.owner[n]
          case Queued(i) => s.m.t <= i < |s.m.log| && s.m.log[i] == n
          case Held(p) => p in s.producers && s.producers[p] == Constructed(n)
          case Retired => s.consumer.Delete? && s.consumer.tail == n)
    && (forall i :: s.m.t <= i < |s.m.log| ==> QueuedAt(s, i))
  }

  ghost predicate QueuedAt(s: State, i: int)
    requires 0 <= i < |s.m.log|
  {
    s.m.log[i] in s.owner && s.owner[s.m.log[i]] == Queued(i)
  }

  ghost predicate DataOk(s: State) {
    && |s.m.log| == |s.vals| + 1
    && forall i :: s.m.t < i < |s.m.log| ==> DataAt(s, i)
  }

  ghost predicate DataAt(s: State, i: int)
    requires 0 < i < |s.m.log| && |s.m.log| == |s.vals| + 1
  {
    s.m.log[i] in s.data && s.data[s.m.log[i]] == s.vals[i - 1]
  }

  ghost predicate HeldData(s: State) {
    forall p :: p in s.producers && s.producers[p].Constructed? ==> s.producers[p].n in s.data
  }

  ghost predicate Inv(s: State) {
    && s.m.Ok() && OwnersOk(s) && DataOk(s) && HeldData(s) && PendingOk(s) && ConsumerOk(s)
    && (forall p :: p in s.producers ==> ProducerOk(s, p, s.producers[p]))
    && s.m.t <= |s.vals|
    && s.returned == s.vals[..if s.consumer.Delete? then s.m.t - 1 else s.m.t]
  }

  // ----- Every step keeps the invariant -----

  lemma NotLive(s: State, n: nat)
    requires Inv(s) && (n !in s.owner || !s.owner[n].Queued?)
    ensures s.m.Outside(n)
  {
    forall i | s.m.t <= i < |s.m.log| ensures s.m.log[i] != n {
      assert QueuedAt(s, i);
    }
  }

  lemma CallTables(s: State, p: nat, n: nat, v: int)
    requires Inv(s) && Enabled(s, Call(p, n, v))
    ensures OwnersOk(Construct(s, p, n, v)) && DataOk(Construct(s, p, n, v))
  {
    var s' := Construct(s, p, n, v);
    forall i | s.m.t <= i < |s.m.log| ensures QueuedAt(s', i) {
      assert QueuedAt(s, i);
    }
    forall i | s.m.t < i < |s.m.log| ensures DataAt(s', i) {
      assert DataAt(s, i) && QueuedAt(s, i);
    }
  }

  lemma CallProducers(s: State, p: nat, n: nat, v: int)
    requires Inv(s) && Enabled(s, Call(p, n, v))
    ensures var s' := Construct(s, p, n, v);
            PendingOk(s') && HeldData(s') && forall q :: q in s'.producers ==> ProducerOk(s', q, s'.producers[q])
  {
    var s' := Construct(s, p, n, v);
    hide OwnersOk, DataOk, ConsumerOk;
    forall q | q in s'.producers ensures ProducerOk(s', q, s'.producers[q]) {
      if q != p {
        assert ProducerOk(s, q, s.producers[q]);
      }
    }
  }

  lemma CallInv(s: State, p: nat, n: nat, v: int)
    requires Inv(s) && Enabled(s, Call(p, n, v))
    ensures Inv(Construct(s, p, n, v))
  {
    CallTables(s, p, n, v);
    CallProducers(s, p, n, v);
    NotLive(s, n);
    ClearKeeps(s.m, n);
    assert QueuedAt(s, s.m.t);
    if s.consumer.StoreTail? {
      LinkedTail(s.m, s.consumer.next);
      assert QueuedAt(s, s.m.t + 1);
    }
    hide OwnersOk, DataOk, HeldData, PendingOk, ProducerOk;
  }

  lemma ExchangeTables(s: State, p: nat)
    requires Inv(s) && p in s.producers && s.producers[p].Constructed?
    ensures OwnersOk(ProducerStep(s, p)) && DataOk(ProducerStep(s, p))
  {
    var s' := ProducerStep(s, p);
    assert ProducerOk(s, p, s.producers[p]);
    forall i | s'.m.t <= i < |s'.m.log| ensures QueuedAt(s', i) {
      if i < |s.m.log| {
        assert QueuedAt(s, i);
      }
    }
    forall i | s'.m.t < i < |s'.m.log| ensures DataAt(s', i) {
      if i < |s.m.log| {
        assert DataAt(s, i);
      }
    }
  }

  lemma ExchangeProducers(s: State, p: nat)
    requires Inv(s) && p in s.producers && s.producers[p].Constructed?
    ensures var s' := ProducerStep(s, p);
            PendingOk(s') && HeldData(s') && forall q :: q in s'.producers ==> ProducerOk(s', q, s'.producers[q])
  {
    var s' := ProducerStep(s, p);
    assert ProducerOk(s, p, s.producers[p]);
    assert |s.m.log| - 1 !in s.m.pending;
    hide OwnersOk, DataOk, ConsumerOk;
    forall q | q in s'.producers ensures ProducerOk(s', q, s'.producers[q]) {
      assert ProducerOk(s, q, s.producers[q]);
    }
  }

  lemma ExchangeInv(s: State, p: nat)
    requires Inv(s) && p in s.producers && s.producers[p].Constructed?
    ensures Inv(ProducerStep(s, p))
  {
    var s', n := ProducerStep(s, p), s.producers[p].n;
    ExchangeTables(s, p);
    ExchangeProducers(s, p);
    assert ProducerOk(s, p, s.producers[p]);
    NotLive(s, n);
    ExchangeKeeps(s.m, n, Producer(p));
    var t := if s.consumer.Delete? then s.m.t - 1 else s.m.t;
    assert |s.vals| == |s.m.log| - 1 && s'.vals[..t] == s.vals[..t];
    hide OwnersOk, DataOk, HeldData, PendingOk, ProducerOk;
  }

  lemma LinkTables(s: State, p: nat)
    requires Inv(s) && p in s.producers && s.producers[p].Exchanged?
    ensures OwnersOk(ProducerStep(s, p)) && DataOk(ProducerStep(s, p))
  {
    var s' := ProducerStep(s, p);
    forall i | s.m.t <= i < |s.m.log| ensures QueuedAt(s', i) {
      assert QueuedAt(s, i);
    }
    forall i | s.m.t < i < |s.m.log| ensures DataAt(s', i) {
      assert DataAt(s, i);
    }
  }

  lemma LinkProducers(s: State, p: nat)
    requires Inv(s) && p in s.producers && s.producers[p].Exchanged?
    ensures var s' := ProducerStep(s, p);
            PendingOk(s') && HeldData(s') && forall q :: q in s'.producers ==> ProducerOk(s', q, s'.producers[q])
  {
    var s' := ProducerStep(s, p);
    assert ProducerOk(s, p, s.producers[p]);
    assert s.m.LinkAt(s.producers[p].at);
    forall q | q in s'.producers ensures ProducerOk(s', q, s'.producers[q]) {
      assert ProducerOk(s, q, s.producers[q]);
      if s.producers[q].Constructed? {
        NotLive(s, s.producers[q].n);
      }
    }
  }

  lemma LinkInv(s: State, p: nat)
    requires Inv(s) && p in s.producers && s.producers[p].Exchanged?
    ensures Inv(ProducerStep(s, p))
  {
    var at := s.producers[p].at;
    LinkTables(s, p);
    LinkProducers(s, p);
    assert ProducerOk(s, p, s.producers[p]);
    LinkKeeps(s.m, at);
    assert s.m.LinkAt(at);
    hide OwnersOk, DataOk, HeldData, PendingOk, ProducerOk;
  }

  /** A step that only changes the local state of the consumer, before the tail moves. */
  lemma LocalTables(s: State, c: ConsumerState)
    requires Inv(s) && !s.consumer.Delete? && !c.Delete?
    ensures OwnersOk(s.(consumer := c)) && DataOk(s.(consumer := c))
  {
    var s' := s.(consumer := c);
    forall i | s.m.t <= i < |s.m.log| ensures QueuedAt(s', i) {
      assert QueuedAt(s, i);
    }
    forall i | s.m.t < i < |s.m.log| ensures DataAt(s', i) {
      assert DataAt(s, i);
    }
  }

  lemma LocalInv(s: State)
    requires Inv(s) && !s.consumer.StoreTail? && !s.consumer.Delete?
    ensures Inv(ConsumerStep(s))
  {
    var s' := ConsumerStep(s);
    LocalTables(s, s'.consumer);
    assert s' == s.(consumer := s'.consumer);
    if s.consumer.ReadData? {
      LinkedTail(s.m, s.consumer.next);
      assert DataAt(s, s.m.t + 1);
    }
    hide OwnersOk, DataOk;
    forall q | q in s'.producers ensures ProducerOk(s', q, s'.producers[q]) {
      assert ProducerOk(s, q, s.producers[q]);
    }
  }

  lemma StoreTailInv(s: State)
    requires Inv(s) && s.consumer.StoreTail?
    ensures Inv(ConsumerStep(s))
  {
    var s', next := ConsumerStep(s), s.consumer.next;
    LinkedTail(s.m, next);
    AdvanceKeeps(s.m, next);
    assert QueuedAt(s, s.m.t) && DataAt(s, s.m.t + 1);
    forall i | s'.m.t <= i < |s'.m.log| ensures QueuedAt(s', i) {
      assert QueuedAt(s, i);
    }
    forall i | s'.m.t < i < |s'.m.log| ensures DataAt(s', i) {
      assert DataAt(s, i);
    }
    forall q | q in s'.producers ensures ProducerOk(s', q, s'.producers[q]) {
      assert ProducerOk(s, q, s.producers[q]);
    }
  }

  lemma DeleteInv(s: State)
    requires Inv(s) && s.consumer.Delete?
    ensures Inv(ConsumerStep(s))
  {
    var s' := ConsumerStep(s);
    forall i | s.m.t <= i < |s.m.log| ensures QueuedAt(s', i) {
      assert QueuedAt(s, i);
    }
    forall i | s.m.t < i < |s.m.log| ensures DataAt(s', i) {
      assert DataAt(s, i);
    }
    forall q | q in s'.producers ensures ProducerOk(s', q, s'.producers[q]) {
      assert ProducerOk(s, q, s.producers[q]);
    }
  }

  lemma StepInv(s: State, a: Action)
    requires Inv(s) && Enabled(s, a)
    ensures Inv(Apply(s, a))
  {
    match a {
      case Call(p, n, v) => CallInv(s, p, n, v);
      case Produce(p) =>
        if s.producers[p].Constructed? {
          ExchangeInv(s, p);
        } else {
          LinkInv(s, p);
        }
      case Consume =>
        if s.consumer.StoreTail? {
          StoreTailInv(s);
        } else if s.consumer.Delete? {
          DeleteInv(s);
        } else {
          LocalInv(s);
        }
    }
  }

  // ----- What the invariant gives -----

  lemma {:induction false} ExecutionInv(states: seq<State>, actions: seq<Action>, k: nat)
    requires Execution(states, actions) && k < |states|
    ensures Inv(states[k])
  {
    if k > 0 {
      ExecutionInv(states, actions, k - 1);
      StepInv(states[k - 1], actions[k - 1]);
    }
  }

  /** In every interleaving the dequeued elements are a prefix of the elements in head-exchange order. */
  lemma Fifo(states: seq<State>, actions: seq<Action>, k: nat)
    requires Execution(states, actions) && k < |states|
    ensures states[k].returned <= states[k].vals
  {
    ExecutionInv(states, actions, k);
  }

  /** No action ever dereferences a node that is not live: nothing is read or written after its deletion. */
  lemma NoUseAfterFree(states: seq<State>, actions: seq<Action>, k: nat)
    requires Execution(states, actions) && k < |actions|
    ensures Enabled(states[k], actions[k])
    ensures forall n :: n in Touches(states[k], actions[k]) ==> n in states[k].owner
  {
    ExecutionInv(states, actions, k);
    var s := states[k];
    assert QueuedAt(s, s.m.t);
    match actions[k] {
      case Produce(p) =>
        assert ProducerOk(s, p, s.producers[p]);
        if s.producers[p].Exchanged? {
          assert QueuedAt(s, s.producers[p].at);
        }
      case Consume =>
        if s.consumer.ReadData? {
          LinkedTail(s.m, s.consumer.next);
          assert QueuedAt(s, s.m.t + 1);
        }
      case _ =>
    }
  }

  /** The node deleted by the consumer is not one that a producer will still write to, at that time or later. */
  lemma DeletedIsFree(states: seq<State>, actions: seq<Action>, k: nat)
    requires Execution(states, actions) && k < |actions|
    requires actions[k] == Consume && states[k].consumer.Delete?
    ensures var s, n := states[k], states[k].consumer.tail;
            && n in s.owner && n !in states[k + 1].owner
            && forall p :: p in s.producers ==>
                 if s.producers[p].Exchanged? then s.producers[p].prev != n && s.producers[p].n != n
                 else s.producers[p].n != n
  {
    ExecutionInv(states, actions, k);
    var s, n := states[k], states[k].consumer.tail;
    NotLive(s, n);
    assert states[k + 1] == ConsumerStep(s);
    forall p | p in s.producers
      ensures if s.producers[p].Exchanged? then s.producers[p].prev != n && s.producers[p].n != n
              else s.producers[p].n != n
    {
      assert ProducerOk(s, p, s.producers[p]);
    }
  }

  /**
   * Dequeue returns false only if, at its load of Next, everything exchanged has been
   * returned or the producer of the next element has exchanged head and not yet stored the link.
   */
  lemma GivesUp(states: seq<State>, actions: seq<Action>, k: nat)
    requires Execution(states, actions) && k < |actions|
    requires actions[k] == Consume && states[k].consumer.LoadNext? && states[k + 1].consumer.Idle?
    ensures var s := states[k];
            || s.returned == s.vals
            || (exists p :: p in s.producers && s.producers[p].Exchanged? && s.producers[p].at == s.m.t)
  {
    ExecutionInv(states, actions, k);
    var s := states[k];
    assert states[k + 1] == ConsumerStep(s);
    if s.m.t < |s.m.log| - 1 {
      assert s.m.LinkAt(s.m.t);
    } else {
      assert s.returned == s.vals[..|s.vals|];
    }
  }

  /** Nothing leaks: with no call in progress the live nodes are those from tail to head, one more than the elements left. */
  lemma NoLeak(states: seq<State>, actions: seq<Action>, k: nat)
    requires Execution(states, actions) && k < |states|
    requires states[k].producers == map[] && states[k].consumer == Idle
    ensures var s := states[k];
            && s.m.t < |s.m.log|
            && s.owner.Keys == (set i | s.m.t <= i < |s.m.log| :: s.m.log[i])
            && |s.m.log| - s.m.t == |s.vals| - |s.returned| + 1
  {
    ExecutionInv(states, actions, k);
    var s := states[k];
    forall i | s.m.t <= i < |s.m.log| ensures s.m.log[i] in s.owner {
      assert QueuedAt(s, i);
    }
  }
}
