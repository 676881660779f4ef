/**
 * The shared memory of the multi-producer single-consumer queues by Vyukov and its atomic
 * operations, with the history that explains it. Both variants of the queue use it.
 */
module MpscMemory {
  import opened Options

  /** A thread: the consumer (which enqueues the dummy) or a numbered producer. */
  datatype Thread = Consumer | Producer(p: nat)

  /**
   * The shared memory head, tail and link, with its history: log lists the nodes exchanged
   * into head, starting with the dummy; t is the position of the tail node in it; pending
   * maps a position to the thread that has exchanged the next position and not yet stored
   * the link to it.
   */
  datatype Memory<N(==)> = Memory(
    head: N, tail: N, link: map<N, Option<N>>,
    log: seq<N>, t: nat, pending: map<int, Thread>)
  {
    function Next(n: N): Option<N> {
      if n in link then link[n] else None
    }

    function Clear(n: N): Memory<N> {
      this.(link := link[n := None])
    }

    /** _head.exchange(n) by thread w; the exchange returns the old head. */
    function Exchange(n: N, w: Thread): Memory<N> {
      this.(head := n, log := log + [n], pending := pending[|log| - 1 := w])
    }

    /** The store of n into the link of prev, which was log[at]. */
    function Link(prev: N, n: N, at: int): Memory<N> {
      this.(link := link[prev := Some(n)], pending := pending - {at})
    }

    /** _tail.store(next). */
    function Advance(next: N): Memory<N> {
      this.(tail := next, t := t + 1)
    }

    ghost predicate Outside(n: N) {
      forall i :: t <= i < |log| ==> log[i] != n
    }

    /** tail and head are the ends of the part of the log from t on, whose nodes are distinct. */
    ghost predicate Shape() {
      && t < |log| && tail == log[t] && head == log[|log| - 1]
      && Next(head) == None
      && forall i, j :: t <= i < j < |log| ==> log[i] != log[j]
    }

    /** Each node from tail on is linked to its successor, except where a store is pending. */
    ghost predicate Linked() {
      && (forall i :: i in pending ==> t <= i < |log| - 1)
      && forall i :: t <= i < |log| - 1 ==> LinkAt(i)
    }

    ghost predicate LinkAt(i: int)
      requires 0 <= i < |log| - 1
    {
      Next(log[i]) == if i in pending then None else Some(log[i + 1])
    }

    ghost predicate Ok() {
      Shape() && Linked()
    }
  }

  // ----- What the memory operations keep -----

  lemma ClearKeeps<N>(m: Memory<N>, n: N)
    requires m.Ok() && m.Outside(n)
    ensures m.Clear(n).Ok()
  {
    var m' := m.Clear(n);
    assert m.head != n;
    forall i | m.t <= i < |m.log| - 1 ensures m'.LinkAt(i) {
      assert m.LinkAt(i) && m.log[i] != n;
    }
  }

  lemma ExchangeKeeps<N>(m: Memory<N>, n: N, w: Thread)
    requires m.Ok() && m.Outside(n) && m.Next(n) == None
    ensures m.Exchange(n, w).Ok()
  {
    var m' := m.Exchange(n, w);
    forall i | m'.t <= i < |m'.log| - 1 ensures m'.LinkAt(i) {
      assert i < |m.log| - 1 ==> m.LinkAt(i);
    }
  }

  lemma LinkKeeps<N>(m: Memory<N>, at: int)
    requires m.Ok() && at in m.pending
    ensures m.Link(m.log[at], m.log[at + 1], at).Ok()
  {
    var m' := m.Link(m.log[at], m.log[at + 1], at);
    assert m.head != m.log[at];
    forall i | m.t <= i < |m.log| - 1 ensures m'.LinkAt(i) {
      assert m.LinkAt(i);
      assert i != at ==> m.log[i] != m.log[at];
    }
  }

  /** A stored link of the tail node is never pending and leads to the next position of the log. */
  lemma LinkedTail<N>(m: Memory<N>, next: N)
    requires m.Ok() && m.Next(m.tail) == Some(next)
    ensures m.t + 1 < |m.log| && next == m.log[m.t + 1] && m.t !in m.pending
  {
    assert m.t < |m.log| - 1;
    assert m.LinkAt(m.t);
  }

  lemma AdvanceKeeps<N>(m: Memory<N>, next: N)
    requires m.Ok() && m.Next(m.tail) == Some(next)
    ensures m.Advance(next).Ok()
  {
    LinkedTail(m, next);
    var m' := m.Advance(next);
    forall i | m'.t <= i < |m'.log| - 1 ensures m'.LinkAt(i) {
      assert m.LinkAt(i);
    }
  }
}
