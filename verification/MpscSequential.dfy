/** The intrusive queue as an object that one thread uses at a time. */
module MpscSequential {
  import opened MpscMemory
  import opened MpscIntrusive
  import opened Options

  /** The queue object, used by one thread at a time. */
  class MpscQueueIntrusive {
    var head: Node
    var tail: Node
    var link: map<Node, Option<Node>>
    ghost var log: seq<Node>
    ghost var t: nat

    ghost function View(): Memory<Node>
      reads this
    {
      Memory(head, tail, link, log, t, map[])
    }

    /** No store is pending, so the links are complete from tail to head. */
    ghost predicate Valid()
      reads this
    {
      View().Ok()
    }

    ghost function Queue(): seq<Node>
      reads this
      requires Valid()
    {
      Contents(View())
    }

    constructor ()
      ensures Valid() && Queue() == []
    {
      head, tail := Dummy, Dummy;
      link := map[Dummy := None];
      log, t := [Dummy], 0;
      new;
      assert log[0..] == [Dummy] && [Dummy][..0] == [];
    }

    function Load(n: Node): Option<Node>
      reads this
    {
      if n in link then link[n] else None
    }

    method Enqueue(input: Node)
      requires Valid() && View().Outside(input)
      modifies this
      ensures Valid() && tail == old(tail) && t == old(t) && log == old(log) + [input]
      ensures Queue() == old(Queue()) + if input == Dummy then [] else [input]
    {
      ghost var m := View();
      ClearKeeps(m, input);
      ExchangeKeeps(m.Clear(input), input, Consumer);
      LinkKeeps(m.Clear(input).Exchange(input, Consumer), |log| - 1);
      link := link[input := None];
      var prevHead := head;
      head := input;
      log := log + [input];
      link := link[prevHead := Some(input)];
      assert View() == m.Clear(input).Exchange(input, Consumer).Link(prevHead, input, |m.log| - 1);
      assert log[t..] == m.log[t..] + [input];
      ElemsConcat(m.log[t..], [input]);
      assert [input][..0] == [];
    }

    /** Moves tail to the next node; the node left behind is the first of the old content unless it is the dummy. */
    method Advance(next: Node)
      requires Valid() && Load(tail) == Some(next)
      modifies this
      ensures Valid() && tail == next && head == old(head) && link == old(link)
      ensures old(Queue()) == (if old(tail) == Dummy then [] else [old(tail)]) + Queue()
      ensures old(tail) != Dummy ==> View().Outside(old(tail))
      ensures forall n :: old(View()).Outside(n) ==> View().Outside(n)
      ensures old(tail) == Dummy ==> View().Outside(Dummy)
    {
      ghost var m := View();
      LinkedTail(m, next);
      AdvanceKeeps(m, next);
      tail := next;
      t := t + 1;
      assert m.log[m.t..] == [m.tail] + log[t..];
      ElemsConcat([m.tail], log[t..]);
      assert [m.tail][..0] == [];
    }

    /** Alone, Dequeue fails exactly on the empty queue and otherwise removes the first element. */
    method Dequeue() returns (ok: bool, result: Node)
      requires Valid()
      modifies this
      ensures Valid()
      ensures ok <==> old(Queue()) != []
      ensures ok ==> old(Queue()) == [result] + Queue() && View().Outside(result)
      ensures !ok ==> Queue() == []
    {
      var tl := tail;
      var next := Load(tl);
      NothingBehind(View());
      if tl == Dummy {
        if next == None {
          return false, Dummy;
        }
        Advance(next.value);
        tl := next.value;
        next := Load(tl);
        NothingBehind(View());
      }
      if next.Some? {
        Advance(next.value);
        return true, tl;
      }
      var hd := head;
      if tl != hd {
        return false, Dummy;
      }
      Enqueue(Dummy);
      next := Load(tl);
      NothingBehind(View());
      if next.Some? {
        Advance(next.value);
        return true, tl;
      }
      return false, Dummy;
    }
  }

  /** With no store pending, a missing link means that tail is the last node. */
  lemma NothingBehind(m: Memory<Node>)
    requires m.Ok() && m.pending == map[]
    ensures m.Next(m.tail) == None <==> m.tail == m.head
    ensures m.tail == m.head ==> Contents(m) == if m.tail == Dummy then [] else [m.tail]
    ensures m.tail == m.head ==> m.t == |m.log| - 1
    ensures m.tail != Dummy ==> Contents(m) != []
  {
    if m.t < |m.log| - 1 {
      assert m.LinkAt(m.t);
    }
    assert m.log[m.t..] == [m.tail] + m.log[m.t + 1..];
    ElemsConcat([m.tail], m.log[m.t + 1..]);
    assert [m.tail][..0] == [];
  }
}
