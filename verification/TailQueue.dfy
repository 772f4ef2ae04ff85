/**
 The tail-queue macros of queue.h.  Each element keeps the address of the pointer that
 leads to it, and the head that of the last such pointer; an address is a `Slot` here.
 */
module TailQueue {
  import opened Seqs

  /** The address of a pointer to an element: the head's first, or the next of an element. */
  datatype Slot<T> = FirstOf(head: TailQueue<T>) | NextOf(node: Element<T>)

  class Element<T> {
    const data: T
    var next: Element?<T>
    var prev: Slot<T>

    constructor (data: T, somewhere: Slot<T>)
      ensures this.data == data
    {
      this.data, next, prev := data, null, somewhere;
    }
  }

  /** What the pointer at this address holds. */
  function Deref<T>(s: Slot<T>): (e: Element?<T>)
    reads match s case FirstOf(h) => {h as object} case NextOf(n) => {n as object}
  {
    match s
    case FirstOf(h) => h.first
    case NextOf(n) => n.next
  }

  /**
   The field after the one at this address, of the head or of the element it is in: the
   macros read it by casting the address to that of a head.
   */
  function After<T>(s: Slot<T>): (r: Slot<T>)
    reads match s case FirstOf(h) => {h as object} case NextOf(n) => {n as object}
  {
    match s
    case FirstOf(h) => h.last
    case NextOf(n) => n.prev
  }

  /** Where a chain of these elements that leads on to `end` starts. */
  ghost function HeadOf<T>(nodes: seq<Element<T>>, end: Element?<T>): (e: Element?<T>) {
    if nodes == [] then end else nodes[0]
  }

  /** The address of the pointer that leads out of a chain entered through `start`. */
  ghost function SlotPast<T>(nodes: seq<Element<T>>, start: Slot<T>): (s: Slot<T>) {
    if nodes == [] then start else NextOf(nodes[|nodes| - 1])
  }

  /** The elements are linked both ways, from the pointer at `start` on to `end`. */
  ghost predicate Chain<T>(nodes: seq<Element<T>>, start: Slot<T>, end: Element?<T>)
    reads nodes
  {
    && (forall i {:trigger nodes[i].next} | 0 <= i < |nodes| ::
          nodes[i].next == if i + 1 < |nodes| then nodes[i + 1] else end)
    && (forall i {:trigger nodes[i].prev} | 0 <= i < |nodes| ::
          nodes[i].prev == if i == 0 then start else NextOf(nodes[i - 1]))
  }

  lemma ChainSplits<T>(a: seq<Element<T>>, b: seq<Element<T>>, start: Slot<T>, end: Element?<T>)
    requires Chain(a + b, start, end)
    ensures Chain(a, start, HeadOf(b, end)) && Chain(b, SlotPast(a, start), end)
  {
    var s := a + b;
    assert forall i | 0 <= i < |a| :: s[i].next == a[i].next && s[i].prev == a[i].prev;
    forall i | 0 <= i < |b|
      ensures b[i].next == if i + 1 < |b| then b[i + 1] else end
      ensures b[i].prev == if i == 0 then SlotPast(a, start) else NextOf(b[i - 1])
    {
      assert s[|a| + i].next == b[i].next && s[|a| + i].prev == b[i].prev;
    }
  }

  lemma ChainJoins<T>(a: seq<Element<T>>, b: seq<Element<T>>, start: Slot<T>, end: Element?<T>)
    requires Chain(a, start, HeadOf(b, end)) && Chain(b, SlotPast(a, start), end)
    ensures Chain(a + b, start, end)
  {
    var s := a + b;
    forall i | 0 <= i < |s|
      ensures s[i].next == if i + 1 < |s| then s[i + 1] else end
      ensures s[i].prev == if i == 0 then start else NextOf(s[i - 1])
    {
      if i < |a| {
        assert s[i] == a[i] && a[i].next == a[i].next && a[i].prev == a[i].prev;
      } else {
        assert s[i] == b[i - |a|] && b[i - |a|].next == b[i - |a|].next && b[i - |a|].prev == b[i - |a|].prev;
      }
    }
  }

  class TailQueue<T> {
    var first: Element?<T>
    var last: Slot<T>
    ghost var nodes: seq<Element<T>>

    /** Forward links lead through the elements, back links hold the addresses of these links. */
    ghost predicate Valid()
      reads this, nodes
    {
      && Distinct(nodes)
      && first == HeadOf(nodes, null)
      && Chain(nodes, FirstOf(this), null)
      && last == SlotPast(nodes, FirstOf(this))
    }

    constructor ()
      ensures Valid() && nodes == []
    {
      first, nodes := null, [];
      last := FirstOf(this);
    }

    method InsertHead(elm: Element<T>)
      requires Valid() && elm !in nodes
      modifies this, nodes, elm
      ensures Valid() && nodes == [elm] + old(nodes)
    {
      elm.next := first;
      if elm.next != null {
        first.prev := NextOf(elm);
      } else {
        last := NextOf(elm);
      }
      first := elm;
      elm.prev := FirstOf(this);
      nodes := [elm] + nodes;
    }

    /** `*slot = e` */
    method Store(slot: Slot<T>, e: Element?<T>)
      modifies match slot case FirstOf(h) => {h as object} case NextOf(n) => {n as object}
      ensures match slot
              case FirstOf(h) => h.first == e && h.last == old(h.last) && h.nodes == old(h.nodes)
              case NextOf(n) => n.next == e && n.prev == old(n.prev)
    {
      match slot {
        case FirstOf(h) => h.first := e;
        case NextOf(n) => n.next := e;
      }
    }

    method InsertTail(elm: Element<T>)
      requires Valid() && elm !in nodes
      modifies this, nodes, elm
      ensures Valid() && nodes == old(nodes) + [elm]
    {
      elm.next := null;
      elm.prev := last;
      Store(last, elm);
      last := NextOf(elm);
      nodes := nodes + [elm];
    }

    method InsertAfter(listelm: Element<T>, elm: Element<T>, ghost k: nat)
      requires Valid() && k < |nodes| && listelm == nodes[k] && elm !in nodes
      modifies this, nodes, elm
      ensures Valid() && nodes == old(nodes)[..k + 1] + [elm] + old(nodes)[k + 1..]
    {
      ghost var a, b := nodes[..k + 1], nodes[k + 1..];
      Cut(a, b);
      DistinctInsert(nodes, k + 1, elm);
      elm.next := listelm.next;
      if elm.next != null {
        elm.next.prev := NextOf(elm);
      } else {
        last := NextOf(elm);
      }
      listelm.next := elm;
      elm.prev := NextOf(listelm);
      nodes := a + [elm] + b;
      ChainJoins(a, [elm], FirstOf(this), HeadOf(b, null));
      ChainJoins(a + [elm], b, FirstOf(this), null);
    }

    /** Cuts the list in two for the proof. */
    lemma Cut(a: seq<Element<T>>, b: seq<Element<T>>)
      requires Valid() && nodes == a + b
      ensures Chain(a, FirstOf(this), HeadOf(b, null)) && Chain(b, SlotPast(a, FirstOf(this)), null)
      ensures forall n | n in a :: n !in b
    {
      ChainSplits(a, b, FirstOf(this), null);
      forall i, j | 0 <= i < |a| && 0 <= j < |b| ensures a[i] != b[j] {
        assert nodes[i] == a[i] && nodes[|a| + j] == b[j];
      }
    }

    method InsertBefore(listelm: Element<T>, elm: Element<T>, ghost k: nat)
      requires Valid() && k < |nodes| && listelm == nodes[k] && elm !in nodes
      modifies this, nodes, elm
      ensures Valid() && nodes == old(nodes)[..k] + [elm] + old(nodes)[k..]
    {
      ghost var a, b := nodes[..k], nodes[k..];
      Cut(a, b);
      DistinctInsert(nodes, k, elm);
      LinkBefore(listelm, elm, a, b);
      nodes := a + [elm] + b;
      ChainJoins(a, [elm], FirstOf(this), HeadOf(b, null));
      ChainJoins(a + [elm], b, FirstOf(this), null);
    }

    /** The assignments of TAILQ_INSERT_BEFORE, on a list cut before `listelm`. */
    method LinkBefore(listelm: Element<T>, elm: Element<T>, ghost a: seq<Element<T>>, ghost b: seq<Element<T>>)
      requires Chain(a, FirstOf(this), listelm) && Chain(b, SlotPast(a, FirstOf(this)), null)
      requires b != [] && b[0] == listelm && Distinct(a) && Distinct(b)
      requires elm !in a && elm !in b && forall n | n in a :: n !in b
      modifies this, a, listelm, elm
      ensures Chain(a, FirstOf(this), elm) && Chain([elm], SlotPast(a, FirstOf(this)), listelm)
      ensures Chain(b, NextOf(elm), null)
      ensures first == (if a == [] then elm else old(first)) && last == old(last) && nodes == old(nodes)
    {
      assert a != [] ==> a[|a| - 1] in a;
      elm.prev := listelm.prev;
      elm.next := listelm;
      Store(listelm.prev, elm);
      listelm.prev := NextOf(elm);
    }

    method Remove(elm: Element<T>, ghost k: nat)
      requires Valid() && k < |nodes| && elm == nodes[k]
      modifies this, nodes
      ensures Valid() && nodes == Without(old(nodes), k)
    {
      ghost var a, b := nodes[..k], nodes[k + 1..];
      Cut(a, nodes[k..]);
      Cut(nodes[..k + 1], b);
      DistinctWithout(nodes, k);
      Unlink(elm, a, b);
      nodes := a + b;
      ChainJoins(a, b, FirstOf(this), null);
    }

    /** The assignments of TAILQ_REMOVE, on a list cut around `elm`. */
    method Unlink(elm: Element<T>, ghost a: seq<Element<T>>, ghost b: seq<Element<T>>)
      requires Chain(a, FirstOf(this), elm) && Chain(b, NextOf(elm), null) && Distinct(a) && Distinct(b)
      requires elm.prev == SlotPast(a, FirstOf(this)) && elm.next == HeadOf(b, null)
      requires elm !in a && elm !in b && forall n | n in a :: n !in b
      modifies this, a, b
      ensures Chain(a, FirstOf(this), HeadOf(b, null)) && Chain(b, SlotPast(a, FirstOf(this)), null)
      ensures first == (if a == [] then HeadOf(b, null) else old(first)) && nodes == old(nodes)
      ensures last == if b == [] then SlotPast(a, FirstOf(this)) else old(last)
    {
      assert (a != [] ==> a[|a| - 1] in a) && (b != [] ==> b[0] in b);
      if elm.next != null {
        elm.next.prev := elm.prev;
      } else {
        last := elm.prev;
      }
      Store(elm.prev, elm.next);
    }

    method Replace(elm: Element<T>, elm2: Element<T>, ghost k: nat)
      requires Valid() && k < |nodes| && elm == nodes[k] && elm2 !in nodes
      modifies this, nodes, elm2
      ensures Valid() && nodes == old(nodes)[k := elm2]
    {
      ghost var a, b := nodes[..k], nodes[k + 1..];
      Cut(a, nodes[k..]);
      Cut(nodes[..k + 1], b);
      LinkInstead(elm, elm2, a, b);
      DistinctUpdate(nodes, k, elm2);
      nodes := a + [elm2] + b;
      ChainJoins(a, [elm2], FirstOf(this), HeadOf(b, null));
      ChainJoins(a + [elm2], b, FirstOf(this), null);
    }

    /** The assignments of TAILQ_REPLACE, on a list cut around `elm`. */
    method LinkInstead(elm: Element<T>, elm2: Element<T>, ghost a: seq<Element<T>>, ghost b: seq<Element<T>>)
      requires Chain(a, FirstOf(this), elm) && Chain(b, NextOf(elm), null) && Distinct(a) && Distinct(b)
      requires elm.prev == SlotPast(a, FirstOf(this)) && elm.next == HeadOf(b, null) && elm != elm2
      requires elm2 !in a && elm2 !in b && forall n | n in a :: n !in b
      modifies this, a, b, elm2
      ensures Chain(a, FirstOf(this), elm2) && Chain([elm2], SlotPast(a, FirstOf(this)), HeadOf(b, null))
      ensures Chain(b, NextOf(elm2), null) && nodes == old(nodes)
      ensures first == (if a == [] then elm2 else old(first))
      ensures last == if b == [] then NextOf(elm2) else old(last)
    {
      assert (a != [] ==> a[|a| - 1] in a) && (b != [] ==> b[0] in b);
      elm2.next := elm.next;
      if elm2.next != null {
        elm2.next.prev := NextOf(elm2);
      } else {
        last := NextOf(elm2);
      }
      elm2.prev := elm.prev;
      Store(elm2.prev, elm2);
    }

    method Concat(head2: TailQueue<T>)
      requires Valid() && head2.Valid() && head2 != this
      requires forall n | n in nodes :: n !in head2.nodes
      modifies this, nodes, head2, head2.nodes
      ensures Valid() && nodes == old(nodes) + old(head2.nodes)
      ensures head2.Valid() && head2.nodes == []
    {
      ghost var a, b := nodes, head2.nodes;
      DistinctConcat(a, b);
      if head2.first != null {
        LinkAll(head2, a, b);
        nodes := a + b;
        head2.first, head2.last, head2.nodes := null, FirstOf(head2), [];
        ChainJoins(a, b, FirstOf(this), null);
      } else {
        assert a + b == a;
      }
    }

    /** The assignments of TAILQ_CONCAT to the first list and the elements. */
    method LinkAll(head2: TailQueue<T>, ghost a: seq<Element<T>>, ghost b: seq<Element<T>>)
      requires Chain(a, FirstOf(this), null) && Chain(b, FirstOf(head2), null) && Distinct(a) && Distinct(b)
      requires last == SlotPast(a, FirstOf(this)) && head2.first == HeadOf(b, null) && b != []
      requires head2 != this && forall n | n in a :: n !in b
      modifies this, a, b
      ensures Chain(a, FirstOf(this), b[0]) && Chain(b, SlotPast(a, FirstOf(this)), null)
      ensures first == (if a == [] then b[0] else old(first)) && last == old(head2.last) && nodes == old(nodes)
    {
      assert (a != [] ==> a[|a| - 1] in a) && b[0] in b;
      Store(last, head2.first);
      head2.first.prev := last;
      last := head2.last;
    }

    /** TAILQ_LAST: the last element, or null. */
    method Last() returns (e: Element?<T>)
      requires Valid()
      ensures e == if nodes == [] then null else nodes[|nodes| - 1]
    {
      e := Deref(After(last));
    }

    /** TAILQ_PREV: the element before, or null. */
    method Prev(elm: Element<T>, ghost k: nat) returns (e: Element?<T>)
      requires Valid() && k < |nodes| && elm == nodes[k]
      ensures e == if k == 0 then null else nodes[k - 1]
    {
      e := Deref(After(elm.prev));
    }

    /** TAILQ_FOREACH_REVERSE visits the elements in reverse order. */
    method ForeachReverse() returns (visited: seq<T>)
      requires Valid()
      ensures |visited| == |nodes|
      ensures forall i | 0 <= i < |nodes| :: visited[i] == nodes[|nodes| - 1 - i].data
    {
      visited := [];
      var e := Last();
      ghost var k := |nodes|;
      while e != null
        invariant 0 <= k <= |nodes| && e == (if k == 0 then null else nodes[k - 1])
        invariant |visited| == |nodes| - k
        invariant forall i | 0 <= i < |visited| :: visited[i] == nodes[|nodes| - 1 - i].data
        decreases k
      {
        visited := visited + [e.data];
        e := Prev(e, k - 1);
        k := k - 1;
      }
    }
  }
}
