/** The singly-linked list macros of queue.h: nodes linked and unlinked in place. */
module SinglyLinkedList {
  import opened Seqs

  class Node<T> {
    const data: T
    var next: Node?<T>

    constructor (data: T)
      ensures this.data == data && next == null
    {
      this.data := data;
      next := null;
    }
  }

  ghost function DataOf<T>(nodes: seq<Node<T>>): (s: seq<T>)
    ensures |s| == |nodes| && forall i | 0 <= i < |nodes| :: s[i] == nodes[i].data
  {
    seq(|nodes|, i requires 0 <= i < |nodes| => nodes[i].data)
  }

  lemma DataWithout<T>(nodes: seq<Node<T>>, k: nat)
    requires k < |nodes|
    ensures DataOf(Without(nodes, k)) == Without(DataOf(nodes), k)
  {
  }

  class Slist<T> {
    var first: Node?<T>
    ghost var nodes: seq<Node<T>>  // from the first on

    /** The links lead through `nodes`, each once, and end: every traversal terminates. */
    ghost predicate Valid()
      reads this, nodes
    {
      && Distinct(nodes)
      && first == NodeAt(0)
      && forall i {:trigger nodes[i].next} | 0 <= i < |nodes| :: nodes[i].next == NodeAt(i + 1)
    }

    ghost function NodeAt(i: nat): (n: Node?<T>)
      reads this
    {
      if i < |nodes| then nodes[i] else null
    }

    ghost function Contents(): (s: seq<T>)
      reads this
    {
      DataOf(nodes)
    }

    constructor ()
      ensures Valid() && nodes == [] && fresh(this)
    {
      first, nodes := null, [];
    }

    method InsertHead(elm: Node<T>)
      requires Valid() && elm !in nodes
      modifies this, elm
      ensures Valid() && nodes == [elm] + old(nodes)
      ensures Contents() == [elm.data] + old(Contents())
    {
      elm.next := first;
      first := elm;
      nodes := [elm] + nodes;
    }

    method RemoveHead()
      requires Valid() && nodes != []
      modifies this
      ensures Valid() && nodes == old(nodes)[1..]
    {
      first := first.next;
      nodes := nodes[1..];
    }

    /** Finds the predecessor of `elm` anew, from the head. `elm` keeps its own link. */
    method Remove(elm: Node<T>, ghost k: nat)
      requires Valid() && k < |nodes| && elm == nodes[k]
      modifies this, nodes
      ensures Valid() && nodes == Without(old(nodes), k)
      ensures Contents() == Without(old(Contents()), k)
      ensures elm.next == old(elm.next)
    {
      DataWithout(nodes, k);
      if first == elm {
        assert k == 0;
        assert Without(nodes, 0) == nodes[1..];
        RemoveHead();
      } else {
        var curelm := first;
        ghost var i := 0;
        while curelm.next != elm
          invariant 0 <= i < k && curelm == nodes[i]
          decreases k - i
        {
          curelm := curelm.next;
          i := i + 1;
        }
        assert i == k - 1;
        curelm.next := curelm.next.next;
        nodes := Without(nodes, k);
      }
    }
  }
}
