/**
 The module list on the heap: a singly-linked list of modules, each with a singly-linked
 list of topics.  Every operation is proved against `ModuleStore`.
 */
module ModuleList {
  import opened Seqs
  import opened SinglyLinkedList
  import opened ModuleStore

  type TopicNodes = seq<Node<string>>

  /** What a module descriptor holds beside its link. */
  class Descriptor {
    const id: int
    const name: string
    const topics: Slist<string>

    constructor (id: int, name: string)
      ensures this.id == id && this.name == name
      ensures topics.Valid() && topics.nodes == [] && fresh(topics)
    {
      this.id, this.name := id, name;
      topics := new Slist<string>();
    }
  }

  /** The descriptor's topic list consists of these nodes, and makes this entry. */
  ghost predicate Describes(d: Descriptor, nodes: TopicNodes, e: Entry)
    reads d.topics, d.topics.nodes
  {
    && d.topics.nodes == nodes && d.topics.Valid()
    && e == Entry(d.id, d.name, DataOf(nodes))
  }

  /** The objects of each topic list are among `owned`, and shared with no other. */
  ghost predicate Apart(nodes: seq<Node<Descriptor>>, topics: seq<TopicNodes>, owned: set<object>)
    requires |nodes| == |topics|
  {
    && (forall i | 0 <= i < |nodes| :: nodes[i].data.topics in owned && forall n | n in topics[i] :: n in owned)
    && (forall i, j | 0 <= i < |nodes| && 0 <= j < |nodes| && i != j ::
          nodes[i].data.topics != nodes[j].data.topics && forall n | n in topics[i] :: n !in topics[j])
  }

  /** The modules at these nodes, with these topic nodes, are the entries `s`. */
  ghost predicate Listed(nodes: seq<Node<Descriptor>>, topics: seq<TopicNodes>, s: Store, owned: set<object>)
    reads owned
  {
    && |nodes| == |topics| == |s|
    && Apart(nodes, topics, owned)
    && (forall i | 0 <= i < |s| :: nodes[i].data.topics.nodes == topics[i])
    && (forall i | 0 <= i < |s| :: Describes(nodes[i].data, topics[i], s[i]))
  }

  lemma ListedCons(n: Node<Descriptor>, nodes: seq<Node<Descriptor>>, topics: seq<TopicNodes>, s: Store,
                   owned: set<object>)
    requires Listed(nodes, topics, s, owned) && n.data.topics !in owned
    requires n.data.topics.Valid() && n.data.topics.nodes == []
    ensures Listed([n] + nodes, [[]] + topics, [Entry(n.data.id, n.data.name, [])] + s, owned + {n.data.topics})
  {
  }

  lemma ListedWithout(nodes: seq<Node<Descriptor>>, topics: seq<TopicNodes>, s: Store, owned: set<object>, k: nat)
    requires Listed(nodes, topics, s, owned) && k < |s|
    ensures Listed(Without(nodes, k), Without(topics, k), Without(s, k), owned)
  {
  }

  /** All topic lists but the k-th are described as before. */
  ghost predicate ListedBut(nodes: seq<Node<Descriptor>>, topics: seq<TopicNodes>, s: Store, owned: set<object>, k: nat)
    reads owned
  {
    && |nodes| == |topics| == |s|
    && Apart(nodes, topics, owned)
    && (forall i | 0 <= i < |s| && i != k :: nodes[i].data.topics.nodes == topics[i])
    && (forall i | 0 <= i < |s| && i != k :: Describes(nodes[i].data, topics[i], s[i]))
  }

  lemma ListedUpdate(nodes: seq<Node<Descriptor>>, topics: seq<TopicNodes>, s: Store, owned: set<object>, k: nat,
                     tk: TopicNodes, owned': set<object>)
    requires ListedBut(nodes, topics, s, owned, k) && k < |s| && owned <= owned'
    requires forall n | n in tk :: n in owned' && (n in topics[k] || n !in owned)
    requires var d := nodes[k].data;
             d.topics.nodes == tk && d.topics.Valid() && s[k].id == d.id && s[k].name == d.name
    ensures Listed(nodes, topics[k := tk], WithTopics(s, k, DataOf(tk)), owned')
  {
  }

  /** Adds the topic to the k-th list, and leaves the other lists alone. */
  method InsertTopic(topics: Slist<string>, newTopic: Node<string>, ghost nodes: seq<Node<Descriptor>>,
                     ghost ts: seq<TopicNodes>, ghost s: Store, ghost owned: set<object>, ghost k: nat)
    requires Listed(nodes, ts, s, owned) && k < |s| && topics == nodes[k].data.topics && newTopic !in owned
    modifies topics, newTopic
    ensures Listed(nodes, ts[k := [newTopic] + ts[k]], WithTopics(s, k, [newTopic.data] + s[k].topics),
                   owned + {newTopic})
  {
    assert Describes(nodes[k].data, ts[k], s[k]);
    topics.InsertHead(newTopic);
    assert ListedBut(nodes, ts, s, owned, k);
    ListedUpdate(nodes, ts, s, owned, k, [newTopic] + ts[k], owned + {newTopic});
  }

  /** Removes the j-th topic from the k-th list, and leaves the other lists alone. */
  method RemoveTopic(topics: Slist<string>, t: Node<string>, ghost j: nat, ghost nodes: seq<Node<Descriptor>>,
                     ghost ts: seq<TopicNodes>, ghost s: Store, ghost owned: set<object>, ghost k: nat)
    requires Listed(nodes, ts, s, owned) && k < |s| && topics == nodes[k].data.topics
    requires j < |ts[k]| && ts[k][j] == t
    modifies topics, ts[k]
    ensures |s[k].topics| == |ts[k]|
    ensures Listed(nodes, ts[k := Without(ts[k], j)], WithTopics(s, k, Without(s[k].topics, j)), owned)
  {
    assert Describes(nodes[k].data, ts[k], s[k]);
    topics.Remove(t, j);
    forall i | 0 <= i < |s| && i != k
      ensures nodes[i].data.topics.nodes == ts[i] && Describes(nodes[i].data, ts[i], s[i])
    {
      var d := nodes[i].data;
      assert d.topics != topics && forall n | n in ts[i] :: n !in ts[k] && n.next == old(n.next);
      assert old(Describes(d, ts[i], s[i]));
    }
    ListedUpdate(nodes, ts, s, owned, k, Without(ts[k], j), owned);
  }

  /** Empties the k-th list, and leaves the other lists alone. */
  method EmptyTopics(topics: Slist<string>, ghost nodes: seq<Node<Descriptor>>,
                     ghost ts: seq<TopicNodes>, ghost s: Store, ghost owned: set<object>, ghost k: nat)
    requires Listed(nodes, ts, s, owned) && k < |s| && topics == nodes[k].data.topics
    modifies topics, ts[k]
    ensures Listed(nodes, ts[k := []], WithTopics(s, k, []), owned)
  {
    assert Describes(nodes[k].data, ts[k], s[k]);
    var _ := TopicListDelAll(topics);
    forall i | 0 <= i < |s| && i != k
      ensures nodes[i].data.topics.nodes == ts[i] && Describes(nodes[i].data, ts[i], s[i])
    {
      var d := nodes[i].data;
      assert d.topics != topics && forall n | n in ts[i] :: n !in ts[k] && n.next == old(n.next);
      assert old(Describes(d, ts[i], s[i]));
    }
    ListedUpdate(nodes, ts, s, owned, k, [], owned);
  }

  /** The first node with this topic, by traversal. */
  method LookupTopic(topic: string, topics: Slist<string>) returns (t: Node?<string>)
    requires topics.Valid()
    ensures t == topics.NodeAt(FindTopic(topics.Contents(), topic))
  {
    ghost var c := topics.Contents();
    t := topics.first;
    ghost var i := 0;
    assert c[0..] == c;
    while t != null
      invariant 0 <= i <= |c| && t == topics.NodeAt(i)
      invariant FindTopic(c, topic) == i + FindTopic(c[i..], topic)
      decreases |c| - i
    {
      if t.data == topic {
        return;
      }
      assert c[i..][1..] == c[i + 1..];
      t := t.next;
      i := i + 1;
    }
  }

  method TopicListIsInList(topic: string, topics: Slist<string>) returns (isIn: bool)
    requires topics.Valid()
    ensures isIn <==> topic in topics.Contents()
  {
    var t := LookupTopic(topic, topics);
    isIn := t != null;
  }

  /** Each node removed is the head of what is left; its own link leads on to the next. */
  method TopicListDelAll(topics: Slist<string>) returns (ret: int)
    requires topics.Valid()
    modifies topics, topics.nodes
    ensures topics.Valid() && topics.nodes == [] && ret == -1
  {
    var t := topics.first;
    ghost var i := 0;
    while t != null
      invariant 0 <= i <= old(|topics.nodes|)
      invariant topics.Valid() && topics.nodes == old(topics.nodes)[i..] && t == topics.first
      decreases |topics.nodes|
    {
      topics.Remove(t, 0);
      t := t.next;
      i := i + 1;
    }
    ret := -1;
  }

  class ModuleList {
    const modules: Slist<Descriptor>
    ghost var topicNodes: seq<TopicNodes>  // of each module
    ghost var owned: set<object>           // what the topic lists are made of
    ghost var Contents: Store
    ghost var Repr: set<object>

    ghost predicate Valid()
      reads this, Repr
      ensures Valid() ==> this in Repr
    {
      && this in Repr && modules in Repr && owned <= Repr
      && this !in owned && modules !in owned
      && (forall n | n in modules.nodes :: n in Repr && n !in owned)
      && modules.Valid()
      && Listed(modules.nodes, topicNodes, Contents, owned)
    }

    constructor ()
      ensures Valid() && Contents == [] && fresh(Repr)
    {
      modules := new Slist<Descriptor>();
      Contents, topicNodes, owned := [], [], {};
      new;
      Repr := {this, modules};
    }

    method Add(id: int, name: string) returns (ret: int)
      requires Valid()
      modifies this, modules
      ensures Valid() && fresh(Repr - old(Repr))
      ensures Contents == Do(old(Contents), Op.Add(id, name)) && ret == 0
    {
      var newMod := new Descriptor(id, name);
      var node := new Node(newMod);
      Push(node);
      ret := 0;
    }

    /** Links a module that shares nothing with the list. */
    method Push(node: Node<Descriptor>)
      requires Valid() && node !in Repr && node.data.topics !in Repr
      requires node.data.topics.Valid() && node.data.topics.nodes == []
      modifies this, modules, node
      ensures Valid() && Repr == old(Repr) + {node, node.data.topics}
      ensures Contents == [Entry(node.data.id, node.data.name, [])] + old(Contents)
    {
      hide Listed;
      modules.InsertHead(node);
      ListedCons(node, old(modules.nodes), topicNodes, Contents, owned);
      topicNodes := [[]] + topicNodes;
      Contents := [Entry(node.data.id, node.data.name, [])] + Contents;
      owned := owned + {node.data.topics};
      Repr := Repr + {node, node.data.topics};
    }

    /** The first module with this id, by traversal. */
    method Lookup(id: int) returns (node: Node?<Descriptor>)
      requires Valid()
      ensures node == modules.NodeAt(Find(Contents, id))
    {
      node := modules.first;
      ghost var i := 0;
      while node != null
        invariant 0 <= i <= |Contents| && node == modules.NodeAt(i)
        invariant Find(Contents, id) == i + Find(Contents[i..], id)
        decreases |Contents| - i
      {
        assert node == modules.nodes[i] && Describes(node.data, topicNodes[i], Contents[i]);
        if node.data.id == id {
          return;
        }
        assert Contents[i..][1..] == Contents[i + 1..];
        node := node.next;
        i := i + 1;
      }
    }

    method GetNameById(id: int) returns (name: string, found: bool)
      requires Valid()
      ensures found == (Stack(Contents, id) != [])
      ensures found ==> name == Stack(Contents, id)[0].name
    {
      FindsTop(Contents, id);
      var node := Lookup(id);
      found := node != null;
      name := "";
      if found {
        ghost var k := Find(Contents, id);
        assert Describes(node.data, topicNodes[k], Contents[k]);
        name := node.data.name;
      }
    }

    lemma OwnsTopics(k: nat)
      requires Valid() && k < |Contents|
      ensures |modules.nodes| == |topicNodes| == |Contents|
      ensures var topics := modules.nodes[k].data.topics;
              && topics in owned && topics.nodes == topicNodes[k] && Contents[k].topics == DataOf(topicNodes[k])
              && forall n | n in topicNodes[k] :: n in owned
    {
      assert Describes(modules.nodes[k].data, topicNodes[k], Contents[k]);
    }

    /** Empties the topic list of the k-th module. */
    method EmptyModule(mod: Node<Descriptor>, ghost k: nat)
      requires Valid() && k < |Contents| && mod == modules.nodes[k]
      modifies Repr
      ensures Valid() && Repr == old(Repr) && modules.nodes == old(modules.nodes)
      ensures Contents == WithTopics(old(Contents), k, [])
    {
      OwnsTopics(k);
      hide Listed;
      EmptyTopics(mod.data.topics, modules.nodes, topicNodes, Contents, owned, k);
      topicNodes, Contents := topicNodes[k := []], WithTopics(Contents, k, []);
    }

    /** Unlinks the k-th module. */
    method Unlink(mod: Node<Descriptor>, ghost k: nat)
      requires Valid() && k < |Contents| && mod == modules.nodes[k]
      modifies Repr
      ensures Valid() && Repr == old(Repr) && Contents == Without(old(Contents), k)
    {
      ListedWithout(modules.nodes, topicNodes, Contents, owned, k);
      topicNodes, Contents := Without(topicNodes, k), Without(Contents, k);
      modules.Remove(mod, k);
    }

    method DelById(id: int) returns (ret: int)
      requires Valid()
      modifies Repr
      ensures Valid() && Repr == old(Repr)
      ensures Contents == Do(old(Contents), Delete(id)) && ret == Returned(old(Contents), Delete(id))
    {
      ghost var k := Find(Contents, id);
      var mod := Lookup(id);
      if mod == null {
        return -1;
      }
      EmptyModule(mod, k);
      Unlink(mod, k);
      return 0;
    }

    /** Adds a topic to the k-th module. */
    method Prepend(mod: Node<Descriptor>, topic: string, ghost k: nat)
      requires Valid() && k < |Contents| && mod == modules.nodes[k]
      modifies Repr
      ensures Valid() && fresh(Repr - old(Repr))
      ensures Contents == WithTopics(old(Contents), k, [topic] + old(Contents)[k].topics)
    {
      OwnsTopics(k);
      hide Listed;
      var newTopic := new Node(topic);
      InsertTopic(mod.data.topics, newTopic, modules.nodes, topicNodes, Contents, owned, k);
      topicNodes := topicNodes[k := [newTopic] + topicNodes[k]];
      Contents := WithTopics(Contents, k, [topic] + Contents[k].topics);
      owned, Repr := owned + {newTopic}, Repr + {newTopic};
    }

    method TopicCheckAndAdd(topic: string, id: int) returns (ret: int)
      requires Valid()
      modifies Repr
      ensures Valid() && fresh(Repr - old(Repr))
      ensures Contents == Do(old(Contents), AddTopic(id, topic)) && ret == Returned(old(Contents), AddTopic(id, topic))
    {
      ghost var k := Find(Contents, id);
      var mod := Lookup(id);
      if mod == null {
        return -1;
      }
      assert Describes(mod.data, topicNodes[k], Contents[k]);
      var isIn := TopicListIsInList(topic, mod.data.topics);
      if isIn {
        return 0;
      }
      Prepend(mod, topic, k);
      return 1;
    }

    /** Removes the j-th topic of the k-th module. */
    method Drop(mod: Node<Descriptor>, t: Node<string>, ghost k: nat, ghost j: nat)
      requires Valid() && k < |Contents| && mod == modules.nodes[k]
      requires j < |Contents[k].topics| && t == mod.data.topics.NodeAt(j)
      modifies Repr
      ensures Valid() && Repr == old(Repr)
      ensures Contents == WithTopics(old(Contents), k, Without(old(Contents)[k].topics, j))
    {
      OwnsTopics(k);
      hide Listed;
      RemoveTopic(mod.data.topics, t, j, modules.nodes, topicNodes, Contents, owned, k);
      topicNodes := topicNodes[k := Without(topicNodes[k], j)];
      Contents := WithTopics(Contents, k, Without(Contents[k].topics, j));
    }

    method TopicListDel(topic: string, id: int) returns (ret: int)
      requires Valid()
      modifies Repr
      ensures Valid() && Repr == old(Repr)
      ensures Contents == Do(old(Contents), DropTopic(id, topic))
      ensures ret == Returned(old(Contents), DropTopic(id, topic))
    {
      ghost var k := Find(Contents, id);
      var mod := Lookup(id);
      if mod == null {
        return -1;
      }
      assert Describes(mod.data, topicNodes[k], Contents[k]);
      var t := LookupTopic(topic, mod.data.topics);
      if t == null {
        return -1;
      }
      Drop(mod, t, k, FindTopic(Contents[k].topics, topic));
      return 0;
    }
  }
}
