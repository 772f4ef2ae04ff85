/**
 The browser's graph: nodes and edges kept from the start and stop events, with an edge
 from every publisher to every subscriber of the same topic.  The graph library is
 modelled by what it promises: ids are unique, an edge needs both its ends, and removing
 a node removes its descendants and every edge that touches them.
 */
module Viewer {
  import opened Seqs
  import opened Events
  import N = NetState

  /** Nodes in insertion order; a parent that is not there yet is dropped. */
  datatype Node = Node(id: string, parent: Option<string>)

  datatype Edge = Edge(id: string, source: string, target: string)

  datatype Graph = Graph(nodes: seq<Node>, edges: seq<Edge>)

  predicate HasId(nodes: seq<Node>, id: string) {
    exists i | 0 <= i < |nodes| :: nodes[i].id == id
  }

  predicate HasNode(g: Graph, id: string) {
    HasId(g.nodes, id)
  }

  predicate HasEdgeId(g: Graph, id: string) {
    exists i | 0 <= i < |g.edges| :: g.edges[i].id == id
  }

  predicate HasEdge(g: Graph, source: string, target: string) {
    exists i | 0 <= i < |g.edges| :: g.edges[i].source == source && g.edges[i].target == target
  }

  function EdgeId(source: string, target: string): (id: string) {
    source + "-" + target
  }

  // ---- The graph library ----

  function AddNode(g: Graph, id: string, parent: Option<string>): (r: Graph) {
    if HasNode(g, id) || HasEdgeId(g, id) then g
    else
      var known := if parent.Some? && HasNode(g, parent.value) then parent else None;
      g.(nodes := g.nodes + [Node(id, known)])
  }

  function AddEdge(g: Graph, source: string, target: string): (r: Graph) {
    var id := EdgeId(source, target);
    if HasNode(g, id) || HasEdgeId(g, id) || !HasNode(g, source) || !HasNode(g, target) then g
    else g.(edges := g.edges + [Edge(id, source, target)])
  }

  /** The node `id` and its descendants: parents come before their children. */
  function Doomed(nodes: seq<Node>, id: string): (d: set<string>)
    ensures id in d
  {
    if nodes == [] then {id}
    else
      var k := |nodes| - 1;
      var d := Doomed(nodes[..k], id);
      if nodes[k].parent.Some? && nodes[k].parent.value in d then d + {nodes[k].id} else d
  }

  function NodesBut(nodes: seq<Node>, d: set<string>): (r: seq<Node>) {
    if nodes == [] then []
    else
      var k := |nodes| - 1;
      NodesBut(nodes[..k], d) + if nodes[k].id in d then [] else [nodes[k]]
  }

  function EdgesBut(edges: seq<Edge>, d: set<string>): (r: seq<Edge>) {
    if edges == [] then []
    else (if edges[0].source in d || edges[0].target in d then [] else [edges[0]]) + EdgesBut(edges[1..], d)
  }

  function EdgesButId(edges: seq<Edge>, id: string): (r: seq<Edge>) {
    if edges == [] then [] else (if edges[0].id == id then [] else [edges[0]]) + EdgesButId(edges[1..], id)
  }

  function Remove(g: Graph, id: string): (r: Graph) {
    if HasNode(g, id) then
      var d := Doomed(g.nodes, id);
      Graph(NodesBut(g.nodes, d), EdgesBut(g.edges, d))
    else g.(edges := EdgesButId(g.edges, id))
  }

  // ---- Loading an event ----

  datatype View = View(g: Graph, pubs: seq<Event>, subs: seq<Event>)

  function JoinOne(g: Graph, pub: Event, subs: seq<Event>): (r: Graph)
    decreases |subs|
  {
    if subs == [] then g
    else JoinOne(if pub.name == subs[0].name then AddEdge(g, pub.id, subs[0].id) else g, pub, subs[1..])
  }

  function Join(g: Graph, pubs: seq<Event>, subs: seq<Event>): (r: Graph)
    decreases |pubs|
  {
    if pubs == [] then g else Join(JoinOne(g, pubs[0], subs), pubs[1..], subs)
  }

  /** Whether the event has the connections joined again. */
  predicate ChangesConnections(cmd: Cmd) {
    cmd.PubStart? || cmd.SubStart? || cmd.PubStop? || cmd.SubStop?
  }

  function PubsAfter(pubs: seq<Event>, e: Event): (r: seq<Event>) {
    if e.cmd.PubStart? then pubs + [e] else if e.cmd.PubStop? then N.RemoveId(pubs, e.id) else pubs
  }

  function SubsAfter(subs: seq<Event>, e: Event): (r: seq<Event>) {
    if e.cmd.SubStart? then subs + [e] else if e.cmd.SubStop? then N.RemoveId(subs, e.id) else subs
  }

  function Load(v: View, e: Event): (r: View) {
    var g := if IsStart(e.cmd) then AddNode(v.g, e.id, e.parent)
             else if IsStop(e.cmd) then Remove(v.g, e.id)
             else v.g;
    var pubs, subs := PubsAfter(v.pubs, e), SubsAfter(v.subs, e);
    View(if ChangesConnections(e.cmd) then Join(g, pubs, subs) else g, pubs, subs)
  }

  function LoadAll(v: View, es: seq<Event>): (r: View)
    decreases |es|
  {
    if es == [] then v else LoadAll(Load(v, es[0]), es[1..])
  }

  /** The page's globals. */
  class Page {
    var g: Graph
    var pubs: seq<Event>
    var subs: seq<Event>

    function State(): View
      reads this
    {
      View(g, pubs, subs)
    }

    constructor ()
      ensures State() == View(Graph([], []), [], [])
    {
      g, pubs, subs := Graph([], []), [], [];
    }

    method LoadNode(nodeObj: Event)
      modifies this
      ensures State() == Load(old(State()), nodeObj)
    {
      var connChange := false;
      if IsStart(nodeObj.cmd) {
        g := AddNode(g, nodeObj.id, nodeObj.parent);
        if nodeObj.cmd == PubStart {
          pubs := pubs + [nodeObj];
          connChange := true;
        } else if nodeObj.cmd == SubStart {
          subs := subs + [nodeObj];
          connChange := true;
        }
      }
      if IsStop(nodeObj.cmd) {
        g := Remove(g, nodeObj.id);
        if nodeObj.cmd == PubStop {
          pubs := N.RemoveId(pubs, nodeObj.id);
          connChange := true;
        } else if nodeObj.cmd == SubStop {
          subs := N.RemoveId(subs, nodeObj.id);
          connChange := true;
        }
      }
      if connChange {
        Connect();
      }
    }

    /** Tries every pair; the library rejects the edges that are there or lack an end. */
    method Connect()
      modifies `g
      ensures g == Join(old(g), pubs, subs)
    {
      ghost var start := g;
      assert pubs[0..] == pubs;
      for i := 0 to |pubs|
        invariant Join(start, pubs, subs) == Join(g, pubs[i..], subs)
      {
        MoveOn([], pubs, i);
        ghost var before := g;
        assert subs[0..] == subs;
        for j := 0 to |subs|
          invariant JoinOne(before, pubs[i], subs) == JoinOne(g, pubs[i], subs[j..])
        {
          MoveOn([], subs, j);
          if pubs[i].name == subs[j].name {
            g := AddEdge(g, pubs[i].id, subs[j].id);
          }
        }
      }
    }

    method LoadNodesFromDataArray(dataArray: seq<Event>)
      modifies this
      ensures State() == LoadAll(old(State()), dataArray)
    {
      ghost var start := State();
      assert dataArray[0..] == dataArray;
      for i := 0 to |dataArray|
        invariant LoadAll(start, dataArray) == LoadAll(State(), dataArray[i..])
      {
        MoveOn([], dataArray, i);
        LoadNode(dataArray[i]);
      }
    }
  }

  // ---- The edges are the join ----

  /** No edge id is a node id, and no two pairs of nodes have one edge id. */
  ghost predicate Separable(ids: set<string>) {
    && (forall a, b, c | a in ids && b in ids && c in ids :: EdgeId(a, b) != c)
    && (forall a, b, c, d | a in ids && b in ids && c in ids && d in ids ::
          EdgeId(a, b) == EdgeId(c, d) ==> a == c && b == d)
  }

  /** Node ids are unique and known, and each edge joins two nodes under their edge id. */
  ghost predicate WellFormed(g: Graph, ids: set<string>) {
    && (forall i | 0 <= i < |g.nodes| :: g.nodes[i].id in ids)
    && DistinctIds(g.nodes) && ParentsFirst(g.nodes)
    && (forall i | 0 <= i < |g.edges| ::
          var e := g.edges[i]; e.id == EdgeId(e.source, e.target) && HasNode(g, e.source) && HasNode(g, e.target))
  }

  lemma HasNodeKnown(g: Graph, ids: set<string>, id: string)
    requires WellFormed(g, ids) && HasNode(g, id)
    ensures id in ids
  {
  }

  lemma NoEdgeIsNode(g: Graph, ids: set<string>, id: string)
    requires Separable(ids) && WellFormed(g, ids) && id in ids
    ensures !HasEdgeId(g, id)
  {
    forall i | 0 <= i < |g.edges| ensures g.edges[i].id != id {
      var e := g.edges[i];
      HasNodeKnown(g, ids, e.source);
      HasNodeKnown(g, ids, e.target);
    }
  }

  lemma EdgeOneMore(g: Graph, e: Edge, source: string, target: string)
    ensures HasEdge(g.(edges := g.edges + [e]), source, target) <==>
            HasEdge(g, source, target) || (e.source == source && e.target == target)
  {
    var h := g.(edges := g.edges + [e]);
    assert h.edges[|g.edges|] == e;
    assert forall i | 0 <= i < |g.edges| :: h.edges[i] == g.edges[i];
  }

  /** Adding an edge leaves the nodes alone, and the edge there if it can be. */
  lemma AddEdgeEffect(g: Graph, ids: set<string>, source: string, target: string, a: string, b: string)
    requires Separable(ids) && WellFormed(g, ids)
    ensures var h := AddEdge(g, source, target);
            && h.nodes == g.nodes && WellFormed(h, ids)
            && (HasEdge(h, a, b) <==>
                HasEdge(g, a, b) || (a == source && b == target && HasNode(g, source) && HasNode(g, target)))
  {
    var h := AddEdge(g, source, target);
    var id := EdgeId(source, target);
    assert forall n :: HasNode(h, n) <==> HasNode(g, n);
    if HasNode(g, source) && HasNode(g, target) {
      HasNodeKnown(g, ids, source);
      HasNodeKnown(g, ids, target);
      assert !HasNode(g, id);
      if HasEdgeId(g, id) {
        var i :| 0 <= i < |g.edges| && g.edges[i].id == id;
        HasNodeKnown(g, ids, g.edges[i].source);
        HasNodeKnown(g, ids, g.edges[i].target);
        assert HasEdge(g, source, target);
      } else {
        EdgeOneMore(g, Edge(id, source, target), a, b);
      }
    }
  }

  /** A subscriber `b` of the topic. */
  ghost predicate Subscribes(subs: seq<Event>, topic: string, b: string) {
    exists j | 0 <= j < |subs| :: subs[j].id == b && subs[j].name == topic
  }

  /** A publisher `a` and a subscriber `b` of one topic. */
  ghost predicate Matches(pubs: seq<Event>, subs: seq<Event>, a: string, b: string) {
    exists i | 0 <= i < |pubs| :: pubs[i].id == a && Subscribes(subs, pubs[i].name, b)
  }

  lemma {:induction false} JoinOneEffect(g: Graph, ids: set<string>, pub: Event, subs: seq<Event>, a: string, b: string)
    requires Separable(ids) && WellFormed(g, ids)
    ensures var h := JoinOne(g, pub, subs);
            && h.nodes == g.nodes && WellFormed(h, ids)
            && (HasEdge(h, a, b) <==>
                HasEdge(g, a, b)
                || (a == pub.id && HasNode(g, a) && HasNode(g, b) && Subscribes(subs, pub.name, b)))
    decreases |subs|
  {
    if subs != [] {
      var sub, rest := subs[0], subs[1..];
      var h := if pub.name == sub.name then AddEdge(g, pub.id, sub.id) else g;
      AddEdgeEffect(g, ids, pub.id, sub.id, a, b);
      JoinOneEffect(h, ids, pub, rest, a, b);
      SubscribesCons(sub, rest, pub.name, b);
      assert subs == [sub] + rest;
    }
  }

  lemma SubscribesCons(sub: Event, subs: seq<Event>, topic: string, b: string)
    ensures Subscribes([sub] + subs, topic, b) <==> (sub.id == b && sub.name == topic) || Subscribes(subs, topic, b)
  {
    assert ([sub] + subs)[0] == sub;
    assert forall j | 0 <= j < |subs| :: ([sub] + subs)[j + 1] == subs[j];
  }

  lemma MatchesCons(pub: Event, pubs: seq<Event>, subs: seq<Event>, a: string, b: string)
    ensures Matches([pub] + pubs, subs, a, b) <==>
            (pub.id == a && Subscribes(subs, pub.name, b)) || Matches(pubs, subs, a, b)
  {
    assert ([pub] + pubs)[0] == pub;
    assert forall j | 0 <= j < |pubs| :: ([pub] + pubs)[j + 1] == pubs[j];
  }

  /** Joining adds exactly the missing edges of matching pairs of nodes. */
  lemma {:induction false} JoinEffect(g: Graph, ids: set<string>, pubs: seq<Event>, subs: seq<Event>,
                                      a: string, b: string)
    requires Separable(ids) && WellFormed(g, ids)
    ensures var h := Join(g, pubs, subs);
            && h.nodes == g.nodes && WellFormed(h, ids)
            && (HasEdge(h, a, b) <==>
                HasEdge(g, a, b) || (HasNode(g, a) && HasNode(g, b) && Matches(pubs, subs, a, b)))
    decreases |pubs|
  {
    if pubs != [] {
      JoinOneEffect(g, ids, pubs[0], subs, a, b);
      JoinEffect(JoinOne(g, pubs[0], subs), ids, pubs[1..], subs, a, b);
      MatchesCons(pubs[0], pubs[1..], subs, a, b);
      assert pubs == [pubs[0]] + pubs[1..];
    }
  }

  // ---- Removing ----

  /** Every parent is a node that comes before its child. */
  ghost predicate ParentsFirst(nodes: seq<Node>) {
    nodes != [] ==>
      var k := |nodes| - 1;
      ParentsFirst(nodes[..k]) && (nodes[k].parent.Some? ==> HasId(nodes[..k], nodes[k].parent.value))
  }

  ghost predicate DistinctIds(nodes: seq<Node>) {
    forall i, j | 0 <= i < j < |nodes| :: nodes[i].id != nodes[j].id
  }

  /** A node is doomed exactly when it is the one removed or its parent is doomed. */
  lemma {:induction false} DoomedAreDescendants(nodes: seq<Node>, id: string, i: nat)
    requires DistinctIds(nodes) && ParentsFirst(nodes) && i < |nodes|
    ensures var d := Doomed(nodes, id); var n := nodes[i];
            && (n.id in d <==> n.id == id || (n.parent.Some? && n.parent.value in d))
            && (n.parent.Some? ==> HasId(nodes, n.parent.value) && n.parent.value != n.id)
    decreases |nodes|
  {
    var k := |nodes| - 1;
    var rest := nodes[..k];
    DoomedAreKnown(rest, id, nodes[k].id);
    if i < k {
      DoomedAreDescendants(rest, id, i);
      assert rest[i] == nodes[i];
      if nodes[i].parent.Some? {
        var j :| 0 <= j < |rest| && rest[j].id == nodes[i].parent.value;
        assert nodes[j].id == nodes[i].parent.value;
      }
    } else if nodes[k].parent.Some? {
      var j :| 0 <= j < |rest| && rest[j].id == nodes[k].parent.value;
      assert nodes[j].id == nodes[k].parent.value;
    }
  }

  lemma {:induction false} DoomedAreKnown(nodes: seq<Node>, id: string, n: string)
    ensures n in Doomed(nodes, id) ==> n == id || HasId(nodes, n)
  {
    if nodes != [] {
      var k := |nodes| - 1;
      DoomedAreKnown(nodes[..k], id, n);
      assert forall i | 0 <= i < k :: nodes[..k][i] == nodes[i];
    }
  }

  lemma HasIdOneMore(nodes: seq<Node>, n: Node, id: string)
    ensures HasId(nodes + [n], id) <==> HasId(nodes, id) || n.id == id
  {
    assert (nodes + [n])[|nodes|] == n;
    assert forall i | 0 <= i < |nodes| :: (nodes + [n])[i] == nodes[i];
  }

  /** Adding a node keeps the edges, and the graph well formed. */
  lemma AddNodeEffect(g: Graph, ids: set<string>, id: string, parent: Option<string>, a: string)
    requires Separable(ids) && WellFormed(g, ids) && id in ids
    ensures var h := AddNode(g, id, parent);
            && h.edges == g.edges && WellFormed(h, ids)
            && (HasNode(h, a) <==> HasNode(g, a) || a == id)
  {
    var h := AddNode(g, id, parent);
    NoEdgeIsNode(g, ids, id);
    if !HasNode(g, id) {
      var n := h.nodes[|g.nodes|];
      assert h.nodes[..|g.nodes|] == g.nodes;
      forall b ensures HasNode(h, b) <==> HasNode(g, b) || b == id {
        HasIdOneMore(g.nodes, n, b);
      }
    }
  }

  lemma {:induction false} NodesButEffect(nodes: seq<Node>, d: set<string>, n: string)
    ensures HasId(NodesBut(nodes, d), n) <==> HasId(nodes, n) && n !in d
  {
    if nodes != [] {
      var rest, last := nodes[..|nodes| - 1], nodes[|nodes| - 1];
      NodesButEffect(rest, d, n);
      assert nodes == rest + [last];
      HasIdOneMore(rest, last, n);
      if last.id in d {
        assert NodesBut(rest, d) + [] == NodesBut(rest, d);
      } else {
        HasIdOneMore(NodesBut(rest, d), last, n);
      }
    }
  }

  lemma {:induction false} NodesButArePart(nodes: seq<Node>, d: set<string>)
    ensures forall n | n in NodesBut(nodes, d) :: n in nodes
  {
    if nodes != [] {
      NodesButArePart(nodes[..|nodes| - 1], d);
    }
  }

  lemma {:induction false} NodesButDistinct(nodes: seq<Node>, d: set<string>)
    requires DistinctIds(nodes)
    ensures DistinctIds(NodesBut(nodes, d))
  {
    if nodes != [] {
      var rest, last := nodes[..|nodes| - 1], nodes[|nodes| - 1];
      var r := NodesBut(rest, d);
      NodesButDistinct(rest, d);
      NodesButArePart(rest, d);
      assert forall n | n in rest :: n.id != last.id;
      assert forall i | 0 <= i < |r| :: r[i] in rest;
    }
  }

  /** Removing a set that holds the children of its members keeps parents before children. */
  lemma {:induction false} NodesButKeepsOrder(nodes: seq<Node>, d: set<string>)
    requires ParentsFirst(nodes)
    requires forall i | 0 <= i < |nodes| && nodes[i].parent.Some? && nodes[i].parent.value in d :: nodes[i].id in d
    ensures ParentsFirst(NodesBut(nodes, d))
  {
    if nodes != [] {
      var rest, last := nodes[..|nodes| - 1], nodes[|nodes| - 1];
      var r := NodesBut(rest, d);
      NodesButKeepsOrder(rest, d);
      if last.id in d {
        assert r + [] == r;
      } else {
        assert (r + [last])[..|r|] == r;
        if last.parent.Some? {
          NodesButEffect(rest, d, last.parent.value);
        }
      }
    }
  }

  lemma {:induction false} EdgesButEffect(edges: seq<Edge>, d: set<string>)
    ensures forall e :: e in EdgesBut(edges, d) <==> e in edges && e.source !in d && e.target !in d
  {
    if edges != [] {
      EdgesButEffect(edges[1..], d);
      assert edges == [edges[0]] + edges[1..];
    }
  }

  lemma {:induction false} EdgesButIdNone(edges: seq<Edge>, id: string)
    requires forall i | 0 <= i < |edges| :: edges[i].id != id
    ensures EdgesButId(edges, id) == edges
  {
    if edges != [] {
      EdgesButIdNone(edges[1..], id);
    }
  }

  lemma HasEdgeIn(g: Graph, a: string, b: string)
    ensures HasEdge(g, a, b) <==> exists e :: e in g.edges && e.source == a && e.target == b
  {
    if HasEdge(g, a, b) {
      var i :| 0 <= i < |g.edges| && g.edges[i].source == a && g.edges[i].target == b;
      assert g.edges[i] in g.edges;
    }
  }

  /** What a removal takes away: nothing if there is no such node. */
  function Taken(g: Graph, id: string): (d: set<string>) {
    if HasNode(g, id) then Doomed(g.nodes, id) else {}
  }

  /** The nodes that are left are distinct, known, and after their parents. */
  lemma NodesLeft(g: Graph, ids: set<string>, id: string)
    requires WellFormed(g, ids)
    ensures var nodes := NodesBut(g.nodes, Doomed(g.nodes, id));
            && (forall i | 0 <= i < |nodes| :: nodes[i].id in ids)
            && DistinctIds(nodes) && ParentsFirst(nodes)
  {
    var d := Doomed(g.nodes, id);
    forall i | 0 <= i < |g.nodes| && g.nodes[i].parent.Some? && g.nodes[i].parent.value in d
      ensures g.nodes[i].id in d
    {
      DoomedAreDescendants(g.nodes, id, i);
    }
    NodesButKeepsOrder(g.nodes, d);
    NodesButDistinct(g.nodes, d);
    NodesButArePart(g.nodes, d);
    var nodes := NodesBut(g.nodes, d);
    assert forall i | 0 <= i < |nodes| :: nodes[i] in g.nodes;
  }

  lemma RemovedKeepsWellFormed(g: Graph, ids: set<string>, id: string)
    requires WellFormed(g, ids) && HasNode(g, id)
    ensures WellFormed(Remove(g, id), ids)
  {
    var h, d := Remove(g, id), Doomed(g.nodes, id);
    NodesLeft(g, ids, id);
    EdgesButEffect(g.edges, d);
    forall i | 0 <= i < |h.edges|
      ensures var e := h.edges[i]; e.id == EdgeId(e.source, e.target) && HasNode(h, e.source) && HasNode(h, e.target)
    {
      var e := h.edges[i];
      assert e in g.edges;
      NodesButEffect(g.nodes, d, e.source);
      NodesButEffect(g.nodes, d, e.target);
    }
  }

  /** A removal takes the doomed nodes and every edge that touches one, and nothing else. */
  lemma {:induction false} RemoveEffect(g: Graph, ids: set<string>, id: string, a: string, b: string)
    requires Separable(ids) && WellFormed(g, ids) && id in ids
    ensures var h := Remove(g, id); var d := Taken(g, id);
            && WellFormed(h, ids)
            && (HasNode(h, a) <==> HasNode(g, a) && a !in d)
            && (HasEdge(h, a, b) <==> HasEdge(g, a, b) && a !in d && b !in d)
  {
    var h, d := Remove(g, id), Taken(g, id);
    if !HasNode(g, id) {
      NoEdgeIsNode(g, ids, id);
      EdgesButIdNone(g.edges, id);
    } else {
      RemovedKeepsWellFormed(g, ids, id);
      NodesButEffect(g.nodes, d, a);
      EdgesButEffect(g.edges, d);
      HasEdgeIn(g, a, b);
      HasEdgeIn(h, a, b);
    }
  }

  // ---- Every event ----

  ghost predicate Joined(v: View, a: string, b: string) {
    HasEdge(v.g, a, b) <==> HasNode(v.g, a) && HasNode(v.g, b) && Matches(v.pubs, v.subs, a, b)
  }

  /** The edges are exactly the matching pairs whose two nodes are present. */
  ghost predicate IsJoin(v: View) {
    forall a, b :: Joined(v, a, b)
  }

  /** A runtime or module start brings in a node that completes a matching pair. */
  ghost predicate WakesPair(v: View, e: Event) {
    && (e.cmd.RtStart? || e.cmd.ModuleInst?) && !HasNode(v.g, e.id)
    && exists o :: (o == e.id || HasNode(v.g, o))
                   && (Matches(v.pubs, v.subs, e.id, o) || Matches(v.pubs, v.subs, o, e.id))
  }

  /** Joining again restores the join wherever no edge is left that should be gone. */
  lemma JoinRestores(g: Graph, ids: set<string>, pubs: seq<Event>, subs: seq<Event>, a: string, b: string)
    requires Separable(ids) && WellFormed(g, ids)
    requires HasEdge(g, a, b) ==> Matches(pubs, subs, a, b)
    ensures WellFormed(Join(g, pubs, subs), ids) && Joined(View(Join(g, pubs, subs), pubs, subs), a, b)
  {
    var h := Join(g, pubs, subs);
    JoinEffect(g, ids, pubs, subs, a, b);
    assert HasNode(h, a) == HasNode(g, a) && HasNode(h, b) == HasNode(g, b);
    if HasEdge(g, a, b) {
      EdgeHasEnds(g, ids, a, b);
    }
  }

  lemma EdgeHasEnds(g: Graph, ids: set<string>, a: string, b: string)
    requires WellFormed(g, ids) && HasEdge(g, a, b)
    ensures HasNode(g, a) && HasNode(g, b)
  {
  }

  /** An event that joins again leaves the join. */
  lemma JoinedAgain(v: View, ids: set<string>, e: Event, a: string, b: string)
    requires Separable(ids) && WellFormed(v.g, ids) && e.id in ids && ChangesConnections(e.cmd)
    requires Joined(v, a, b)
    ensures WellFormed(Load(v, e).g, ids) && Joined(Load(v, e), a, b)
  {
    var pubs, subs := PubsAfter(v.pubs, e), SubsAfter(v.subs, e);
    if IsStart(e.cmd) {
      AddNodeEffect(v.g, ids, e.id, e.parent, a);
      MatchesGrow(v, e, a, b);
      JoinRestores(AddNode(v.g, e.id, e.parent), ids, pubs, subs, a, b);
    } else {
      RemoveEffect(v.g, ids, e.id, a, b);
      if HasEdge(Remove(v.g, e.id), a, b) {
        EdgeHasEnds(v.g, ids, a, b);
        assert HasNode(v.g, e.id) ==> e.id in Taken(v.g, e.id);
        MatchesShrink(v, e, a, b);
      }
      JoinRestores(Remove(v.g, e.id), ids, pubs, subs, a, b);
    }
  }

  lemma MatchesGrow(v: View, e: Event, a: string, b: string)
    requires e.cmd.PubStart? || e.cmd.SubStart?
    ensures Matches(v.pubs, v.subs, a, b) ==> Matches(PubsAfter(v.pubs, e), SubsAfter(v.subs, e), a, b)
  {
    if Matches(v.pubs, v.subs, a, b) {
      var i :| 0 <= i < |v.pubs| && v.pubs[i].id == a && Subscribes(v.subs, v.pubs[i].name, b);
      var j :| 0 <= j < |v.subs| && v.subs[j].id == b && v.subs[j].name == v.pubs[i].name;
      assert PubsAfter(v.pubs, e)[i] == v.pubs[i] && SubsAfter(v.subs, e)[j] == v.subs[j];
      assert Subscribes(SubsAfter(v.subs, e), v.pubs[i].name, b);
    }
  }

  lemma {:induction false} RemoveIdKeepsOthers(d: seq<Event>, id: string, x: Event)
    requires x in d && x.id != id
    ensures x in N.RemoveId(d, id)
  {
    if d[0] != x {
      RemoveIdKeepsOthers(d[1..], id, x);
    }
  }

  lemma MatchesShrink(v: View, e: Event, a: string, b: string)
    requires (e.cmd.PubStop? || e.cmd.SubStop?) && a != e.id && b != e.id
    ensures Matches(v.pubs, v.subs, a, b) ==> Matches(PubsAfter(v.pubs, e), SubsAfter(v.subs, e), a, b)
  {
    var pubs, subs := PubsAfter(v.pubs, e), SubsAfter(v.subs, e);
    if Matches(v.pubs, v.subs, a, b) {
      var i :| 0 <= i < |v.pubs| && v.pubs[i].id == a && Subscribes(v.subs, v.pubs[i].name, b);
      var j :| 0 <= j < |v.subs| && v.subs[j].id == b && v.subs[j].name == v.pubs[i].name;
      if e.cmd.PubStop? {
        RemoveIdKeepsOthers(v.pubs, e.id, v.pubs[i]);
      } else {
        RemoveIdKeepsOthers(v.subs, e.id, v.subs[j]);
      }
      var k :| 0 <= k < |pubs| && pubs[k] == v.pubs[i];
      var l :| 0 <= l < |subs| && subs[l] == v.subs[j];
      assert Subscribes(subs, pubs[k].name, b);
    }
  }

  /** An event that only removes a node leaves the join. */
  lemma JoinedLess(v: View, ids: set<string>, e: Event, a: string, b: string)
    requires Separable(ids) && WellFormed(v.g, ids) && e.id in ids && (e.cmd.RtStop? || e.cmd.ModuleUninst?)
    requires Joined(v, a, b)
    ensures WellFormed(Load(v, e).g, ids) && Joined(Load(v, e), a, b)
  {
    RemoveEffect(v.g, ids, e.id, a, b);
    RemoveEffect(v.g, ids, e.id, b, a);
  }

  lemma JoinedOtherwise(v: View, ids: set<string>, e: Event, a: string, b: string)
    requires Separable(ids) && WellFormed(v.g, ids) && e.id in ids && !e.cmd.RtStart? && !e.cmd.ModuleInst?
    requires Joined(v, a, b)
    ensures WellFormed(Load(v, e).g, ids) && Joined(Load(v, e), a, b)
  {
    if ChangesConnections(e.cmd) {
      JoinedAgain(v, ids, e, a, b);
    } else if IsStop(e.cmd) {
      JoinedLess(v, ids, e, a, b);
    }
  }

  /** A runtime or module start keeps the join exactly when it wakes no pair. */
  lemma JoinedWithNode(v: View, ids: set<string>, e: Event)
    requires Separable(ids) && WellFormed(v.g, ids) && e.id in ids && (e.cmd.RtStart? || e.cmd.ModuleInst?)
    requires IsJoin(v)
    ensures WellFormed(Load(v, e).g, ids) && (IsJoin(Load(v, e)) <==> !WakesPair(v, e))
  {
    var w := Load(v, e);
    assert w.pubs == v.pubs && w.subs == v.subs;
    forall a
      ensures w.g.edges == v.g.edges && WellFormed(w.g, ids) && (HasNode(w.g, a) <==> HasNode(v.g, a) || a == e.id)
    {
      AddNodeEffect(v.g, ids, e.id, e.parent, a);
    }
    assert forall a, b :: HasEdge(w.g, a, b) == HasEdge(v.g, a, b);
    if WakesPair(v, e) {
      var o :| (o == e.id || HasNode(v.g, o)) && (Matches(v.pubs, v.subs, e.id, o) || Matches(v.pubs, v.subs, o, e.id));
      var (a, b) := if Matches(v.pubs, v.subs, e.id, o) then (e.id, o) else (o, e.id);
      assert Joined(v, a, b) && !Joined(w, a, b);
    } else {
      forall a, b ensures Joined(w, a, b) {
        assert Joined(v, a, b);
      }
    }
  }

  /**
   The graph stays the join over an event exactly when the event is not a runtime or module
   start whose node completes a pair of listed publishers and subscribers.
   */
  lemma {:induction false} JoinKeptExactly(v: View, ids: set<string>, e: Event)
    requires Separable(ids) && WellFormed(v.g, ids) && e.id in ids && IsJoin(v)
    ensures WellFormed(Load(v, e).g, ids)
    ensures IsJoin(Load(v, e)) <==> !WakesPair(v, e)
  {
    if e.cmd.RtStart? || e.cmd.ModuleInst? {
      JoinedWithNode(v, ids, e);
    } else {
      assert Joined(v, e.id, e.id);
      JoinedOtherwise(v, ids, e, e.id, e.id);
      forall a, b ensures Joined(Load(v, e), a, b) {
        assert Joined(v, a, b);
        JoinedOtherwise(v, ids, e, a, b);
      }
    }
  }

  // ---- Every trace ----

  /** No runtime or module carries the id of a publisher or subscriber. */
  ghost predicate KindsApart(pubsAndSubs: set<string>, e: Event) {
    && (e.cmd.PubStart? || e.cmd.SubStart? ==> e.id in pubsAndSubs)
    && (e.cmd.RtStart? || e.cmd.ModuleInst? ==> e.id !in pubsAndSubs)
  }

  ghost predicate ListedIn(v: View, pubsAndSubs: set<string>) {
    && (forall x | x in v.pubs :: x.id in pubsAndSubs)
    && (forall x | x in v.subs :: x.id in pubsAndSubs)
  }

  lemma {:induction false} RemoveIdIsPart(d: seq<Event>, id: string)
    ensures forall x | x in N.RemoveId(d, id) :: x in d
  {
    if d != [] {
      RemoveIdIsPart(d[1..], id);
    }
  }

  lemma StaysListed(v: View, pubsAndSubs: set<string>, e: Event)
    requires ListedIn(v, pubsAndSubs) && KindsApart(pubsAndSubs, e)
    ensures ListedIn(Load(v, e), pubsAndSubs) && !WakesPair(v, e)
  {
    RemoveIdIsPart(v.pubs, e.id);
    RemoveIdIsPart(v.subs, e.id);
    var w := Load(v, e);
    assert forall x | x in w.pubs :: x in v.pubs || (x == e && e.cmd.PubStart?);
    assert forall x | x in w.subs :: x in v.subs || (x == e && e.cmd.SubStart?);
    assert forall i | 0 <= i < |v.pubs| :: v.pubs[i] in v.pubs;
    assert forall i | 0 <= i < |v.subs| :: v.subs[i] in v.subs;
  }

  /** After every trace of events whose kinds of ids are apart, the edges are the join. */
  lemma {:induction false} AlwaysTheJoin(v: View, ids: set<string>, pubsAndSubs: set<string>, es: seq<Event>)
    requires Separable(ids) && WellFormed(v.g, ids) && IsJoin(v) && ListedIn(v, pubsAndSubs)
    requires forall i | 0 <= i < |es| :: es[i].id in ids && KindsApart(pubsAndSubs, es[i])
    ensures IsJoin(LoadAll(v, es))
    decreases |es|
  {
    if es != [] {
      JoinKeptExactly(v, ids, es[0]);
      StaysListed(v, pubsAndSubs, es[0]);
      AlwaysTheJoin(Load(v, es[0]), ids, pubsAndSubs, es[1..]);
    }
  }

  ghost predicate JoinThroughout(v: View, es: seq<Event>)
    decreases |es|
  {
    IsJoin(v) && (es != [] ==> JoinThroughout(Load(v, es[0]), es[1..]))
  }

  ghost predicate NeverWakes(v: View, es: seq<Event>)
    decreases |es|
  {
    es != [] ==> !WakesPair(v, es[0]) && NeverWakes(Load(v, es[0]), es[1..])
  }

  /** Whatever the kinds of ids, the edges are the join all along a trace exactly when no event wakes a pair. */
  lemma {:induction false} JoinThroughoutExactly(v: View, ids: set<string>, es: seq<Event>)
    requires Separable(ids) && WellFormed(v.g, ids) && IsJoin(v)
    requires forall i | 0 <= i < |es| :: es[i].id in ids
    ensures JoinThroughout(v, es) <==> NeverWakes(v, es)
    decreases |es|
  {
    if es != [] {
      JoinKeptExactly(v, ids, es[0]);
      if IsJoin(Load(v, es[0])) {
        JoinThroughoutExactly(Load(v, es[0]), ids, es[1..]);
      }
    }
  }

  const EMPTY := View(Graph([], []), [], [])

  // A publisher and a subscriber of one topic; then a module stops and starts under the id of the publisher.
  const PUB := Event(PubStart, "p", None, "t")
  const SUB := Event(SubStart, "s", None, "t")
  const STOP_AGAIN := Event(ModuleUninst, "p", None, "m")
  const START_AGAIN := Event(ModuleInst, "p", None, "m")
  const LINKED := View(Graph([Node("p", None), Node("s", None)], [Edge("p-s", "p", "s")]), [PUB], [SUB])
  const UNLINKED := View(Graph([Node("s", None)], []), [PUB], [SUB])

  lemma LinkedAfterBoth()
    ensures Load(Load(EMPTY, PUB), SUB) == LINKED
  {
    var alone := Graph([Node("p", None)], []);
    var both := Graph(LINKED.g.nodes, []);
    assert Load(EMPTY, PUB) == View(alone, [PUB], []);
    assert both.nodes[0].id == "p" && both.nodes[1].id == "s";
    assert AddNode(alone, "s", None) == both;
    assert EdgeId("p", "s") == "p-s" && |"p-s"| == 3;
    assert AddEdge(both, "p", "s") == LINKED.g;
    assert JoinOne(both, PUB, [SUB]) == JoinOne(LINKED.g, PUB, []);
    assert Join(both, [PUB], [SUB]) == Join(LINKED.g, [], [SUB]);
  }

  lemma UnlinkedAfterStop()
    ensures Load(LINKED, STOP_AGAIN) == UNLINKED
  {
    var p := Node("p", None);
    assert LINKED.g.nodes[..1] == [p] && LINKED.g.nodes[0] == p;
    assert "s"[0] != "p"[0];
    assert Doomed([p], "p") == {"p"};
    assert Doomed(LINKED.g.nodes, "p") == {"p"} && HasNode(LINKED.g, "p");
    assert NodesBut([p], {"p"}) == [];
    assert NodesBut(LINKED.g.nodes, {"p"}) == [Node("s", None)];
    assert EdgesBut(LINKED.g.edges, {"p"}) == [];
  }

  lemma LoadAllCons(v: View, e: Event, es: seq<Event>)
    ensures LoadAll(v, [e] + es) == LoadAll(Load(v, e), es)
  {
    assert ([e] + es)[1..] == es;
  }

  lemma NoEdgeAfterStart()
    ensures !IsJoin(Load(UNLINKED, START_AGAIN))
  {
    var v := Load(UNLINKED, START_AGAIN);
    assert v == View(Graph([Node("s", None), Node("p", None)], []), [PUB], [SUB]);
    assert v.g.nodes[0].id == "s" && v.g.nodes[1].id == "p";
    assert v.subs[0] == SUB && Subscribes(v.subs, "t", "s");
    assert v.pubs[0] == PUB;
    assert !Joined(v, "p", "s");
  }

  /** A module that starts under the id of a publisher whose node is gone: the graph lacks an edge. */
  lemma JoinCanBeLost()
    ensures !IsJoin(LoadAll(EMPTY, [PUB, SUB, STOP_AGAIN, START_AGAIN]))
  {
    LinkedAfterBoth();
    UnlinkedAfterStop();
    NoEdgeAfterStart();
    LoadAllCons(EMPTY, PUB, [SUB, STOP_AGAIN, START_AGAIN]);
    LoadAllCons(Load(EMPTY, PUB), SUB, [STOP_AGAIN, START_AGAIN]);
    LoadAllCons(LINKED, STOP_AGAIN, [START_AGAIN]);
    LoadAllCons(UNLINKED, START_AGAIN, []);
    assert [PUB] + [SUB, STOP_AGAIN, START_AGAIN] == [PUB, SUB, STOP_AGAIN, START_AGAIN];
    assert [SUB] + [STOP_AGAIN, START_AGAIN] == [SUB, STOP_AGAIN, START_AGAIN];
    assert [STOP_AGAIN] + [START_AGAIN] == [STOP_AGAIN, START_AGAIN];
    assert [START_AGAIN] + [] == [START_AGAIN];
  }

  /** In particular for every trace a page has loaded since it started. */
  lemma {:induction false} PageShowsTheJoin(ids: set<string>, pubsAndSubs: set<string>, es: seq<Event>)
    requires Separable(ids)
    requires forall i | 0 <= i < |es| :: es[i].id in ids && KindsApart(pubsAndSubs, es[i])
    ensures IsJoin(LoadAll(EMPTY, es))
  {
    AlwaysTheJoin(EMPTY, ids, pubsAndSubs, es);
  }

  function Dashes(id: string): (n: nat) {
    if id == [] then 0 else (if id[0] == '-' then 1 else 0) + Dashes(id[1..])
  }

  lemma {:induction false} DashesConcat(s: string, t: string)
    ensures Dashes(s + t) == Dashes(s) + Dashes(t)
  {
    if s == [] {
      assert s + t == t;
    } else {
      DashesConcat(s[1..], t);
      ConsAppend(s, t);
    }
  }

  lemma EdgeIdDashes(a: string, b: string)
    ensures Dashes(EdgeId(a, b)) == Dashes(a) + 1 + Dashes(b)
  {
    DashesConcat(a + "-", b);
    DashesConcat(a, "-");
    assert Dashes("-"[1..]) == 0;
  }

  /** A source id that goes on after the dash of the other edge id has a dash more. */
  lemma LongerSource(a: string, b: string, c: string, d: string)
    requires EdgeId(a, b) == EdgeId(c, d) && |a| < |c|
    ensures Dashes(a) < Dashes(c)
  {
    var e := EdgeId(a, b);
    assert c == e[..|c|] && e[..|a| + 1] == a + "-" && c[..|a| + 1] == e[..|a| + 1];
    assert c == (a + "-") + c[|a| + 1..];
    DashesConcat(a + "-", c[|a| + 1..]);
    DashesConcat(a, "-");
    assert Dashes("-"[1..]) == 0;
  }

  /** Ids with equally many dashes never collide, as those under one runtime's UUID if names and topics have none. */
  lemma SameDashesSeparable(ids: set<string>, k: nat)
    requires forall id | id in ids :: Dashes(id) == k
    ensures Separable(ids)
  {
    forall a, b, c | a in ids && b in ids && c in ids
      ensures EdgeId(a, b) != c
    {
      EdgeIdDashes(a, b);
    }
    forall a, b, c, d | a in ids && b in ids && c in ids && d in ids && EdgeId(a, b) == EdgeId(c, d)
      ensures a == c && b == d
    {
      if |a| < |c| {
        LongerSource(a, b, c, d);
      } else if |c| < |a| {
        LongerSource(c, d, a, b);
      }
      var e := EdgeId(a, b);
      assert e[..|a|] == a && e[..|c|] == c;
      assert e[|a| + 1..] == b && e[|c| + 1..] == d;
    }
  }
}
