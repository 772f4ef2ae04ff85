/**
 What the browser's page holds after any trace of events, in terms of the trace alone: the
 publishers and subscribers that have started and not stopped, the nodes with their parents,
 and from both the edges.
 */
module ViewerTrace {
  import opened Seqs
  import opened Events
  import opened Viewer
  import N = NetState

  lemma {:induction false} LoadAllLast(v: View, es: seq<Event>, e: Event)
    ensures LoadAll(v, es + [e]) == Load(LoadAll(v, es), e)
    decreases |es|
  {
    if es == [] {
      assert es + [e] == [e] && [e][1..] == [];
    } else {
      ConsAppend(es, [e]);
      LoadAllLast(Load(v, es[0]), es[1..], e);
    }
  }

  // ---- Publishers and subscribers ----

  datatype Role = Publisher | Subscriber

  predicate Begins(role: Role, e: Event) {
    if role == Publisher then e.cmd == PubStart else e.cmd == SubStart
  }

  predicate Ceases(role: Role, e: Event, id: string) {
    e.id == id && if role == Publisher then e.cmd == PubStop else e.cmd == SubStop
  }

  predicate CeasesIn(role: Role, es: seq<Event>, id: string) {
    exists j | 0 <= j < |es| :: Ceases(role, es[j], id)
  }

  /** In order, the starts of this role that no stop of their id has followed. */
  function Live(role: Role, es: seq<Event>): (r: seq<Event>) {
    if es == [] then []
    else (if Begins(role, es[0]) && !CeasesIn(role, es[1..], es[0].id) then [es[0]] else []) + Live(role, es[1..])
  }

  lemma CeasesInLast(role: Role, es: seq<Event>, e: Event, id: string)
    ensures CeasesIn(role, es + [e], id) <==> CeasesIn(role, es, id) || Ceases(role, e, id)
  {
    assert (es + [e])[|es|] == e;
    assert forall j | 0 <= j < |es| :: (es + [e])[j] == es[j];
  }

  /** What an event leaves of a list of this role. */
  function Left(role: Role, s: seq<Event>, e: Event): (r: seq<Event>) {
    if Ceases(role, e, e.id) then N.RemoveId(s, e.id) else s
  }

  lemma LeftConcat(role: Role, s: seq<Event>, t: seq<Event>, e: Event)
    ensures Left(role, s + t, e) == Left(role, s, e) + Left(role, t, e)
  {
    N.RemoveIdConcat(s, t, e.id);
  }

  /** The first event of a trace, if it is of this role and live in it. */
  function LiveFirst(role: Role, first: Event, rest: seq<Event>): (r: seq<Event>) {
    if Begins(role, first) && !CeasesIn(role, rest, first.id) then [first] else []
  }

  lemma LiveFirstLast(role: Role, first: Event, rest: seq<Event>, e: Event)
    ensures LiveFirst(role, first, rest + [e]) == Left(role, LiveFirst(role, first, rest), e)
  {
    CeasesInLast(role, rest, e, first.id);
    assert N.RemoveId([first][1..], e.id) == [];
  }

  lemma {:induction false} LiveLast(role: Role, es: seq<Event>, e: Event)
    ensures Live(role, es + [e]) == Left(role, Live(role, es), e) + if Begins(role, e) then [e] else []
    decreases |es|
  {
    var last := if Begins(role, e) then [e] else [];
    if es == [] {
      assert es + [e] == [e] && [e][1..] == [] && !CeasesIn(role, [], e.id);
    } else {
      var first, rest := es[0], es[1..];
      ConsAppend(es, [e]);
      LiveLast(role, rest, e);
      hide Begins, Ceases, CeasesIn, Left, LiveFirst;
      LiveFirstLast(role, first, rest, e);
      LiveCons(role, es);
      LiveCons(role, es + [e]);
      LeftConcat(role, LiveFirst(role, first, rest), Live(role, rest), e);
      Associates(Left(role, LiveFirst(role, first, rest), e), Left(role, Live(role, rest), e), last);
    }
  }

  lemma LiveCons(role: Role, es: seq<Event>)
    requires es != []
    ensures Live(role, es) == LiveFirst(role, es[0], es[1..]) + Live(role, es[1..])
  {
  }

  /** After every trace the two lists are exactly the live publishers and subscribers. */
  lemma {:induction false} ListsAreLive(es: seq<Event>)
    ensures LoadAll(EMPTY, es).pubs == Live(Publisher, es)
    ensures LoadAll(EMPTY, es).subs == Live(Subscriber, es)
    decreases |es|
  {
    if es != [] {
      var before, e := es[..|es| - 1], es[|es| - 1];
      assert es == before + [e];
      ListsAreLive(before);
      LoadAllLast(EMPTY, before, e);
      LiveLast(Publisher, before, e);
      LiveLast(Subscriber, before, e);
      assert Left(Publisher, Live(Publisher, before), e) + [] == Left(Publisher, Live(Publisher, before), e);
      assert Left(Subscriber, Live(Subscriber, before), e) + [] == Left(Subscriber, Live(Subscriber, before), e);
    }
  }

  // ---- Nodes ----

  predicate IsParent(nodes: seq<Node>, child: string, parent: string) {
    exists k | 0 <= k < |nodes| :: nodes[k].id == child && nodes[k].parent == Some(parent)
  }

  /** A way up from `n` to `a`, from each node to its parent. */
  predicate IsWayUp(nodes: seq<Node>, way: seq<string>, n: string, a: string) {
    && way != [] && way[0] == n && way[|way| - 1] == a
    && forall i | 0 <= i < |way| - 1 :: IsParent(nodes, way[i], way[i + 1])
  }

  /** `a` is `n` or above it. */
  ghost predicate Over(nodes: seq<Node>, a: string, n: string) {
    exists way :: IsWayUp(nodes, way, n, a)
  }

  lemma {:induction false} ParentBefore(nodes: seq<Node>, i: nat) returns (j: nat)
    requires ParentsFirst(nodes) && i < |nodes| && nodes[i].parent.Some?
    ensures j < i && nodes[j].id == nodes[i].parent.value
    decreases |nodes|
  {
    var k := |nodes| - 1;
    if i == k {
      j :| 0 <= j < k && nodes[..k][j].id == nodes[k].parent.value;
    } else {
      j := ParentBefore(nodes[..k], i);
    }
  }

  lemma {:induction false} DoomedHasWayUp(nodes: seq<Node>, a: string, i: nat) returns (way: seq<string>)
    requires DistinctIds(nodes) && ParentsFirst(nodes) && i < |nodes| && nodes[i].id in Doomed(nodes, a)
    ensures IsWayUp(nodes, way, nodes[i].id, a)
    decreases i
  {
    DoomedAreDescendants(nodes, a, i);
    way := [nodes[i].id];
    if nodes[i].id != a {
      var j := ParentBefore(nodes, i);
      var rest := DoomedHasWayUp(nodes, a, j);
      way := way + rest;
      assert IsParent(nodes, nodes[i].id, nodes[j].id);
      assert forall l | 0 <= l < |rest| - 1 :: IsParent(nodes, rest[l], rest[l + 1]);
    }
  }

  lemma {:induction false} WayUpIsDoomed(nodes: seq<Node>, a: string, i: nat, way: seq<string>)
    requires DistinctIds(nodes) && ParentsFirst(nodes) && i < |nodes| && IsWayUp(nodes, way, nodes[i].id, a)
    ensures nodes[i].id in Doomed(nodes, a)
    decreases |way|
  {
    if |way| > 1 {
      assert IsParent(nodes, way[0], way[1]);
      assert nodes[i].parent == Some(way[1]);
      var j := ParentBefore(nodes, i);
      assert forall l | 0 <= l < |way[1..]| - 1 :: IsParent(nodes, way[1..][l], way[1..][l + 1]) by {
        forall l | 0 <= l < |way[1..]| - 1 ensures IsParent(nodes, way[1..][l], way[1..][l + 1]) {
          assert IsParent(nodes, way[l + 1], way[l + 2]);
        }
      }
      WayUpIsDoomed(nodes, a, j, way[1..]);
      DoomedAreDescendants(nodes, a, i);
    }
  }

  /** Removing `a` dooms exactly the nodes it is over. */
  lemma DoomedExactly(nodes: seq<Node>, a: string, n: Node)
    requires DistinctIds(nodes) && ParentsFirst(nodes) && n in nodes
    ensures n.id in Doomed(nodes, a) <==> Over(nodes, a, n.id)
  {
    var i :| 0 <= i < |nodes| && nodes[i] == n;
    if n.id in Doomed(nodes, a) {
      var way := DoomedHasWayUp(nodes, a, i);
    }
    if way :| IsWayUp(nodes, way, n.id, a) {
      WayUpIsDoomed(nodes, a, i, way);
    }
  }

  lemma {:induction false} NothingOver(nodes: seq<Node>, a: string)
    requires ParentsFirst(nodes) && !HasId(nodes, a)
    ensures Doomed(nodes, a) == {a}
  {
    if nodes != [] {
      var k := |nodes| - 1;
      assert forall i | 0 <= i < k :: nodes[..k][i] == nodes[i];
      NothingOver(nodes[..k], a);
    }
  }

  lemma {:induction false} NodesButMembers(nodes: seq<Node>, d: set<string>, n: Node)
    ensures n in NodesBut(nodes, d) <==> n in nodes && n.id !in d
  {
    if nodes != [] {
      var k := |nodes| - 1;
      NodesButMembers(nodes[..k], d, n);
      assert nodes == nodes[..k] + [nodes[k]];
    }
  }

  predicate StartsNode(cmd: Cmd) {
    cmd == RtStart || cmd == ModuleInst || cmd == PubStart || cmd == SubStart
  }

  predicate StopsNode(cmd: Cmd) {
    cmd == RtStop || cmd == ModuleUninst || cmd == PubStop || cmd == SubStop
  }

  /** The parent a new node gets: the one it asks for, if it is there. */
  function ParentFound(g: Graph, parent: Option<string>): (p: Option<string>) {
    if parent.Some? && HasNode(g, parent.value) then parent else None
  }

  lemma LoadKeepsWellFormed(v: View, ids: set<string>, e: Event)
    requires Separable(ids) && WellFormed(v.g, ids) && e.id in ids
    ensures WellFormed(Load(v, e).g, ids)
    ensures Load(v, e).g.nodes ==
            if IsStart(e.cmd) then AddNode(v.g, e.id, e.parent).nodes
            else if IsStop(e.cmd) then Remove(v.g, e.id).nodes else v.g.nodes
  {
    var g := if IsStart(e.cmd) then AddNode(v.g, e.id, e.parent)
             else if IsStop(e.cmd) then Remove(v.g, e.id) else v.g;
    if IsStart(e.cmd) {
      AddNodeEffect(v.g, ids, e.id, e.parent, e.id);
    } else if IsStop(e.cmd) {
      RemoveEffect(v.g, ids, e.id, e.id, e.id);
    }
    JoinEffect(g, ids, PubsAfter(v.pubs, e), SubsAfter(v.subs, e), e.id, e.id);
  }

  /** One event: a start adds its node unless it is there, a stop takes every node its id is over. */
  lemma NodesAfter(v: View, ids: set<string>, e: Event, n: Node)
    requires Separable(ids) && WellFormed(v.g, ids) && e.id in ids
    ensures n in Load(v, e).g.nodes <==>
            if StartsNode(e.cmd) then
              n in v.g.nodes || (!HasNode(v.g, e.id) && n == Node(e.id, ParentFound(v.g, e.parent)))
            else n in v.g.nodes && !(StopsNode(e.cmd) && Over(v.g.nodes, e.id, n.id))
  {
    var nodes := v.g.nodes;
    LoadKeepsWellFormed(v, ids, e);
    NoEdgeIsNode(v.g, ids, e.id);
    if StopsNode(e.cmd) {
      if n in nodes {
        DoomedExactly(nodes, e.id, n);
      }
      NodesButMembers(nodes, Doomed(nodes, e.id), n);
      if !HasNode(v.g, e.id) {
        NothingOver(nodes, e.id);
        assert n in nodes ==> n.id != e.id;
      }
    }
  }

  // ---- Every trace ----

  /** What the page holds before the i-th event. */
  function Before(es: seq<Event>, i: nat): (g: Graph)
    requires i <= |es|
  {
    LoadAll(EMPTY, es[..i]).g
  }

  /** The i-th event brings the node in. */
  ghost predicate Creates(es: seq<Event>, i: nat, n: Node)
    requires i < |es|
  {
    && StartsNode(es[i].cmd) && es[i].id == n.id && !HasNode(Before(es, i), n.id)
    && n.parent == ParentFound(Before(es, i), es[i].parent)
  }

  /** The j-th event stops the node, or one above it. */
  ghost predicate Kills(es: seq<Event>, j: nat, id: string)
    requires j < |es|
  {
    StopsNode(es[j].cmd) && Over(Before(es, j).nodes, es[j].id, id)
  }

  /** The node came in by the i-th event, and nothing has taken it since. */
  ghost predicate LivesSince(es: seq<Event>, i: nat, n: Node) {
    i < |es| && Creates(es, i, n) && forall j | i < j < |es| :: !Kills(es, j, n.id)
  }

  lemma LivesSinceMore(es: seq<Event>, e: Event, i: nat, n: Node)
    requires i < |es|
    ensures LivesSince(es + [e], i, n) <==> LivesSince(es, i, n) && !Kills(es + [e], |es|, n.id)
  {
    var more := es + [e];
    forall j | 0 <= j < |es| ensures more[j] == es[j] && Before(more, j) == Before(es, j) {
      assert more[..j] == es[..j];
    }
    assert Creates(more, i, n) == Creates(es, i, n);
    assert forall j | 0 <= j < |es| :: Kills(more, j, n.id) == Kills(es, j, n.id);
  }

  lemma {:induction false} TraceWellFormed(ids: set<string>, es: seq<Event>)
    requires Separable(ids) && forall i | 0 <= i < |es| :: es[i].id in ids
    ensures WellFormed(LoadAll(EMPTY, es).g, ids)
    decreases |es|
  {
    if es != [] {
      var before, e := es[..|es| - 1], es[|es| - 1];
      assert es == before + [e];
      TraceWellFormed(ids, before);
      LoadAllLast(EMPTY, before, e);
      LoadKeepsWellFormed(LoadAll(EMPTY, before), ids, e);
    }
  }

  /** After every trace, a node is there, under this parent, exactly if it lives since some event. */
  lemma {:induction false} NodesExactly(ids: set<string>, es: seq<Event>, n: Node)
    requires Separable(ids) && forall i | 0 <= i < |es| :: es[i].id in ids
    ensures n in LoadAll(EMPTY, es).g.nodes <==> exists i: nat :: LivesSince(es, i, n)
    decreases |es|
  {
    if es != [] {
      var k := |es| - 1;
      var before, e := es[..k], es[k];
      var v := LoadAll(EMPTY, before);
      assert es == before + [e];
      NodesExactly(ids, before, n);
      TraceWellFormed(ids, before);
      LoadAllLast(EMPTY, before, e);
      NodesAfter(v, ids, e, n);
      forall i: nat | i < k ensures LivesSince(es, i, n) <==> LivesSince(before, i, n) && !Kills(es, k, n.id) {
        LivesSinceMore(before, e, i, n);
      }
      assert LivesSince(es, k, n) <==> Creates(es, k, n);
    }
  }

  /** A live publisher and a live subscriber of one topic. */
  ghost predicate LiveMatch(es: seq<Event>, a: string, b: string) {
    exists p, s :: p in Live(Publisher, es) && s in Live(Subscriber, es)
                   && p.id == a && s.id == b && p.name == s.name
  }

  lemma MatchesAreLive(es: seq<Event>, a: string, b: string)
    ensures Matches(Live(Publisher, es), Live(Subscriber, es), a, b) <==> LiveMatch(es, a, b)
  {
    var pubs, subs := Live(Publisher, es), Live(Subscriber, es);
    if Matches(pubs, subs, a, b) {
      var i :| 0 <= i < |pubs| && pubs[i].id == a && Subscribes(subs, pubs[i].name, b);
      var j :| 0 <= j < |subs| && subs[j].id == b && subs[j].name == pubs[i].name;
      assert pubs[i] in pubs && subs[j] in subs;
    }
    if p, s :| p in pubs && s in subs && p.id == a && s.id == b && p.name == s.name {
      var i :| 0 <= i < |pubs| && pubs[i] == p;
      var j :| 0 <= j < |subs| && subs[j] == s;
      assert Subscribes(subs, pubs[i].name, b);
    }
  }

  /**
   After every trace a page has loaded, if no runtime or module carries the id of a publisher
   or subscriber: there is an edge exactly from each live publisher to each live subscriber of
   its topic, where both nodes are there.
   */
  lemma {:induction false} PageShowsLivePairs(ids: set<string>, pubsAndSubs: set<string>, es: seq<Event>)
    requires Separable(ids)
    requires forall i | 0 <= i < |es| :: es[i].id in ids && KindsApart(pubsAndSubs, es[i])
    ensures var g := LoadAll(EMPTY, es).g;
            forall a, b :: HasEdge(g, a, b) <==> HasNode(g, a) && HasNode(g, b) && LiveMatch(es, a, b)
  {
    var v := LoadAll(EMPTY, es);
    PageShowsTheJoin(ids, pubsAndSubs, es);
    ListsAreLive(es);
    forall a, b ensures HasEdge(v.g, a, b) <==> HasNode(v.g, a) && HasNode(v.g, b) && LiveMatch(es, a, b) {
      assert Joined(v, a, b);
      MatchesAreLive(es, a, b);
    }
  }

  // ---- Whatever the ids ----

  /** No two elements of the graph, nodes or edges, have one id, and each edge has both its ends. */
  ghost predicate Consistent(g: Graph) {
    && DistinctIds(g.nodes)
    && (forall i, j | 0 <= i < j < |g.edges| :: g.edges[i].id != g.edges[j].id)
    && (forall i | 0 <= i < |g.edges| ::
          var e := g.edges[i]; !HasNode(g, e.id) && HasNode(g, e.source) && HasNode(g, e.target))
  }

  lemma AddNodeConsistent(g: Graph, id: string, parent: Option<string>)
    requires Consistent(g)
    ensures Consistent(AddNode(g, id, parent))
  {
    var h := AddNode(g, id, parent);
    if h != g {
      forall a ensures HasNode(h, a) <==> HasNode(g, a) || a == id {
        HasIdOneMore(g.nodes, h.nodes[|g.nodes|], a);
      }
    }
  }

  lemma AddEdgeConsistent(g: Graph, source: string, target: string)
    requires Consistent(g)
    ensures Consistent(AddEdge(g, source, target))
  {
    var h := AddEdge(g, source, target);
    assert forall a :: HasNode(h, a) == HasNode(g, a);
  }

  lemma {:induction false} JoinOneConsistent(g: Graph, pub: Event, subs: seq<Event>)
    requires Consistent(g)
    ensures Consistent(JoinOne(g, pub, subs))
    decreases |subs|
  {
    if subs != [] {
      AddEdgeConsistent(g, pub.id, subs[0].id);
      JoinOneConsistent(if pub.name == subs[0].name then AddEdge(g, pub.id, subs[0].id) else g, pub, subs[1..]);
    }
  }

  lemma {:induction false} JoinConsistent(g: Graph, pubs: seq<Event>, subs: seq<Event>)
    requires Consistent(g)
    ensures Consistent(Join(g, pubs, subs))
    decreases |pubs|
  {
    if pubs != [] {
      JoinOneConsistent(g, pubs[0], subs);
      JoinConsistent(JoinOne(g, pubs[0], subs), pubs[1..], subs);
    }
  }

  /** Some of the edges, in their order. */
  ghost predicate PartOf(part: seq<Edge>, edges: seq<Edge>) {
    && (forall e | e in part :: e in edges)
    && ((forall i, j | 0 <= i < j < |edges| :: edges[i].id != edges[j].id) ==>
          forall i, j | 0 <= i < j < |part| :: part[i].id != part[j].id)
  }

  lemma PartOfCons(e: Edge, part: seq<Edge>, edges: seq<Edge>)
    requires PartOf(part, edges)
    ensures PartOf(part, [e] + edges) && PartOf([e] + part, [e] + edges)
  {
    var all := [e] + edges;
    assert all[0] == e && forall i | 0 <= i < |edges| :: all[i + 1] == edges[i];
    if forall i, j | 0 <= i < j < |all| :: all[i].id != all[j].id {
      forall i, j | 0 <= i < j < |edges| ensures edges[i].id != edges[j].id {
        assert all[i + 1].id != all[j + 1].id;
      }
      forall k | 0 <= k < |part| ensures part[k].id != e.id {
        assert part[k] in edges;
        var i :| 0 <= i < |edges| && edges[i] == part[k];
        assert all[0].id != all[i + 1].id;
      }
    }
  }

  lemma {:induction false} EdgesButArePart(edges: seq<Edge>, d: set<string>)
    ensures PartOf(EdgesBut(edges, d), edges)
  {
    if edges != [] {
      EdgesButArePart(edges[1..], d);
      PartOfCons(edges[0], EdgesBut(edges[1..], d), edges[1..]);
      assert edges == [edges[0]] + edges[1..] && [] + EdgesBut(edges[1..], d) == EdgesBut(edges[1..], d);
    }
  }

  lemma {:induction false} EdgesButIdExactly(edges: seq<Edge>, id: string)
    ensures PartOf(EdgesButId(edges, id), edges)
    ensures forall e :: e in EdgesButId(edges, id) <==> e in edges && e.id != id
  {
    if edges != [] {
      EdgesButIdExactly(edges[1..], id);
      PartOfCons(edges[0], EdgesButId(edges[1..], id), edges[1..]);
      assert edges == [edges[0]] + edges[1..] && [] + EdgesButId(edges[1..], id) == EdgesButId(edges[1..], id);
    }
  }

  /** A stop under the id of an edge takes that edge. */
  lemma RemovesEdgeById(g: Graph, id: string, e: Edge)
    requires !HasNode(g, id)
    ensures Remove(g, id).nodes == g.nodes
    ensures e in Remove(g, id).edges <==> e in g.edges && e.id != id
  {
    EdgesButIdExactly(g.edges, id);
  }

  lemma RemoveConsistent(g: Graph, id: string)
    requires Consistent(g)
    ensures Consistent(Remove(g, id))
  {
    var h := Remove(g, id);
    if HasNode(g, id) {
      var d := Doomed(g.nodes, id);
      NodesButDistinct(g.nodes, d);
      EdgesButArePart(g.edges, d);
      EdgesButEffect(g.edges, d);
      forall i | 0 <= i < |h.edges|
        ensures var e := h.edges[i]; !HasNode(h, e.id) && HasNode(h, e.source) && HasNode(h, e.target)
      {
        var e := h.edges[i];
        assert e in h.edges && e in g.edges;
        NodesButEffect(g.nodes, d, e.id);
        NodesButEffect(g.nodes, d, e.source);
        NodesButEffect(g.nodes, d, e.target);
      }
    } else {
      EdgesButIdExactly(g.edges, id);
      forall i | 0 <= i < |h.edges|
        ensures var e := h.edges[i]; !HasNode(h, e.id) && HasNode(h, e.source) && HasNode(h, e.target)
      {
        assert h.edges[i] in h.edges && h.edges[i] in g.edges;
      }
    }
  }

  /** After every trace, whatever its ids: no id twice in the graph, and no edge without its ends. */
  lemma {:induction false} AlwaysConsistent(v: View, es: seq<Event>)
    requires Consistent(v.g)
    ensures Consistent(LoadAll(v, es).g)
    decreases |es|
  {
    if es != [] {
      var e := es[0];
      var g := if IsStart(e.cmd) then AddNode(v.g, e.id, e.parent)
               else if IsStop(e.cmd) then Remove(v.g, e.id) else v.g;
      AddNodeConsistent(v.g, e.id, e.parent);
      RemoveConsistent(v.g, e.id);
      JoinConsistent(g, PubsAfter(v.pubs, e), SubsAfter(v.subs, e));
      AlwaysConsistent(Load(v, e), es[1..]);
    }
  }
}
