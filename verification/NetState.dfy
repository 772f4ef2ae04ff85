/**
 The viewer's state service: a dictionary of started nodes, in insertion order, kept from
 the events it receives, cleared on request, and served as a list.
 */
module NetState {
  import opened Seqs
  import opened Events

  /** What reaches the service. */
  datatype Item = Message(e: Event) | Clear

  // ---- The dictionary, as the sequence of its values ----

  predicate HasId(d: seq<Event>, id: string) {
    exists i | 0 <= i < |d| :: d[i].id == id
  }

  function RemoveId(d: seq<Event>, id: string): (r: seq<Event>) {
    if d == [] then []
    else (if d[0].id == id then [] else [d[0]]) + RemoveId(d[1..], id)
  }

  function Handle(d: seq<Event>, x: Item): (r: seq<Event>) {
    if x.Clear? then []
    else if IsStart(x.e.cmd) then (if HasId(d, x.e.id) then d else d + [x.e])
    else if IsStop(x.e.cmd) then RemoveId(d, x.e.id)
    else d
  }

  function HandleAll(d: seq<Event>, xs: seq<Item>): (r: seq<Event>)
    decreases |xs|
  {
    if xs == [] then d else HandleAll(Handle(d, xs[0]), xs[1..])
  }

  /** The global dictionary and its handlers. */
  class NodeState {
    var keys: seq<string>  // in insertion order
    var nodeDict: map<string, Event>

    ghost predicate Valid()
      reads this
    {
      && Distinct(keys)
      && (forall k :: k in keys <==> k in nodeDict)
      && (forall k | k in nodeDict :: nodeDict[k].id == k && IsStart(nodeDict[k].cmd))
    }

    function Values(): (d: seq<Event>)
      requires Valid()
      reads this
    {
      ValuesOf(keys, nodeDict)
    }

    constructor ()
      ensures Valid() && Values() == []
    {
      keys, nodeDict := [], map[];
    }

    method HandleMqttMessage(obj: Event)
      requires Valid()
      modifies this
      ensures Valid() && Values() == Handle(old(Values()), Message(obj))
    {
      HasKey(keys, nodeDict, obj.id);
      if IsStart(obj.cmd) {
        if obj.id !in nodeDict {
          ValuesGrow(keys, nodeDict, obj);
          keys := keys + [obj.id];
          nodeDict := nodeDict[obj.id := obj];
        }
      }
      if IsStop(obj.cmd) {
        ValuesShrink(keys, nodeDict, obj.id);
        if obj.id in nodeDict {
          WithoutKeyDistinct(keys, obj.id);
          ValuesSame(WithoutKey(keys, obj.id), nodeDict, nodeDict - {obj.id});
          keys := WithoutKey(keys, obj.id);
          nodeDict := nodeDict - {obj.id};
        } else {
          RemoveAbsent(Values(), obj.id);
        }
      }
    }

    /** Serves the values, in order. */
    method NetState() returns (nodeList: seq<Event>)
      requires Valid()
      ensures nodeList == Values()
    {
      nodeList := [];
      var d := Values();
      for i := 0 to |d|
        invariant nodeList == d[..i]
      {
        nodeList := nodeList + [d[i]];
      }
    }

    method NetDelete()
      requires Valid()
      modifies this
      ensures Valid() && Values() == Handle(old(Values()), Clear)
    {
      keys, nodeDict := [], map[];
    }
  }

  function ValuesOf(keys: seq<string>, dict: map<string, Event>): (d: seq<Event>)
    requires forall k | k in keys :: k in dict
    ensures |d| == |keys| && forall i | 0 <= i < |d| :: d[i] == dict[keys[i]]
  {
    if keys == [] then [] else [dict[keys[0]]] + ValuesOf(keys[1..], dict)
  }

  function WithoutKey(keys: seq<string>, key: string): (r: seq<string>)
    ensures forall k :: k in r <==> k in keys && k != key
  {
    if keys == [] then []
    else (if keys[0] == key then [] else [keys[0]]) + WithoutKey(keys[1..], key)
  }

  lemma {:induction false} WithoutKeyDistinct(keys: seq<string>, key: string)
    requires Distinct(keys)
    ensures Distinct(WithoutKey(keys, key))
  {
    if keys != [] {
      WithoutKeyDistinct(keys[1..], key);
      if keys[0] != key {
        var rest := WithoutKey(keys[1..], key);
        assert keys[0] !in keys[1..];
        assert forall i | 0 <= i < |rest| :: rest[i] in rest;
      }
    }
  }

  lemma HasKey(keys: seq<string>, dict: map<string, Event>, id: string)
    requires forall k :: k in keys <==> k in dict
    requires forall k | k in dict :: dict[k].id == k
    ensures HasId(ValuesOf(keys, dict), id) <==> id in dict
  {
    if id in keys {
      var i :| 0 <= i < |keys| && keys[i] == id;
      assert ValuesOf(keys, dict)[i].id == id;
    }
  }

  lemma ValuesGrow(keys: seq<string>, dict: map<string, Event>, obj: Event)
    requires forall k :: k in keys <==> k in dict
    requires obj.id !in dict
    ensures forall k | k in keys + [obj.id] :: k in dict[obj.id := obj]
    ensures ValuesOf(keys + [obj.id], dict[obj.id := obj]) == ValuesOf(keys, dict) + [obj]
  {
  }

  lemma {:induction false} ValuesSame(keys: seq<string>, dict: map<string, Event>, dict': map<string, Event>)
    requires forall k | k in keys :: k in dict && k in dict' && dict[k] == dict'[k]
    ensures ValuesOf(keys, dict) == ValuesOf(keys, dict')
  {
    if keys != [] {
      ValuesSame(keys[1..], dict, dict');
    }
  }

  lemma {:induction false} ValuesShrink(keys: seq<string>, dict: map<string, Event>, id: string)
    requires forall k | k in keys :: k in dict && dict[k].id == k
    ensures ValuesOf(WithoutKey(keys, id), dict) == RemoveId(ValuesOf(keys, dict), id)
  {
    if keys != [] {
      ValuesShrink(keys[1..], dict, id);
    }
  }

  lemma {:induction false} RemoveAbsent(d: seq<Event>, id: string)
    requires !HasId(d, id)
    ensures RemoveId(d, id) == d
  {
    if d != [] {
      assert d[0].id != id;
      forall i | 0 <= i < |d[1..]| ensures d[1..][i].id != id { assert d[i + 1].id != id; }
      RemoveAbsent(d[1..], id);
    }
  }

  // ---- The closed form of every trace ----

  predicate Starts(x: Item, id: string) {
    && x.Message? && x.e.id == id
    && (x.e.cmd == RtStart || x.e.cmd == ModuleInst || x.e.cmd == PubStart || x.e.cmd == SubStart)
  }

  predicate Ends(x: Item, id: string) {
    || x.Clear?
    || (x.e.id == id
        && (x.e.cmd == RtStop || x.e.cmd == ModuleUninst || x.e.cmd == PubStop || x.e.cmd == SubStop))
  }

  /** The i-th item is the first start of its id after the last stop or clear, and so still stored. */
  predicate Founds(xs: seq<Item>, i: nat)
    requires i < |xs|
  {
    && xs[i].Message? && Starts(xs[i], xs[i].e.id)
    && (forall j | i < j < |xs| :: !Ends(xs[j], xs[i].e.id))
    && (forall k | 0 <= k < i && Starts(xs[k], xs[i].e.id) :: exists j | k < j < i :: Ends(xs[j], xs[i].e.id))
  }

  /** Those items among the first `n`, in order. */
  function Founders(xs: seq<Item>, n: nat): (r: seq<Event>)
    requires n <= |xs|
  {
    if n == 0 then []
    else Founders(xs, n - 1) + if Founds(xs, n - 1) then [xs[n - 1].e] else []
  }

  lemma {:induction false} HandleAllConcat(d: seq<Event>, xs: seq<Item>, ys: seq<Item>)
    ensures HandleAll(d, xs + ys) == HandleAll(HandleAll(d, xs), ys)
    decreases |xs|
  {
    if xs == [] {
      assert xs + ys == ys;
    } else {
      ConsAppend(xs, ys);
      HandleAllConcat(Handle(d, xs[0]), xs[1..], ys);
    }
  }

  lemma {:induction false} RemoveIdConcat(d: seq<Event>, e: seq<Event>, id: string)
    ensures RemoveId(d + e, id) == RemoveId(d, id) + RemoveId(e, id)
    decreases |d|
  {
    if d == [] {
      assert d + e == e;
    } else {
      RemoveIdConcat(d[1..], e, id);
      ConsAppend(d, e);
      Associates(if d[0].id == id then [] else [d[0]], RemoveId(d[1..], id), RemoveId(e, id));
    }
  }

  /** Another item unseats the founders it ends, and no others. */
  lemma FoundsOneMore(xs: seq<Item>, x: Item, i: nat)
    requires i < |xs|
    ensures Founds(xs + [x], i) <==> Founds(xs, i) && !Ends(x, xs[i].e.id)
  {
    var ys := xs + [x];
    assert forall j | 0 <= j < |xs| :: ys[j] == xs[j];
    if Founds(ys, i) {
      assert ys[|xs|] == x;
      forall j | i < j < |xs| ensures !Ends(xs[j], xs[i].e.id) { assert ys[j] == xs[j]; }
      forall k | 0 <= k < i && Starts(xs[k], xs[i].e.id)
        ensures exists j | k < j < i :: Ends(xs[j], xs[i].e.id)
      {
        assert Starts(ys[k], ys[i].e.id);
        var j :| k < j < i && Ends(ys[j], ys[i].e.id);
        assert Ends(xs[j], xs[i].e.id);
      }
    }
    if Founds(xs, i) && !Ends(x, xs[i].e.id) {
      forall k | 0 <= k < i && Starts(ys[k], ys[i].e.id)
        ensures exists j | k < j < i :: Ends(ys[j], ys[i].e.id)
      {
        assert Starts(xs[k], xs[i].e.id);
        var j :| k < j < i && Ends(xs[j], xs[i].e.id);
        assert Ends(ys[j], ys[i].e.id);
      }
    }
  }

  /** What an item leaves of the founders before it. */
  function Unseat(f: seq<Event>, x: Item): (r: seq<Event>) {
    if x.Clear? then [] else if IsStop(x.e.cmd) then RemoveId(f, x.e.id) else f
  }

  lemma UnseatMore(f: seq<Event>, e: Event, x: Item)
    ensures Unseat(f + [e], x) == Unseat(f, x) + if Ends(x, e.id) then [] else [e]
  {
    if x.Message? && IsStop(x.e.cmd) {
      RemoveIdConcat(f, [e], x.e.id);
      assert RemoveId([e][1..], x.e.id) == [];
    }
  }

  lemma {:induction false} FoundersOneMore(xs: seq<Item>, x: Item, n: nat)
    requires n <= |xs|
    ensures Founders(xs + [x], n) == Unseat(Founders(xs, n), x)
  {
    if n > 0 {
      FoundersOneMore(xs, x, n - 1);
      FoundsOneMore(xs, x, n - 1);
      var f := Founders(xs, n - 1);
      assert (xs + [x])[n - 1] == xs[n - 1];
      if Founds(xs, n - 1) {
        UnseatMore(f, xs[n - 1].e, x);
      } else {
        assert f + [] == f && Unseat(f, x) + [] == Unseat(f, x);
      }
    }
  }

  lemma HasIdOneMore(d: seq<Event>, e: Event, id: string)
    ensures HasId(d + [e], id) <==> HasId(d, id) || e.id == id
  {
    assert (d + [e])[|d|] == e;
    if HasId(d, id) {
      var i :| 0 <= i < |d| && d[i].id == id;
      assert (d + [e])[i].id == id;
    }
  }

  lemma {:induction false} HasFounder(xs: seq<Item>, n: nat, id: string)
    requires n <= |xs|
    ensures HasId(Founders(xs, n), id) <==> exists i | 0 <= i < n :: Founds(xs, i) && xs[i].e.id == id
  {
    if n > 0 {
      HasFounder(xs, n - 1, id);
      var f := Founders(xs, n - 1);
      assert Founders(xs, n) == f + if Founds(xs, n - 1) then [xs[n - 1].e] else [];
      if Founds(xs, n - 1) {
        HasIdOneMore(f, xs[n - 1].e, id);
      } else {
        assert f + [] == f;
      }
    }
  }

  /** A start of the id that no stop or clear has followed. */
  predicate LiveAt(xs: seq<Item>, i: nat, id: string) {
    i < |xs| && Starts(xs[i], id) && forall j | i < j < |xs| :: !Ends(xs[j], id)
  }

  /** Before a live start there is one that founds. */
  lemma {:induction false} FounderOfLive(xs: seq<Item>, i: nat, id: string) returns (k: nat)
    requires LiveAt(xs, i, id)
    ensures k <= i && Founds(xs, k) && xs[k].e.id == id
    decreases i
  {
    k := i;
    if !Founds(xs, i) {
      var m :| 0 <= m < i && Starts(xs[m], id) && forall j | m < j < i :: !Ends(xs[j], id);
      k := FounderOfLive(xs, m, id);
    }
  }

  lemma FounderIffLive(xs: seq<Item>, id: string)
    ensures HasId(Founders(xs, |xs|), id) <==> exists i :: LiveAt(xs, i, id)
  {
    HasFounder(xs, |xs|, id);
    if i: nat :| LiveAt(xs, i, id) {
      var k := FounderOfLive(xs, i, id);
    }
    if i :| 0 <= i < |xs| && Founds(xs, i) && xs[i].e.id == id {
      assert LiveAt(xs, i, id);
    }
  }

  lemma FoundsLast(xs: seq<Item>, x: Item)
    requires x.Message? && IsStart(x.e.cmd)
    ensures Founds(xs + [x], |xs|) <==> !exists i :: LiveAt(xs, i, x.e.id)
  {
    var ys := xs + [x];
    assert forall j | 0 <= j < |xs| :: ys[j] == xs[j];
    if i: nat :| LiveAt(xs, i, x.e.id) {
      assert Starts(ys[i], x.e.id);
      assert forall j | i < j < |xs| :: !Ends(ys[j], x.e.id);
    }
    if !Founds(ys, |xs|) {
      var k :| 0 <= k < |xs| && Starts(ys[k], x.e.id) && forall j | k < j < |xs| :: !Ends(ys[j], x.e.id);
      forall j | k < j < |xs| ensures !Ends(xs[j], x.e.id) { assert ys[j] == xs[j]; }
      assert LiveAt(xs, k, x.e.id);
    }
  }

  /** The dictionary after any trace: the founders, in order. */
  lemma {:induction false} ClosedForm(xs: seq<Item>)
    ensures HandleAll([], xs) == Founders(xs, |xs|)
    decreases |xs|
  {
    if xs != [] {
      var ys, x := xs[..|xs| - 1], xs[|xs| - 1];
      assert xs == ys + [x];
      ClosedForm(ys);
      HandleAllConcat([], ys, [x]);
      assert HandleAll(HandleAll([], ys), [x]) == Handle(HandleAll([], ys), x);
      FoundersOneMore(ys, x, |ys|);
      if x.Message? && IsStart(x.e.cmd) {
        FoundsLast(ys, x);
        FounderIffLive(ys, x.e.id);
      }
    }
  }

  /** An id is present exactly when a start of it is followed by no stop of it and no clear. */
  lemma PresentExactly(xs: seq<Item>, id: string)
    ensures HasId(HandleAll([], xs), id) <==> exists i :: LiveAt(xs, i, id)
  {
    ClosedForm(xs);
    FounderIffLive(xs, id);
  }

  // ---- A viewer may start from the served list ----

  ghost predicate WellKept(d: seq<Event>) {
    && (forall i, j | 0 <= i < j < |d| :: d[i].id != d[j].id)
    && (forall i | 0 <= i < |d| :: IsStart(d[i].cmd))
  }

  lemma {:induction false} RemoveIdKeeps(d: seq<Event>, id: string)
    requires WellKept(d)
    ensures WellKept(RemoveId(d, id))
    ensures forall e | e in RemoveId(d, id) :: e in d && e.id != id
  {
    if d != [] {
      var rest := RemoveId(d[1..], id);
      RemoveIdKeeps(d[1..], id);
      forall i | 0 <= i < |rest| ensures rest[i].id != d[0].id {
        assert rest[i] in d[1..];
      }
    }
  }

  lemma {:induction false} HandleAllKeeps(d: seq<Event>, xs: seq<Item>)
    requires WellKept(d)
    ensures WellKept(HandleAll(d, xs))
    decreases |xs|
  {
    if xs != [] {
      if xs[0].Message? && IsStop(xs[0].e.cmd) {
        RemoveIdKeeps(d, xs[0].e.id);
      }
      HandleAllKeeps(Handle(d, xs[0]), xs[1..]);
    }
  }

  function Snapshot(d: seq<Event>): (r: seq<Item>)
    ensures |r| == |d| && forall i | 0 <= i < |d| :: r[i] == Message(d[i])
  {
    seq(|d|, i requires 0 <= i < |d| => Message(d[i]))
  }

  lemma {:induction false} SnapshotRestores(d: seq<Event>)
    requires WellKept(d)
    ensures HandleAll([], Snapshot(d)) == d
    decreases |d|
  {
    if d != [] {
      var c, e := d[..|d| - 1], d[|d| - 1];
      SnapshotRestores(c);
      assert Snapshot(d) == Snapshot(c) + [Message(e)];
      HandleAllConcat([], Snapshot(c), [Message(e)]);
      assert HandleAll(c, [Message(e)]) == Handle(c, Message(e));
      assert c + [e] == d;
    }
  }

  /** Replaying the served list and then what follows gives what the full history gives. */
  lemma ReplayFromSnapshot(xs: seq<Item>, ys: seq<Item>)
    ensures HandleAll([], Snapshot(HandleAll([], xs)) + ys) == HandleAll([], xs + ys)
  {
    var d := HandleAll([], xs);
    HandleAllKeeps([], xs);
    SnapshotRestores(d);
    HandleAllConcat([], Snapshot(d), ys);
    HandleAllConcat([], xs, ys);
  }
}
