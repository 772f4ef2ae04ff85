/**
 The bridge and the viewer's state service agree on publishers, as long as no stop event
 carries the id of a topic that is still held.  The bridge announces no publisher's stop,
 so the service may list publishers that are gone; it must not miss one that is held.
 */
module Agreement {
  import opened Seqs
  import opened Events
  import opened ModuleStore
  import opened Bridge
  import N = NetState

  /** Some listed module holds a topic with this publisher id. */
  ghost predicate HeldId(rt: string, s: Store, id: string) {
    exists i, j | 0 <= i < |s| && 0 <= j < |s[i].topics| :: id == PubSubId(rt, s[i].name, s[i].topics[j])
  }

  /** Every topic held by a listed module has its entry in the dictionary. */
  ghost predicate Agrees(rt: string, s: Store, d: seq<Event>) {
    forall i, j | 0 <= i < |s| && 0 <= j < |s[i].topics| :: N.HasId(d, PubSubId(rt, s[i].name, s[i].topics[j]))
  }

  /** The id of the stop event an input announces. */
  function StopId(rt: string, s: Store, input: Input): (id: Option<string>) {
    match input
    case Uninstalled(_, shown) => Some(ModuleId(rt, shown))
    case RuntimeEvent(Unsubscribe, sender, url, _) =>
      (match NameOf(s, sender)
       case None => None
       case Some(name) => Some(PubSubId(rt, name, url)))
    case _ => None
  }

  /** The input stops an id that a listed module still holds a topic under. */
  ghost predicate StopsHeld(rt: string, s: Store, input: Input) {
    var id := StopId(rt, s, input);
    id.Some? && HeldId(rt, StoreAfter(s, input), id.value)
  }

  /** The dictionary once it has received the events, in order. */
  function Viewed(d: seq<Event>, es: seq<Event>): (r: seq<Event>) {
    N.HandleAll(d, N.Snapshot(es))
  }

  lemma {:induction false} RemoveIdHas(d: seq<Event>, gone: string, id: string)
    ensures N.HasId(N.RemoveId(d, gone), id) <==> N.HasId(d, id) && id != gone
  {
    if d != [] {
      var rest := N.RemoveId(d[1..], gone);
      RemoveIdHas(d[1..], gone, id);
      assert d == [d[0]] + d[1..];
      HasIdCons(d[0], d[1..], id);
      if d[0].id == gone {
        assert [] + rest == rest;
      } else {
        HasIdCons(d[0], rest, id);
      }
    }
  }

  lemma HasIdCons(e: Event, d: seq<Event>, id: string)
    ensures N.HasId([e] + d, id) <==> e.id == id || N.HasId(d, id)
  {
    assert ([e] + d)[0] == e;
    if N.HasId(d, id) {
      var i :| 0 <= i < |d| && d[i].id == id;
      assert ([e] + d)[i + 1].id == id;
    }
  }

  /** What one announced event does to the ids present. */
  lemma ViewedOne(d: seq<Event>, e: Event, id: string)
    ensures N.HasId(Viewed(d, [e]), id) <==>
            if IsStart(e.cmd) then N.HasId(d, id) || e.id == id
            else N.HasId(d, id) && !(IsStop(e.cmd) && e.id == id)
  {
    assert N.Snapshot([e]) == [N.Message(e)];
    assert N.HandleAll(d, [N.Message(e)]) == N.Handle(d, N.Message(e));
    if IsStart(e.cmd) {
      N.HasIdOneMore(d, e, id);
    } else if IsStop(e.cmd) {
      RemoveIdHas(d, e.id, id);
    }
  }

  /** Which ids are present after an input, given those before it. */
  lemma ViewedAfter(rt: string, s: Store, d: seq<Event>, input: Input, id: string)
    ensures var es := Announced(rt, s, input);
            N.HasId(Viewed(d, es), id) <==>
            (N.HasId(d, id) || exists i | 0 <= i < |es| :: IsStart(es[i].cmd) && es[i].id == id)
            && StopId(rt, s, input) != Some(id)
  {
    var es := Announced(rt, s, input);
    if es == [] {
      assert N.Snapshot(es) == [];
    } else {
      assert es == [es[0]];
      ViewedOne(d, es[0], id);
    }
  }

  /** A topic held after an input was held before it, or is announced by it. */
  lemma HeldAfter(rt: string, s: Store, input: Input, i: nat, j: nat)
    requires var t := StoreAfter(s, input); i < |t| && j < |t[i].topics|
    ensures var t := StoreAfter(s, input); var es := Announced(rt, s, input);
            || (exists k, l | 0 <= k < |s| && 0 <= l < |s[k].topics| ::
                  s[k].name == t[i].name && s[k].topics[l] == t[i].topics[j])
            || (|es| == 1 && es[0].cmd.PubStart? && es[0].id == PubSubId(rt, t[i].name, t[i].topics[j]))
  {
    var t := StoreAfter(s, input);
    var op := if OpOf(input).Some? then OpOf(input).value else Delete(0);
    var k := Find(s, op.id);
    if OpOf(input).None? {
      assert s[i].topics[j] == t[i].topics[j];
    } else if op.Add? {
      assert t[i] == s[i - 1];
      assert s[i - 1].topics[j] == t[i].topics[j];
    } else if k == |s| || i != k || op.Delete? {
      var m := if k < |s| && op.Delete? && i >= k then i + 1 else i;
      assert s[m] == t[i];
      assert s[m].topics[j] == t[i].topics[j];
    } else if t[k].topics[j] in s[k].topics {
      var l :| 0 <= l < |s[k].topics| && s[k].topics[l] == t[k].topics[j];
    }
  }

  /** An input keeps the agreement exactly when it does not stop the id of a topic still held. */
  lemma AgreementKeptExactly(rt: string, s: Store, d: seq<Event>, input: Input)
    requires Agrees(rt, s, d)
    ensures Agrees(rt, StoreAfter(s, input), Viewed(d, Announced(rt, s, input))) <==> !StopsHeld(rt, s, input)
  {
    var t, es := StoreAfter(s, input), Announced(rt, s, input);
    if StopsHeld(rt, s, input) {
      var i, j :| 0 <= i < |t| && 0 <= j < |t[i].topics|
                  && StopId(rt, s, input).value == PubSubId(rt, t[i].name, t[i].topics[j]);
      ViewedAfter(rt, s, d, input, PubSubId(rt, t[i].name, t[i].topics[j]));
    } else {
      forall i, j | 0 <= i < |t| && 0 <= j < |t[i].topics|
        ensures N.HasId(Viewed(d, es), PubSubId(rt, t[i].name, t[i].topics[j]))
      {
        var id := PubSubId(rt, t[i].name, t[i].topics[j]);
        HeldAfter(rt, s, input, i, j);
        ViewedAfter(rt, s, d, input, id);
        assert StopId(rt, s, input) != Some(id);
      }
    }
  }

  // ---- Whole runs ----

  /** No input of the run stops an id that is still held. */
  ghost predicate StopsNothingHeld(rt: string, s: Store, inputs: seq<Input>)
    decreases |inputs|
  {
    inputs != [] ==> !StopsHeld(rt, s, inputs[0]) && StopsNothingHeld(rt, StoreAfter(s, inputs[0]), inputs[1..])
  }

  /** What is published arrives in order, after what was published before. */
  lemma ViewedMore(es: seq<Event>, fs: seq<Event>)
    ensures Viewed([], es + fs) == Viewed(Viewed([], es), fs)
  {
    assert N.Snapshot(es + fs) == N.Snapshot(es) + N.Snapshot(fs);
    N.HandleAllConcat([], N.Snapshot(es), N.Snapshot(fs));
  }

  /** The service that receives what the bridge publishes misses no held topic now, or after any input of the run. */
  ghost predicate AgreesThroughout(rt: string, b: Bookkeeping, inputs: seq<Input>)
    decreases |inputs|
  {
    && Agrees(rt, b.store, Viewed([], b.published))
    && (inputs != [] ==> AgreesThroughout(rt, Handle(rt, b, inputs[0]), inputs[1..]))
  }

  /** Over every run, the agreement lasts exactly when no input stops an id still held. */
  lemma {:induction false} AgreesThroughoutExactly(rt: string, b: Bookkeeping, inputs: seq<Input>)
    requires Agrees(rt, b.store, Viewed([], b.published))
    ensures AgreesThroughout(rt, b, inputs) <==> StopsNothingHeld(rt, b.store, inputs)
    decreases |inputs|
  {
    if inputs != [] {
      var c := Handle(rt, b, inputs[0]);
      AgreementKeptExactly(rt, b.store, Viewed([], b.published), inputs[0]);
      ViewedMore(b.published, Announced(rt, b.store, inputs[0]));
      if Agrees(rt, c.store, Viewed([], c.published)) {
        AgreesThroughoutExactly(rt, c, inputs[1..]);
      }
    }
  }

  lemma {:induction false} AgreesAtTheEnd(rt: string, b: Bookkeeping, inputs: seq<Input>)
    requires AgreesThroughout(rt, b, inputs)
    ensures var e := RunInputs(rt, b, inputs); Agrees(rt, e.store, Viewed([], e.published))
    decreases |inputs|
  {
    if inputs != [] {
      AgreesAtTheEnd(rt, Handle(rt, b, inputs[0]), inputs[1..]);
    }
  }

  /** From the empty list, over every run that stops nothing held, the service misses no held topic. */
  lemma ViewerMissesNothing(rt: string, inputs: seq<Input>)
    requires StopsNothingHeld(rt, [], inputs)
    ensures var e := RunInputs(rt, START, inputs); Agrees(rt, e.store, Viewed([], e.published))
  {
    AgreesThroughoutExactly(rt, START, inputs);
    AgreesAtTheEnd(rt, START, inputs);
  }

  const PUBLISHED_THEN_UNSUBSCRIBED := [
    Installed(1, "m"), RuntimeEvent(Publish, 1, "t", true), RuntimeEvent(Unsubscribe, 1, "t", false)
  ]

  /** A module that unsubscribes from the topic it publishes disappears as its publisher. */
  lemma AgreementCanBeLost(rt: string)
    ensures var e := RunInputs(rt, START, PUBLISHED_THEN_UNSUBSCRIBED);
            e.store == [Entry(1, "m", ["t"])] && !Agrees(rt, e.store, Viewed([], e.published))
  {
    var inputs := PUBLISHED_THEN_UNSUBSCRIBED;
    var a := Handle(rt, START, inputs[0]);
    var b := Handle(rt, a, inputs[1]);
    var c := Handle(rt, b, inputs[2]);
    assert a.store == [Entry(1, "m", [])];
    assert Find(a.store, 1) == 0 && ["t"] + [] == ["t"];
    assert b.store == WithTopics(a.store, 0, ["t"]) == [Entry(1, "m", ["t"])];
    assert c.store == b.store && Find(b.store, 1) == 0;
    assert RunInputs(rt, START, inputs) == RunInputs(rt, a, inputs[1..]) == RunInputs(rt, b, inputs[1..][1..])
           == RunInputs(rt, c, inputs[1..][1..][1..]);
    var id := PubSubId(rt, "m", "t");
    assert Announced(rt, b.store, inputs[2]) == [Event(SubStop, id, Some(ModuleId(rt, "m")), "t")];
    ViewedMore(b.published, Announced(rt, b.store, inputs[2]));
    ViewedOne(Viewed([], b.published), Announced(rt, b.store, inputs[2])[0], id);
    assert c.store[0].topics[0] == "t";
  }

  predicate NoDot(name: string) {
    '.' !in name
  }

  function BeforeDot(s: string): (r: string) {
    if s == [] || s[0] == '.' then [] else [s[0]] + BeforeDot(s[1..])
  }

  lemma {:induction false} NameBeforeDot(m: string, t: string)
    requires NoDot(m)
    ensures BeforeDot(m + ("." + t)) == m
  {
    if m != [] {
      NameBeforeDot(m[1..], t);
      ConsAppend(m, "." + t);
    }
  }

  lemma WithoutRuntime(rt: string, m: string, t: string)
    ensures ModuleId(rt, m)[|rt| + 1..] == m
    ensures PubSubId(rt, m, t)[|rt| + 1..] == m + ("." + t)
  {
  }

  /** Without dots in module names, a publisher id tells the name and the topic apart. */
  lemma PubSubIdInjective(rt: string, m: string, t: string, n: string, u: string)
    requires NoDot(m) && NoDot(n) && PubSubId(rt, m, t) == PubSubId(rt, n, u)
    ensures m == n && t == u
  {
    WithoutRuntime(rt, m, t);
    WithoutRuntime(rt, n, u);
    NameBeforeDot(m, t);
    NameBeforeDot(n, u);
    assert (m + ("." + t))[|m| + 1..] == t && (n + ("." + u))[|n| + 1..] == u;
  }

  lemma ModuleIdIsNoPubSubId(rt: string, m: string, n: string, u: string)
    requires NoDot(m)
    ensures ModuleId(rt, m) != PubSubId(rt, n, u)
  {
    WithoutRuntime(rt, m, u);
    WithoutRuntime(rt, n, u);
    assert (n + ("." + u))[|n|] == '.';
  }

  /**
   With no dots in the names, only one thing breaks the agreement: unsubscribing from a
   topic that a module of the same name publishes, since both kinds of event share one id.
   */
  lemma OnlyUnsubscribingBreaks(rt: string, s: Store, input: Input)
    requires forall i | 0 <= i < |s| :: NoDot(s[i].name)
    requires input.Uninstalled? ==> NoDot(input.shown)
    ensures StopsHeld(rt, s, input) <==>
            && input.RuntimeEvent? && input.action.Unsubscribe? && NameOf(s, input.sender).Some?
            && exists i | 0 <= i < |s| :: s[i].name == NameOf(s, input.sender).value && input.url in s[i].topics
  {
    if input.Uninstalled? {
      forall n, u ensures ModuleId(rt, input.shown) != PubSubId(rt, n, u) {
        ModuleIdIsNoPubSubId(rt, input.shown, n, u);
      }
    } else if StopId(rt, s, input).Some? {
      var name := NameOf(s, input.sender).value;
      if i, j :| 0 <= i < |s| && 0 <= j < |s[i].topics|
                 && PubSubId(rt, name, input.url) == PubSubId(rt, s[i].name, s[i].topics[j]) {
        PubSubIdInjective(rt, name, input.url, s[i].name, s[i].topics[j]);
      }
      if i :| 0 <= i < |s| && s[i].name == name && input.url in s[i].topics {
        var j :| 0 <= j < |s[i].topics| && s[i].topics[j] == input.url;
        assert PubSubId(rt, name, input.url) == PubSubId(rt, s[i].name, s[i].topics[j]);
      }
    }
  }
}
