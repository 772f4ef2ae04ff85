/**
 What whole runs of the bridge publish and keep, input by input: which inputs are announced,
 as which event, and what each does to the stack of modules under an id.
 */
module BridgeTrace {
  import opened Seqs
  import opened Events
  import opened ModuleStore
  import opened Bridge

  // ---- One input, in terms of the stack of its module's id ----

  /** The newest module of the id, if one is listed. */
  function Newest(s: Store, id: int): (e: Option<Entry>) {
    if Stack(s, id) == [] then None else Some(Stack(s, id)[0])
  }

  /** The event of a publisher or subscriber of the newest module of the id. */
  ghost predicate IsPubSubEvent(rt: string, s: Store, e: Event, id: int, topic: string) {
    && Newest(s, id).Some?
    && var name := Newest(s, id).value.name;
       && e.parent == Some(rt + "." + name)
       && e.id == rt + "." + name + "." + topic
       && e.name == topic
  }

  /** The event `e` is what the input has published, given the modules listed before it. */
  ghost predicate Publishes(rt: string, s: Store, input: Input, e: Event) {
    match input
    case Installed(_, name) => e == Event(ModuleInst, rt + "." + name, Some(rt), name)
    case Uninstalled(_, shown) => e == Event(ModuleUninst, rt + "." + shown, Some(rt), shown)
    case RuntimeEvent(action, sender, url, hasPayload) =>
      && IsPubSubEvent(rt, s, e, sender, url)
      && (|| (action == Subscribe && e.cmd == SubStart)
          || (action == Unsubscribe && e.cmd == SubStop)
          || (action == Publish && e.cmd == PubStart && hasPayload && url !in Newest(s, sender).value.topics))
    case TopicDropped(_, _) => false
  }

  /** An input that publishes nothing. */
  ghost predicate Silent(s: Store, input: Input) {
    match input
    case Installed(_, _) => false
    case Uninstalled(_, _) => false
    case RuntimeEvent(action, sender, url, hasPayload) =>
      || Newest(s, sender).None?
      || action == OtherAction
      || (action == Publish && (!hasPayload || url in Newest(s, sender).value.topics))
    case TopicDropped(_, _) => true
  }

  lemma NameOfNewest(s: Store, id: int)
    ensures NameOf(s, id) == if Newest(s, id).None? then None else Some(Newest(s, id).value.name)
  {
    FindsTop(s, id);
  }

  lemma AddsToNewest(s: Store, id: int, topic: string)
    ensures Returned(s, AddTopic(id, topic)) ==
            if Newest(s, id).None? then -1 else if topic in Newest(s, id).value.topics then 0 else 1
  {
    FindsTop(s, id);
  }

  /** An input publishes the one event it should, or none if it should be silent. */
  lemma AnnouncedExactly(rt: string, s: Store, input: Input)
    ensures var es := Announced(rt, s, input);
            if Silent(s, input) then es == [] else |es| == 1 && Publishes(rt, s, input, es[0])
  {
    if input.RuntimeEvent? {
      NameOfNewest(s, input.sender);
      AddsToNewest(s, input.sender, input.url);
    }
  }

  // ---- Whole runs ----

  /** The modules listed before the i-th input. */
  function StoreBefore(rt: string, inputs: seq<Input>, i: nat): (s: Store)
    requires i <= |inputs|
  {
    RunInputs(rt, START, inputs[..i]).store
  }

  /**
   `from` tells for each event published which input it comes from: later events from later
   inputs, each the event of its input, and every input that it leaves out is silent.
   */
  ghost predicate Explains(rt: string, inputs: seq<Input>, published: seq<Event>, from: seq<nat>) {
    && |from| == |published|
    && (forall k | 0 <= k < |from| :: from[k] < |inputs|)
    && (forall k, l | 0 <= k < l < |from| :: from[k] < from[l])
    && (forall k | 0 <= k < |from| ::
          Publishes(rt, StoreBefore(rt, inputs, from[k]), inputs[from[k]], published[k]))
    && (forall i | 0 <= i < |inputs| && i !in from :: Silent(StoreBefore(rt, inputs, i), inputs[i]))
  }

  lemma {:induction false} RunInputsLast(rt: string, b: Bookkeeping, inputs: seq<Input>, last: Input)
    ensures RunInputs(rt, b, inputs + [last]) == Handle(rt, RunInputs(rt, b, inputs), last)
    decreases |inputs|
  {
    if inputs == [] {
      assert [last][1..] == [] && inputs + [last] == [last];
    } else {
      ConsAppend(inputs, [last]);
      RunInputsLast(rt, Handle(rt, b, inputs[0]), inputs[1..], last);
    }
  }

  lemma StoreBeforeMore(rt: string, inputs: seq<Input>, last: Input, i: nat)
    requires i <= |inputs|
    ensures StoreBefore(rt, inputs + [last], i) == StoreBefore(rt, inputs, i)
  {
    assert (inputs + [last])[..i] == inputs[..i];
  }

  /** Every run publishes exactly the events of its inputs, in their order, and no others. */
  lemma {:induction false} PublishedExactly(rt: string, inputs: seq<Input>) returns (from: seq<nat>)
    ensures Explains(rt, inputs, RunInputs(rt, START, inputs).published, from)
    decreases |inputs|
  {
    if inputs == [] {
      from := [];
    } else {
      var n := |inputs| - 1;
      var before, last := inputs[..n], inputs[n];
      var s := RunInputs(rt, START, before).store;
      assert inputs == before + [last];
      from := PublishedExactly(rt, before);
      RunInputsLast(rt, START, before, last);
      AnnouncedExactly(rt, s, last);
      var published := RunInputs(rt, START, before).published;
      if Silent(s, last) {
        ExplainsSilent(rt, before, published, from, last);
        assert published + [] == published;
      } else {
        ExplainsEvent(rt, before, published, from, last, Announced(rt, s, last)[0]);
        assert Announced(rt, s, last) == [Announced(rt, s, last)[0]];
        from := from + [n];
      }
    }
  }

  lemma StoresBeforeMore(rt: string, inputs: seq<Input>, last: Input)
    ensures forall i: nat | i <= |inputs| :: StoreBefore(rt, inputs + [last], i) == StoreBefore(rt, inputs, i)
    ensures StoreBefore(rt, inputs, |inputs|) == RunInputs(rt, START, inputs).store
  {
    assert inputs[..|inputs|] == inputs;
    forall i: nat | i <= |inputs| ensures StoreBefore(rt, inputs + [last], i) == StoreBefore(rt, inputs, i) {
      StoreBeforeMore(rt, inputs, last, i);
    }
  }

  lemma ExplainsSilent(rt: string, inputs: seq<Input>, published: seq<Event>, from: seq<nat>, last: Input)
    requires Explains(rt, inputs, published, from) && Silent(RunInputs(rt, START, inputs).store, last)
    ensures Explains(rt, inputs + [last], published, from)
  {
    hide StoreBefore, Silent, Publishes;
    var more := inputs + [last];
    StoresBeforeMore(rt, inputs, last);
    forall i | 0 <= i < |more| && i !in from ensures Silent(StoreBefore(rt, more, i), more[i]) {
      assert i < |inputs| ==> more[i] == inputs[i];
    }
  }

  lemma ExplainsEvent(rt: string, inputs: seq<Input>, published: seq<Event>, from: seq<nat>, last: Input, e: Event)
    requires Explains(rt, inputs, published, from) && Publishes(rt, RunInputs(rt, START, inputs).store, last, e)
    ensures Explains(rt, inputs + [last], published + [e], from + [|inputs|])
  {
    hide StoreBefore, Silent, Publishes;
    var n, more := |inputs|, inputs + [last];
    var ps, fs := published + [e], from + [n];
    StoresBeforeMore(rt, inputs, last);
    forall k | 0 <= k < |fs| ensures Publishes(rt, StoreBefore(rt, more, fs[k]), more[fs[k]], ps[k]) {
      if k < |from| {
        assert fs[k] == from[k] && ps[k] == published[k] && more[from[k]] == inputs[from[k]];
      }
    }
    forall i | 0 <= i < |more| && i !in fs ensures Silent(StoreBefore(rt, more, i), more[i]) {
      assert fs[|from|] == n;
      assert i in from ==> i in fs;
    }
  }

  // ---- What an input does to the modules ----

  /** The stack of an id after an input: installs push, uninstalls pop, a first publication adds its topic on top. */
  ghost predicate StackFollows(before: seq<Entry>, input: Input, id: int, after: seq<Entry>) {
    match input
    case Installed(i, name) => after == if i == id then [Entry(i, name, [])] + before else before
    case Uninstalled(i, _) => after == if i == id && before != [] then before[1..] else before
    case RuntimeEvent(action, sender, url, hasPayload) =>
      if action == Publish && hasPayload && sender == id && before != [] && url !in before[0].topics then
        after == [Entry(before[0].id, before[0].name, [url] + before[0].topics)] + before[1..]
      else after == before
    case TopicDropped(i, topic) =>
      if i == id && before != [] && topic in before[0].topics then
        && |after| == |before| && after[1..] == before[1..]
        && after[0].id == before[0].id && after[0].name == before[0].name
        && exists j | 0 <= j < |before[0].topics| ::
             before[0].topics[j] == topic && after[0].topics == before[0].topics[..j] + before[0].topics[j + 1..]
      else after == before
  }

  lemma StackAfterInput(rt: string, b: Bookkeeping, input: Input, id: int)
    ensures StackFollows(Stack(b.store, id), input, id, Stack(Handle(rt, b, input).store, id))
  {
    if OpOf(input).Some? {
      DoRefinesStack(b.store, OpOf(input).value, id);
    }
    if input.TopicDropped? && input.id == id && Stack(b.store, id) != [] {
      var topics := Stack(b.store, id)[0].topics;
      if input.topic in topics {
        var j := FindTopic(topics, input.topic);
        assert topics[j] == input.topic;
      }
    }
  }

  /** The calls on the list return what the stack of the id says. */
  lemma ReturnedExactly(s: Store, op: Op)
    ensures var newest := Newest(s, op.id);
            match op
            case Add(_, _) => Returned(s, op) == 0
            case Delete(_) => Returned(s, op) == if newest.Some? then 0 else -1
            case AddTopic(_, topic) =>
              Returned(s, op) == if newest.None? then -1 else if topic in newest.value.topics then 0 else 1
            case DropTopic(_, topic) =>
              Returned(s, op) == if newest.Some? && topic in newest.value.topics then 0 else -1
  {
    FindsTop(s, op.id);
  }
}
