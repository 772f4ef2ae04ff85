/**
 The bridge's bookkeeping: runtime responses and events change the module list, and are
 announced on the runtime's MQTT topic.
 */
module Bridge {
  import opened Seqs
  import opened Events
  import opened ModuleStore
  import L = ModuleList

  datatype Action = Subscribe | Unsubscribe | Publish | OtherAction

  /** What the main loop handles; `shown` is the name buffer an uninstall leaves unfilled. */
  datatype Input =
    | Installed(id: int, name: string)
    | Uninstalled(id: int, shown: string)
    | RuntimeEvent(action: Action, sender: int, url: string, hasPayload: bool)
    | TopicDropped(id: int, topic: string)  // `topic_list_del`, which nothing in the repository calls

  function ModuleId(rt: string, name: string): (id: string) {
    rt + "." + name
  }

  function PubSubId(rt: string, name: string, topic: string): (id: string) {
    ModuleId(rt, name) + "." + topic
  }

  function NameOf(s: Store, id: int): (name: Option<string>) {
    var k := Find(s, id);
    if k == |s| then None else Some(s[k].name)
  }

  function ModuleEvent(rt: string, cmd: Cmd, name: string): (e: Event) {
    Event(cmd, ModuleId(rt, name), Some(rt), name)
  }

  /** Nothing is announced for a module that is not listed. */
  function PubSubEvents(rt: string, s: Store, cmd: Cmd, id: int, topic: string): (es: seq<Event>) {
    match NameOf(s, id)
    case None => []
    case Some(name) => [Event(cmd, PubSubId(rt, name, topic), Some(ModuleId(rt, name)), topic)]
  }

  /** The list operation an input leads to. */
  function OpOf(input: Input): (op: Option<Op>) {
    match input
    case Installed(id, name) => Some(Add(id, name))
    case Uninstalled(id, _) => Some(Delete(id))
    case RuntimeEvent(action, sender, url, hasPayload) =>
      if action.Publish? && hasPayload then Some(AddTopic(sender, url)) else None
    case TopicDropped(id, topic) => Some(DropTopic(id, topic))
  }

  function StoreAfter(s: Store, input: Input): (r: Store) {
    match OpOf(input)
    case None => s
    case Some(op) => Do(s, op)
  }

  function Announced(rt: string, s: Store, input: Input): (es: seq<Event>) {
    match input
    case Installed(_, name) => [ModuleEvent(rt, ModuleInst, name)]
    case Uninstalled(_, shown) => [ModuleEvent(rt, ModuleUninst, shown)]
    case RuntimeEvent(Subscribe, sender, url, _) => PubSubEvents(rt, s, SubStart, sender, url)
    case RuntimeEvent(Unsubscribe, sender, url, _) => PubSubEvents(rt, s, SubStop, sender, url)
    case RuntimeEvent(Publish, sender, url, true) =>
      if Returned(s, AddTopic(sender, url)) == 1 then PubSubEvents(rt, s, PubStart, sender, url) else []
    case _ => []
  }

  class Bridge {
    const rtUuid: string
    const modules: L.ModuleList
    var published: seq<Event>

    ghost predicate Valid()
      reads this, modules, modules.Repr
    {
      modules.Valid() && this !in modules.Repr
    }

    constructor (rtUuid: string)
      ensures Valid() && modules.Contents == [] && published == [] && this.rtUuid == rtUuid
    {
      this.rtUuid, published := rtUuid, [];
      modules := new L.ModuleList();
    }

    method NotifyModuleEvent(moduleEvent: Cmd, modName: string)
      modifies `published
      ensures published == old(published) + [ModuleEvent(rtUuid, moduleEvent, modName)]
    {
      var moduleId := rtUuid + "." + modName;
      published := published + [Event(moduleEvent, moduleId, Some(rtUuid), modName)];
    }

    method NotifyPubsubEvent(pubsubEvent: Cmd, modId: int, topic: string)
      requires Valid()
      modifies `published
      ensures Valid()
      ensures published == old(published) + PubSubEvents(rtUuid, modules.Contents, pubsubEvent, modId, topic)
    {
      FindsTop(modules.Contents, modId);
      var modName, found := modules.GetNameById(modId);
      if !found {
        return;
      }
      var parent := rtUuid + "." + modName;
      published := published + [Event(pubsubEvent, parent + "." + topic, Some(parent), topic)];
    }

    method ProcessRuntimeEvent(action: Action, sender: int, url: string, hasPayload: bool)
      requires Valid()
      modifies `published, modules.Repr
      ensures Valid()
      ensures var input := RuntimeEvent(action, sender, url, hasPayload);
              && modules.Contents == StoreAfter(old(modules.Contents), input)
              && published == old(published) + Announced(rtUuid, old(modules.Contents), input)
    {
      if action == Subscribe {
        NotifyPubsubEvent(SubStart, sender, url);
        return;
      }
      if action == Unsubscribe {
        NotifyPubsubEvent(SubStop, sender, url);
        return;
      }
      if action == Publish {
        if !hasPayload {
          return;
        }
        AddTopicKeepsNames(modules.Contents, sender, url);
        var ret := modules.TopicCheckAndAdd(url, sender);
        if ret == 1 {
          NotifyPubsubEvent(PubStart, sender, url);
        }
        return;
      }
    }

    /** The main loop on the response to an install request. */
    method HandleInstalled(modId: int, modName: string)
      requires Valid()
      modifies `published, modules.Repr
      ensures Valid()
      ensures modules.Contents == StoreAfter(old(modules.Contents), Installed(modId, modName))
      ensures published == old(published) + Announced(rtUuid, old(modules.Contents), Installed(modId, modName))
    {
      var _ := modules.Add(modId, modName);
      NotifyModuleEvent(ModuleInst, modName);
    }

    /** The main loop on the response to an uninstall request. */
    method HandleUninstalled(modId: int, shown: string)
      requires Valid()
      modifies `published, modules.Repr
      ensures Valid()
      ensures modules.Contents == StoreAfter(old(modules.Contents), Uninstalled(modId, shown))
      ensures published == old(published) + Announced(rtUuid, old(modules.Contents), Uninstalled(modId, shown))
    {
      var _ := modules.DelById(modId);
      NotifyModuleEvent(ModuleUninst, shown);
    }
  }

  lemma AddTopicKeepsNames(s: Store, id: int, topic: string)
    ensures NameOf(Do(s, AddTopic(id, topic)), id) == NameOf(s, id)
  {
    var t := Do(s, AddTopic(id, topic));
    assert forall i | 0 <= i < |s| :: t[i].id == s[i].id && t[i].name == s[i].name;
  }

  // ---- Whole runs ----

  datatype Bookkeeping = Bookkeeping(store: Store, published: seq<Event>, discarded: nat)

  /** The topics thrown away by an input. */
  function DiscardedBy(s: Store, input: Input): (n: nat) {
    match OpOf(input)
    case None => 0
    case Some(op) => Discards(s, op)
  }

  function Handle(rt: string, b: Bookkeeping, input: Input): (r: Bookkeeping) {
    Bookkeeping(StoreAfter(b.store, input),
                b.published + Announced(rt, b.store, input),
                b.discarded + DiscardedBy(b.store, input))
  }

  function RunInputs(rt: string, b: Bookkeeping, inputs: seq<Input>): (r: Bookkeeping)
    decreases |inputs|
  {
    if inputs == [] then b else RunInputs(rt, Handle(rt, b, inputs[0]), inputs[1..])
  }

  const START := Bookkeeping([], [], 0)

  function PubStarts(es: seq<Event>): (n: nat) {
    if es == [] then 0 else (if es[0].cmd.PubStart? then 1 else 0) + PubStarts(es[1..])
  }

  lemma {:induction false} PubStartsConcat(es: seq<Event>, fs: seq<Event>)
    ensures PubStarts(es + fs) == PubStarts(es) + PubStarts(fs)
    decreases |es|
  {
    if es == [] {
      assert es + fs == fs;
    } else {
      PubStartsConcat(es[1..], fs);
      ConsAppend(es, fs);
    }
  }

  /** Every notification is for a topic held now, or for one since discarded. */
  ghost predicate Conserved(b: Bookkeeping) {
    PubStarts(b.published) == Held(b.store) + b.discarded && NoTopicTwice(b.store)
  }

  lemma HandleConserves(rt: string, b: Bookkeeping, input: Input)
    requires Conserved(b)
    ensures Conserved(Handle(rt, b, input))
  {
    AnnouncedOnce(rt, b.store, input);
    PubStartsConcat(b.published, Announced(rt, b.store, input));
    if OpOf(input).Some? {
      NoTopicTwiceStep(b.store, OpOf(input).value);
    }
  }

  /** The publishers an input announces are the topics it adds. */
  lemma AnnouncedOnce(rt: string, s: Store, input: Input)
    ensures PubStarts(Announced(rt, s, input)) + Held(s) == Held(StoreAfter(s, input)) + DiscardedBy(s, input)
  {
    if OpOf(input).Some? {
      TopicsConserved(s, OpOf(input).value);
    }
  }

  lemma {:induction false} NotificationsConserved(rt: string, b: Bookkeeping, inputs: seq<Input>)
    requires Conserved(b)
    ensures Conserved(RunInputs(rt, b, inputs))
    decreases |inputs|
  {
    if inputs != [] {
      HandleConserves(rt, b, inputs[0]);
      NotificationsConserved(rt, Handle(rt, b, inputs[0]), inputs[1..]);
    }
  }

  /** From the empty list: exactly one notification per topic gained, and no topic held twice. */
  lemma {:induction false} EveryTopicAnnouncedOnce(rt: string, inputs: seq<Input>)
    ensures var e := RunInputs(rt, START, inputs);
            PubStarts(e.published) == Held(e.store) + e.discarded && NoTopicTwice(e.store)
  {
    NotificationsConserved(rt, START, inputs);
  }
}
