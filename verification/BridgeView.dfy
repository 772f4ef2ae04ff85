/** The bridge's whole runs as the browser shows them. */
module BridgeView {
  import opened Seqs
  import opened Events
  import opened ModuleStore
  import opened Bridge
  import opened Agreement
  import V = Viewer
  import T = ViewerTrace

  /** Module names have no dots; the dots of an id end the runtime's and the module's name. */
  predicate PlainName(input: Input) {
    match input
    case Installed(_, name) => NoDot(name)
    case _ => true
  }

  ghost predicate PlainNames(inputs: seq<Input>) {
    forall i | 0 <= i < |inputs| :: PlainName(inputs[i])
  }

  ghost predicate StartsModule(rt: string, e: Event) {
    e.cmd.ModuleInst? && exists name :: NoDot(name) && e.id == ModuleId(rt, name)
  }

  ghost predicate HasPubSubId(rt: string, e: Event) {
    exists name, topic :: e.id == PubSubId(rt, name, topic)
  }

  /** The kind of an event shows in its id. */
  ghost predicate IdShowsKind(rt: string, e: Event) {
    && !e.cmd.RtStart?
    && (e.cmd.ModuleInst? ==> StartsModule(rt, e))
    && (e.cmd.PubStart? || e.cmd.SubStart? ==> HasPubSubId(rt, e))
  }

  lemma AnnouncedShowKind(rt: string, s: Store, input: Input)
    requires PlainName(input)
    ensures forall e | e in Announced(rt, s, input) :: IdShowsKind(rt, e)
  {
    var es := Announced(rt, s, input);
    forall e | e in es ensures IdShowsKind(rt, e) {
      assert es == [e];
      match input {
        case Installed(_, name) => assert e.id == ModuleId(rt, name);
        case RuntimeEvent(_, sender, url, _) => assert e.id == PubSubId(rt, NameOf(s, sender).value, url);
        case _ =>
      }
    }
  }

  lemma {:induction false} PublishedShowKind(rt: string, b: Bookkeeping, inputs: seq<Input>)
    requires PlainNames(inputs) && forall e | e in b.published :: IdShowsKind(rt, e)
    ensures forall e | e in RunInputs(rt, b, inputs).published :: IdShowsKind(rt, e)
    decreases |inputs|
  {
    if inputs != [] {
      AnnouncedShowKind(rt, b.store, inputs[0]);
      PublishedShowKind(rt, Handle(rt, b, inputs[0]), inputs[1..]);
    }
  }

  function Ids(es: seq<Event>): (ids: set<string>) {
    set e | e in es :: e.id
  }

  function PubSubIds(es: seq<Event>): (ids: set<string>) {
    set e | e in es && (e.cmd.PubStart? || e.cmd.SubStart?) :: e.id
  }

  /** No module starts under the id of a publisher or subscriber. */
  lemma KindsAreApart(rt: string, es: seq<Event>)
    requires forall e | e in es :: IdShowsKind(rt, e)
    ensures forall e | e in es :: V.KindsApart(PubSubIds(es), e)
  {
    forall e | e in es && e.cmd.ModuleInst? ensures e.id !in PubSubIds(es) {
      var m :| NoDot(m) && e.id == ModuleId(rt, m);
      forall f | f in es && (f.cmd.PubStart? || f.cmd.SubStart?) ensures f.id != e.id {
        var n, u :| f.id == PubSubId(rt, n, u);
        ModuleIdIsNoPubSubId(rt, m, n, u);
      }
    }
  }

  ghost predicate ShowsLivePairs(es: seq<Event>) {
    var g := V.LoadAll(V.EMPTY, es).g;
    forall a, b :: V.HasEdge(g, a, b) <==> V.HasNode(g, a) && V.HasNode(g, b) && T.LiveMatch(es, a, b)
  }

  /**
   Whatever the bridge goes through, the page that loads what it publishes shows an edge
   exactly from each publisher to each subscriber of one topic that have been announced and not
   stopped, where both nodes are there.
   */
  lemma BrowserShowsTheJoin(rt: string, inputs: seq<Input>)
    requires PlainNames(inputs)
    requires V.Separable(Ids(RunInputs(rt, START, inputs).published))
    ensures ShowsLivePairs(RunInputs(rt, START, inputs).published)
  {
    var es := RunInputs(rt, START, inputs).published;
    PublishedShowKind(rt, START, inputs);
    KindsAreApart(rt, es);
    T.PageShowsLivePairs(Ids(es), PubSubIds(es), es);
  }

  // ---- Names without dashes ----

  predicate NoDashes(input: Input) {
    match input
    case Installed(_, name) => V.Dashes(name) == 0
    case Uninstalled(_, shown) => V.Dashes(shown) == 0
    case RuntimeEvent(_, _, url, _) => V.Dashes(url) == 0
    case TopicDropped(_, _) => true
  }

  ghost predicate NamesWithoutDashes(s: Store) {
    forall i | 0 <= i < |s| :: V.Dashes(s[i].name) == 0
  }

  lemma DashesOfIds(rt: string, name: string, topic: string)
    ensures V.Dashes(ModuleId(rt, name)) == V.Dashes(rt) + V.Dashes(name)
    ensures V.Dashes(PubSubId(rt, name, topic)) == V.Dashes(rt) + V.Dashes(name) + V.Dashes(topic)
  {
    assert V.Dashes("."[1..]) == 0;
    V.DashesConcat(rt, ".");
    V.DashesConcat(rt + ".", name);
    V.DashesConcat(ModuleId(rt, name), ".");
    V.DashesConcat(ModuleId(rt, name) + ".", topic);
  }

  lemma NamesStayWithoutDashes(s: Store, input: Input)
    requires NamesWithoutDashes(s) && NoDashes(input)
    ensures NamesWithoutDashes(StoreAfter(s, input))
  {
  }

  lemma AnnouncedDashes(rt: string, s: Store, input: Input)
    requires NamesWithoutDashes(s) && NoDashes(input)
    ensures forall e | e in Announced(rt, s, input) :: V.Dashes(e.id) == V.Dashes(rt)
  {
    match input {
      case Installed(_, name) => DashesOfIds(rt, name, "");
      case Uninstalled(_, shown) => DashesOfIds(rt, shown, "");
      case RuntimeEvent(_, sender, url, _) =>
        if NameOf(s, sender).Some? {
          DashesOfIds(rt, NameOf(s, sender).value, url);
        }
      case _ =>
    }
  }

  lemma {:induction false} PublishedDashes(rt: string, b: Bookkeeping, inputs: seq<Input>)
    requires NamesWithoutDashes(b.store) && forall i | 0 <= i < |inputs| :: NoDashes(inputs[i])
    requires forall e | e in b.published :: V.Dashes(e.id) == V.Dashes(rt)
    ensures forall e | e in RunInputs(rt, b, inputs).published :: V.Dashes(e.id) == V.Dashes(rt)
    decreases |inputs|
  {
    if inputs != [] {
      NamesStayWithoutDashes(b.store, inputs[0]);
      AnnouncedDashes(rt, b.store, inputs[0]);
      PublishedDashes(rt, Handle(rt, b, inputs[0]), inputs[1..]);
    }
  }

  /** Under any runtime id, a UUID for one, if module names have no dots and no name or topic has a dash. */
  lemma BrowserShowsTheJoinUnderUuid(rt: string, inputs: seq<Input>)
    requires PlainNames(inputs) && forall i | 0 <= i < |inputs| :: NoDashes(inputs[i])
    ensures ShowsLivePairs(RunInputs(rt, START, inputs).published)
  {
    PublishedDashes(rt, START, inputs);
    V.SameDashesSeparable(Ids(RunInputs(rt, START, inputs).published), V.Dashes(rt));
    BrowserShowsTheJoin(rt, inputs);
  }
}
