/**
 What the clients of the HTTP thread are told, over whole runs of `PendingRequest`: one reply
 each, only while no response is pending, and no stored body twice.
 */
module ServedClients {
  import opened Seqs
  import opened PendingRequest
  import opened RequestRuns

  // ---- Runs, state by state ----

  /** `ss` are the states a run of these steps goes through, from the start. */
  ghost predicate Trace(d: Discipline, ss: seq<State>, steps: seq<Step>) {
    && |ss| == |steps| + 1 && ss[0] == INIT
    && forall i | 0 <= i < |steps| :: Allowed(d, ss[i], steps[i]) && Do(ss[i], steps[i]) == Some(ss[i + 1])
  }

  lemma TraceStep(d: Discipline, ss: seq<State>, steps: seq<Step>, i: nat)
    requires Trace(d, ss, steps) && i < |steps|
    ensures Allowed(d, ss[i], steps[i]) && Do(ss[i], steps[i]) == Some(ss[i + 1])
  {
  }

  /** A run goes through these states, and each of them is reached. */
  lemma {:induction false} TraceReaches(d: Discipline, ss: seq<State>, steps: seq<Step>, n: nat)
    requires Trace(d, ss, steps) && n <= |steps|
    ensures Run(d, INIT, steps[..n]) == Some(ss[n])
    ensures Reachable(d, ss[n])
  {
    if n > 0 {
      TraceReaches(d, ss, steps, n - 1);
      TraceStep(d, ss, steps, n - 1);
      RunConcat(d, INIT, steps[..n - 1], [steps[n - 1]]);
      assert steps[..n] == steps[..n - 1] + [steps[n - 1]];
      assert Run(d, ss[n - 1], [steps[n - 1]]) == Run(d, ss[n], []);
    }
  }

  /** Every run is such a trace. */
  lemma {:induction false} RunHasTrace(d: Discipline, steps: seq<Step>) returns (ss: seq<State>)
    requires Run(d, INIT, steps).Some?
    ensures Trace(d, ss, steps) && Run(d, INIT, steps) == Some(ss[|steps|])
    decreases |steps|
  {
    if steps == [] {
      ss := [INIT];
    } else {
      var n := |steps| - 1;
      assert steps == steps[..n] + [steps[n]];
      RunPrefix(d, INIT, steps[..n], [steps[n]]);
      var before := RunHasTrace(d, steps[..n]);
      RunConcat(d, INIT, steps[..n], [steps[n]]);
      ss := before + [Do(before[n], steps[n]).value];
      assert Run(d, before[n], [steps[n]]) == Run(d, ss[n + 1], []);
    }
  }

  lemma {:induction false} RunPrefix(d: Discipline, s: State, steps: seq<Step>, more: seq<Step>)
    requires Run(d, s, steps + more).Some?
    ensures Run(d, s, steps).Some?
    decreases |steps|
  {
    if steps != [] {
      ConsAppend(steps, more);
      RunPrefix(d, Do(s, steps[0]).value, steps[1..], more);
    }
  }

  // ---- The stored body ----

  /** The main thread stores the body of a response. */
  predicate Stores(s: State, step: Step) {
    step.MainAdvance? && s.main.MBody?
  }

  /** The HTTP thread replies to its client. */
  predicate Collects(s: State, step: Step) {
    step.HttpAdvance? && s.http.HCollect?
  }

  lemma BodyAfterHttp(s: State, ok: bool)
    requires HttpDo(s, ok).Some?
    ensures HttpDo(s, ok).value.lastBody == if s.http.HCollect? then None else s.lastBody
  {
  }

  lemma BodyAfterMain(s: State, ok: bool)
    requires MainDo(s, ok).Some?
    ensures MainDo(s, ok).value.lastBody == if s.main.MBody? then s.main.resp.body else s.lastBody
  {
  }

  lemma BodyAfter(s: State, step: Step)
    requires Do(s, step).Some?
    ensures Do(s, step).value.lastBody ==
            if Stores(s, step) then s.main.resp.body else if Collects(s, step) then None else s.lastBody
  {
    match step {
      case HttpAdvance(ok) => BodyAfterHttp(s, ok);
      case MainAdvance(ok) => BodyAfterMain(s, ok);
      case _ =>
    }
  }

  /** Step `i` stores `body`, and until state `n` none is stored or collected. */
  ghost predicate StoredLast(ss: seq<State>, steps: seq<Step>, n: nat, i: nat, body: string)
    requires |ss| == |steps| + 1 && n <= |steps|
  {
    && i < n && Stores(ss[i], steps[i]) && ss[i].main.resp.body == Some(body)
    && forall j | i < j < n :: !Stores(ss[j], steps[j]) && !Collects(ss[j], steps[j])
  }

  /** What a step makes of the step that stored the body last. */
  lemma StoredLastMore(ss: seq<State>, steps: seq<Step>, n: nat, i: nat, body: string)
    requires |ss| == |steps| + 1 && n < |steps|
    ensures i < n ==> (StoredLast(ss, steps, n + 1, i, body) <==>
              StoredLast(ss, steps, n, i, body) && !Stores(ss[n], steps[n]) && !Collects(ss[n], steps[n]))
    ensures StoredLast(ss, steps, n + 1, n, body) <==>
              Stores(ss[n], steps[n]) && ss[n].main.resp.body == Some(body)
  {
  }

  /** In every run, a body is there exactly if it was the last stored and no client was replied to since. */
  lemma {:induction false} BodyExactly(d: Discipline, ss: seq<State>, steps: seq<Step>, n: nat, body: string)
    requires Trace(d, ss, steps) && n <= |steps|
    ensures ss[n].lastBody == Some(body) <==> exists i: nat :: StoredLast(ss, steps, n, i, body)
  {
    if n > 0 {
      hide Do, Allowed, Stores, Collects, StoredLast;
      var k: nat := n - 1;
      BodyExactly(d, ss, steps, k, body);
      TraceStep(d, ss, steps, k);
      BodyAfter(ss[k], steps[k]);
      StoredLastMore(ss, steps, k, k, body);
      StoresOrCollects(ss[k], steps[k]);
      if i: nat :| StoredLast(ss, steps, n, i, body) {
        LastIsBefore(ss, steps, n, i, body);
        StoredLastMore(ss, steps, k, i, body);
      } else if i: nat :| StoredLast(ss, steps, k, i, body) {
        LastIsBefore(ss, steps, k, i, body);
        StoredLastMore(ss, steps, k, i, body);
      }
    }
  }

  lemma LastIsBefore(ss: seq<State>, steps: seq<Step>, n: nat, i: nat, body: string)
    requires |ss| == |steps| + 1 && n <= |steps|
    ensures StoredLast(ss, steps, n, i, body) ==> i < n
  {
  }

  lemma StoresOrCollects(s: State, step: Step)
    ensures !(Stores(s, step) && Collects(s, step))
  {
  }

  /** No stored body is handed out twice: between two replies, the second with a body, that body is stored. */
  lemma HandedOutOnce(d: Discipline, ss: seq<State>, steps: seq<Step>, i: nat, j: nat)
    requires Trace(d, ss, steps) && i < j < |steps|
    requires Collects(ss[i], steps[i]) && Collects(ss[j], steps[j]) && ss[j].lastBody.Some?
    ensures exists k :: i < k < j && Stores(ss[k], steps[k]) && ss[k].main.resp.body == ss[j].lastBody
  {
    BodyExactly(d, ss, steps, j, ss[j].lastBody.value);
    var k: nat :| StoredLast(ss, steps, j, k, ss[j].lastBody.value);
  }

  // ---- One reply for every client ----

  /** How many clients come. */
  function Clients(steps: seq<Step>): (n: nat) {
    if steps == [] then 0
    else Clients(steps[..|steps| - 1]) +
         if steps[|steps| - 1].HttpStart? || steps[|steps| - 1].HttpFailsEarly? then 1 else 0
  }

  function Served(s: State): (n: nat) {
    |s.replies| + if s.http.HIdle? then 0 else 1
  }

  lemma ServedHttp(s: State, ok: bool)
    requires HttpDo(s, ok).Some?
    ensures Served(HttpDo(s, ok).value) == Served(s)
  {
  }

  lemma ServedMain(s: State, ok: bool)
    requires MainDo(s, ok).Some?
    ensures Served(MainDo(s, ok).value) == Served(s)
  {
  }

  lemma ServedStep(s: State, step: Step)
    requires Do(s, step).Some?
    ensures Served(Do(s, step).value) == Served(s) + if step.HttpStart? || step.HttpFailsEarly? then 1 else 0
  {
    match step {
      case HttpAdvance(ok) => ServedHttp(s, ok);
      case MainAdvance(ok) => ServedMain(s, ok);
      case _ =>
    }
  }

  /** In every run, whatever fails, each client but the one being served has had one reply. */
  lemma {:induction false} OneReplyEach(d: Discipline, ss: seq<State>, steps: seq<Step>, n: nat)
    requires Trace(d, ss, steps) && n <= |steps|
    ensures |ss[n].replies| + (if ss[n].http.HIdle? then 0 else 1) == Clients(steps[..n])
  {
    if n > 0 {
      OneReplyEach(d, ss, steps, n - 1);
      TraceStep(d, ss, steps, n - 1);
      ServedStep(ss[n - 1], steps[n - 1]);
      assert steps[..n][..n - 1] == steps[..n - 1];
    }
  }

  /** A client is let through to its reply only when it has seen, under the mutex, that no response is pending. */
  ghost predicate LetThrough(s: State, s': State) {
    s.http.HTest? && s'.http.HWaitUnlock?
  }

  lemma LetThroughExactly(s: State, step: Step)
    requires Synchronised(s) && Do(s, step).Some?
    ensures var s' := Do(s, step).value;
            && (s'.http.HCollect? && !s.http.HCollect? ==> s.http.HWaitUnlock?)
            && (s'.http.HWaitUnlock? && !s.http.HWaitUnlock? ==> LetThrough(s, s'))
            && (s.http.HTest? && step.HttpAdvance? ==> (LetThrough(s, s') <==> s.gOp == NONE))
            && (LetThrough(s, s') ==> s.gOp == NONE && s.mutex == Some(Http))
  {
    if step.MainAdvance? {
      assert Do(s, step).value.http == s.http;
    }
  }

  // ---- What a client is told ----

  /** If MQTT requests wait for clients, a client whose request was sent is told the runtime's answer to it. */
  lemma ToldOwnAnswer(s: State, ok: bool)
    requires Reachable(Exclusive, s) && s.http.HCollect? && s.http.job.sent
    ensures var j := s.http.job;
            && j.request.serial in s.answers
            && var a := s.answers[j.request.serial];
               HttpDo(s, ok).value.replies ==
               s.replies + [if a.body.Some? then Answer(j, a.status, a.body.value) else ServerError(j)]
  {
    ClientGetsOwnResponse(s);
  }

  /** No body is stored for a client whose request was not sent, and none can come. */
  predicate NothingStored(s: State) {
    && (s.http.HIdle? || HttpRegisters(s.http) ==> s.lastBody.None?)
    && ((StillWaits(s.http) || s.http.HCollect?) && !s.http.job.sent ==>
          s.lastBody.None? && NoneQueued(s) && MainAside(s.main))
  }

  lemma NothingStoredHttp(s: State, ok: bool)
    requires OneInFlight(s) && HttpAlone(s) && NothingStored(s) && HttpDo(s, ok).Some?
    ensures NothingStored(HttpDo(s, ok).value)
  {
    BodyAfterHttp(s, ok);
    if HttpRegisters(s.http) {
      assert NoneQueued(s) && MainAside(s.main);
    }
  }

  lemma NothingStoredMain(s: State, ok: bool)
    requires OneInFlight(s) && HttpAlone(s) && NothingStored(s) && MainDo(s, ok).Some?
    ensures NothingStored(MainDo(s, ok).value)
  {
    BodyAfterMain(s, ok);
    assert MainDo(s, ok).value.http == s.http;
    assert s.http.HIdle? || HttpRegisters(s.http) ==> MainAside(s.main);
    if MainAside(s.main) && NoneQueued(s) {
      assert MainAside(MainDo(s, ok).value.main) && NoneQueued(MainDo(s, ok).value);
    }
  }

  lemma NothingStoredStep(s: State, step: Step)
    requires OneInFlight(s) && HttpAlone(s) && NothingStored(s)
    requires Do(s, step).Some? && !step.MqttStart?
    ensures NothingStored(Do(s, step).value)
  {
    match step {
      case HttpAdvance(ok) => NothingStoredHttp(s, ok);
      case MainAdvance(ok) => NothingStoredMain(s, ok);
      case _ => BodyAfter(s, step);
    }
  }

  lemma {:induction false} NothingStoredAfter(ss: seq<State>, steps: seq<Step>, n: nat)
    requires Trace(Unguarded, ss, steps) && NoMqtt(steps) && n <= |steps|
    ensures OneInFlight(ss[n]) && HttpAlone(ss[n]) && NothingStored(ss[n])
  {
    if n > 0 {
      NothingStoredAfter(ss, steps, n - 1);
      TraceStep(Unguarded, ss, steps, n - 1);
      assert !steps[n - 1].MqttStart?;
      HttpAloneStep(ss[n - 1], steps[n - 1]);
      OneInFlightStep(Exclusive, ss[n - 1], steps[n - 1]);
      NothingStoredStep(ss[n - 1], steps[n - 1]);
    }
  }

  /** Without MQTT requests a client whose request was not sent, or not even registered, is told of an error. */
  lemma UnsentToldError(ss: seq<State>, steps: seq<Step>, n: nat)
    requires Trace(Unguarded, ss, steps) && NoMqtt(steps) && n < |steps|
    requires Collects(ss[n], steps[n]) && !ss[n].http.job.sent
    ensures ss[n + 1].replies == ss[n].replies + [ServerError(ss[n].http.job)]
  {
    NothingStoredAfter(ss, steps, n);
    TraceStep(Unguarded, ss, steps, n);
  }

  /** An MQTT request of nobody's client is answered, and its answer stored. */
  lemma MqttAnswerStored() returns (s: State)
    ensures Reachable(Exclusive, s) && s.http.HIdle? && s.gOp == NONE && s.mutex.None? && s.lastBody == Some("mqtt")
  {
    var d, start := Exclusive, MqttStart(1);
    var t := Do(INIT, start).value;
    LeadsNowhere(d, INIT);
    LeadsOn(d, INIT, INIT, start);
    var u := MqttSent(t);
    var v := ResponseRead(u, 69, Some("mqtt"));
    s := ResponseStored(v);
    LeadsTo(Quiet, t, u, v);
    LeadsTo(Quiet, t, v, s);
    QuietLeads(d, t, s);
    LeadsTo(d, INIT, t, s);
  }

  /** A client that fails early finds nothing pending, and comes to its reply. */
  lemma FailsAndCollects(d: Discipline, s: State) returns (e: State)
    requires !d.Quiet? && s.http.HIdle? && s.gOp == NONE && s.mutex.None?
    ensures Leads(d, s, e) && e == s.(http := HCollect(Job(Request(|s.started|, 0, NONE), false)))
  {
    LeadsNowhere(d, s);
    LeadsOn(d, s, s, HttpFailsEarly);
    e := Do(s, HttpFailsEarly).value;
    e := ByHttp(d, s, e);
    e := ByHttp(d, s, e);
    e := ByHttp(d, s, e);
  }

  /** With them it can be told an MQTT answer, even if those wait for clients: none waits when the request starts. */
  lemma UnsentToldMqttAnswer() returns (s: State)
    ensures Reachable(Exclusive, s) && s.http.HCollect? && !s.http.job.sent && s.lastBody == Some("mqtt")
  {
    var t := MqttAnswerStored();
    s := FailsAndCollects(Exclusive, t);
    LeadsTo(Exclusive, INIT, t, s);
  }

  /** Under the header's rule a client whose send fails waits, and is never let through. */
  lemma FailedSendWaitsForEver(s: State, e: State)
    requires Reachable(Documented, s) && s.http.HSend?
    requires Leads(Documented, HttpDo(s, false).value, e)
    ensures StillWaits(e.http) && e.http.job == Job(s.http.r, false)
  {
    var w := HttpDo(s, false).value;
    OneInFlightAfter(Documented, INIT, s);
    NeverAnsweredStep(s, HttpAdvance(false));
    OneInFlightStep(Documented, s, HttpAdvance(false));
    var P := t => OneInFlight(t) && NeverAnswered(t) && StillWaits(t.http) && t.http.job == Job(s.http.r, false);
    forall t, step | P(t) && Allowed(Documented, t, step) && Do(t, step).Some? ensures P(Do(t, step).value) {
      OneInFlightStep(Documented, t, step);
      NeverAnsweredStep(t, step);
      StillWaitsStep(t, step);
    }
    Kept(Documented, P, w, e);
  }

  // ---- When each thread can go on ----

  /** Only the mutex, an undelivered signal and the want of work hold a thread up; the outer steps are always open. */
  lemma ThreadsAdvanceExactly(s: State, ok: bool)
    requires Synchronised(s)
    ensures HttpDo(s, ok).None? <==>
              || s.http.HIdle? || (s.http.HBlocked? && !s.signalled)
              || ((s.http.HRegLock? || s.http.HWaitLock?) && MainHolds(s.main))
    ensures MainDo(s, ok).None? <==>
              || s.main.MExit? || (s.main.MIdle? && s.toBridge == [])
              || ((s.main.MRegLock? || s.main.MLock?) && HttpHolds(s.http))
    ensures forall mid, op | op != NONE :: Do(s, HttpStart(mid, op)).Some? <==> s.http.HIdle?
    ensures Do(s, HttpFailsEarly).Some? <==> s.http.HIdle?
    ensures forall mid :: Do(s, MqttStart(mid)).Some? <==> s.main.MIdle? || s.main.MNotify?
    ensures Do(s, SpuriousWakeup).Some? <==> s.http.HBlocked?
    ensures forall status, body :: Do(s, RuntimeAnswers(status, body)).Some? <==> s.toRuntime != []
    ensures Do(s, ReadDropsResponse).Some? <==> s.main.MIdle? && s.toBridge != []
  {
    MutexIsHeld(s);
  }

  // ---- While a module is announced ----

  /** The response whose module the main loop is announcing, if any. */
  function Announcing(pc: MainPc): (r: Option<Response>) {
    match pc
    case MNotify(resp) => Some(resp)
    case MRegLock(_, held) => held
    case MRegMid(_, held) => held
    case MRegOp(_, held) => held
    case MRegUnlock(_, held) => held
    case MSend(_, held) => held
    case _ => None
  }

  /** It was the last one acted on, for an install or uninstall that succeeded. */
  predicate AnnouncesSuccess(s: State) {
    Announcing(s.main).Some? ==>
      && s.handled != []
      && var resp, last := Announcing(s.main).value, s.handled[|s.handled| - 1];
         && last.serial == resp.serial && last.status == resp.status
         && (last.op == INSTALL || last.op == UNINSTALL)
         && (last.status == 65 || last.status == 66 || last.status == 69)
  }

  lemma AnnouncesSuccessMain(s: State, ok: bool)
    requires AnnouncesSuccess(s) && MainDo(s, ok).Some?
    ensures AnnouncesSuccess(MainDo(s, ok).value)
  {
  }

  lemma AnnouncesSuccessStep(s: State, step: Step)
    requires AnnouncesSuccess(s) && Do(s, step).Some?
    ensures AnnouncesSuccess(Do(s, step).value)
  {
    match step {
      case HttpAdvance(ok) => assert Do(s, step).value.main == s.main && Do(s, step).value.handled == s.handled;
      case MainAdvance(ok) => AnnouncesSuccessMain(s, ok);
      case _ =>
    }
  }

  /** Checking a response leads on to its announcement exactly for such a success. */
  lemma AnnouncedExactly(s: State, ok: bool)
    requires s.main.MCheck? && s.main.resp.mid == s.main.mid
    ensures var s' := MainDo(s, ok).value;
            && s'.handled == s.handled + [Handled(s.main.resp.serial, s.main.op, s.main.resp.status)]
            && (Announcing(s'.main) == Some(s.main.resp) <==>
                && (s.main.op == INSTALL || s.main.op == UNINSTALL)
                && (s.main.resp.status == 65 || s.main.resp.status == 66 || s.main.resp.status == 69))
  {
  }

  /** In every run, an MQTT request that starts while a response is held finds a success being announced. */
  lemma HeldIsAnnounced(d: Discipline, s: State)
    requires Reachable(d, s)
    ensures AnnouncesSuccess(s)
  {
    forall t, step | AnnouncesSuccess(t) && Allowed(d, t, step) && Do(t, step).Some?
      ensures AnnouncesSuccess(Do(t, step).value)
    {
      AnnouncesSuccessStep(t, step);
    }
    Kept(d, AnnouncesSuccess, INIT, s);
  }

  // ---- No response is dropped on the way ----

  /** A response acted on whose body is not stored yet. */
  predicate ToStore(pc: MainPc) {
    Announcing(pc).Some? || pc.MStatus? || pc.MBody?
  }

  /** A response stored whose waiter is not signalled yet. */
  predicate ToSignal(pc: MainPc) {
    pc.MLock? || pc.MClear? || pc.MSignal?
  }

  predicate Signals(s: State, step: Step) {
    step.MainAdvance? && s.main.MSignal?
  }

  function StoresIn(ss: seq<State>, steps: seq<Step>, n: nat): (k: nat)
    requires n <= |ss| && n <= |steps|
  {
    if n == 0 then 0 else StoresIn(ss, steps, n - 1) + if Stores(ss[n - 1], steps[n - 1]) then 1 else 0
  }

  function SignalsIn(ss: seq<State>, steps: seq<Step>, n: nat): (k: nat)
    requires n <= |ss| && n <= |steps|
  {
    if n == 0 then 0 else SignalsIn(ss, steps, n - 1) + if Signals(ss[n - 1], steps[n - 1]) then 1 else 0
  }

  function One(b: bool): (n: nat) {
    if b then 1 else 0
  }

  lemma HandlingMain(s: State, ok: bool)
    requires MainDo(s, ok).Some?
    ensures var s' := MainDo(s, ok).value;
            && |s.handled| + One(ToStore(s'.main)) + One(s.main.MBody?) == |s'.handled| + One(ToStore(s.main))
            && One(ToSignal(s'.main)) + One(s.main.MSignal?) == One(ToSignal(s.main)) + One(s.main.MBody?)
  {
  }

  lemma HandlingStep(s: State, step: Step)
    requires Do(s, step).Some?
    ensures var s' := Do(s, step).value;
            && |s.handled| + One(ToStore(s'.main)) + One(Stores(s, step)) == |s'.handled| + One(ToStore(s.main))
            && One(ToSignal(s'.main)) + One(Signals(s, step)) == One(ToSignal(s.main)) + One(Stores(s, step))
  {
    match step {
      case HttpAdvance(ok) => assert Do(s, step).value.main == s.main && Do(s, step).value.handled == s.handled;
      case MainAdvance(ok) => HandlingMain(s, ok);
      case _ =>
    }
  }

  /** In every run, each response acted on but the one in hand has been stored, and its waiter signalled, once. */
  lemma {:induction false} EveryResponseStored(d: Discipline, ss: seq<State>, steps: seq<Step>, n: nat)
    requires Trace(d, ss, steps) && n <= |steps|
    ensures |ss[n].handled| == StoresIn(ss, steps, n) + One(ToStore(ss[n].main))
    ensures StoresIn(ss, steps, n) == SignalsIn(ss, steps, n) + One(ToSignal(ss[n].main))
  {
    if n > 0 {
      EveryResponseStored(d, ss, steps, n - 1);
      TraceStep(d, ss, steps, n - 1);
      HandlingStep(ss[n - 1], steps[n - 1]);
    }
  }
}
