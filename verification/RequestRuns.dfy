/**
 What the handshake of `PendingRequest` can still run into, from any state: when the main
 loop can reach its mid-mismatch exit, when a client can be handed another's answer, when a
 waiting client can finish, and when it can be set back.  Each is an exact condition.
 */
module RequestRuns {
  import opened Seqs
  import opened PendingRequest

  // ---- Runs ----

  lemma {:induction false} RunConcat(d: Discipline, s: State, steps: seq<Step>, more: seq<Step>)
    requires Run(d, s, steps).Some?
    ensures Run(d, s, steps + more) == Run(d, Run(d, s, steps).value, more)
    decreases |steps|
  {
    if steps == [] {
      assert steps + more == more;
    } else {
      ConsAppend(steps, more);
      RunConcat(d, Do(s, steps[0]).value, steps[1..], more);
    }
  }

  lemma LeadsTo(d: Discipline, s: State, e: State, f: State)
    requires Leads(d, s, e) && Leads(d, e, f)
    ensures Leads(d, s, f)
  {
    var steps :| Run(d, s, steps) == Some(e);
    var more :| Run(d, e, more) == Some(f);
    RunConcat(d, s, steps, more);
  }

  lemma LeadsNowhere(d: Discipline, s: State)
    ensures Leads(d, s, s)
  {
    assert Run(d, s, []) == Some(s);
  }

  lemma LeadsOn(d: Discipline, s: State, e: State, step: Step)
    requires Leads(d, s, e) && Allowed(d, e, step) && Do(e, step).Some?
    ensures Leads(d, s, Do(e, step).value)
  {
    var f := Do(e, step).value;
    assert Run(d, e, [step]) == Run(d, f, []);
    LeadsTo(d, s, e, f);
  }

  lemma ByMain(d: Discipline, s: State, e: State) returns (f: State)
    requires Leads(d, s, e) && MainDo(e, true).Some?
    ensures Leads(d, s, f) && f == MainDo(e, true).value
  {
    f := MainDo(e, true).value;
    LeadsOn(d, s, e, MainAdvance(true));
  }

  lemma ByHttp(d: Discipline, s: State, e: State) returns (f: State)
    requires Leads(d, s, e) && HttpDo(e, true).Some?
    ensures Leads(d, s, f) && f == HttpDo(e, true).value
  {
    f := HttpDo(e, true).value;
    LeadsOn(d, s, e, HttpAdvance(true));
  }

  /** Where nothing starts, every discipline is kept. */
  lemma {:induction false} QuietRun(d: Discipline, s: State, steps: seq<Step>)
    requires Run(Quiet, s, steps).Some?
    ensures Run(d, s, steps) == Run(Quiet, s, steps)
    decreases |steps|
  {
    if steps != [] {
      QuietRun(d, Do(s, steps[0]).value, steps[1..]);
    }
  }

  lemma QuietLeads(d: Discipline, s: State, e: State)
    requires Leads(Quiet, s, e)
    ensures Leads(d, s, e)
  {
    var steps :| Run(Quiet, s, steps) == Some(e);
    QuietRun(d, s, steps);
  }

  /** What every step keeps, every run keeps. */
  lemma {:induction false} KeptByRun(d: Discipline, P: State -> bool, s: State, steps: seq<Step>)
    requires P(s) && Run(d, s, steps).Some?
    requires forall t, step :: P(t) && Allowed(d, t, step) && Do(t, step).Some? ==> P(Do(t, step).value)
    ensures P(Run(d, s, steps).value)
    decreases |steps|
  {
    if steps != [] {
      KeptByRun(d, P, Do(s, steps[0]).value, steps[1..]);
    }
  }

  lemma Kept(d: Discipline, P: State -> bool, s: State, e: State)
    requires P(s) && Leads(d, s, e)
    requires forall t, step :: P(t) && Allowed(d, t, step) && Do(t, step).Some? ==> P(Do(t, step).value)
    ensures P(e)
  {
    var steps :| Run(d, s, steps) == Some(e);
    KeptByRun(d, P, s, steps);
  }

  lemma SynchronisedAfter(d: Discipline, s: State, e: State)
    requires Synchronised(s) && Leads(d, s, e)
    ensures Synchronised(e)
  {
    var steps :| Run(d, s, steps) == Some(e);
    SynchronisedRun(d, s, steps);
  }

  lemma OneInFlightAfter(d: Discipline, s: State, e: State)
    requires Guarded(d) && OneInFlight(s) && Leads(d, s, e)
    ensures OneInFlight(e)
  {
    forall t, step | OneInFlight(t) && Allowed(d, t, step) && Do(t, step).Some?
      ensures OneInFlight(Do(t, step).value)
    {
      OneInFlightStep(d, t, step);
    }
    Kept(d, OneInFlight, s, e);
  }

  lemma MutexIsHeld(s: State)
    requires Synchronised(s)
    ensures s.mutex.Some? ==> HttpHolds(s.http) || MainHolds(s.main)
  {
    if s.mutex.Some? {
      match s.mutex.value { case Http => case Main => }
    }
  }

  // ---- How much the threads have left to do ----

  function MainPcWork(pc: MainPc): (n: nat) {
    match pc
    case MIdle => 0
    case MReadMid(_) => 15
    case MReadOp(_, _) => 14
    case MCheck(_, _, _) => 13
    case MNotify(_) => 12
    case MStatus(_) => 11
    case MBody(_) => 10
    case MLock => 9
    case MClear => 8
    case MSignal => 2
    case MUnlock => 1
    case MRegLock(_, _) => 35
    case MRegMid(_, _) => 34
    case MRegOp(_, _) => 33
    case MRegUnlock(_, _) => 32
    case MSend(_, _) => 31
    case MExit => 0
  }

  /** What is left until every request in flight is answered and every response handled. */
  function MainWork(s: State): (n: nat) {
    MainPcWork(s.main) + 17 * |s.toRuntime| + 16 * |s.toBridge|
  }

  /** What is left for a waiting client, as far as it can go while the op type stays. */
  function HttpWork(s: State): (n: nat) {
    match s.http
    case HBlocked(_) => if s.gOp == NONE then 4 else 0
    case HWaitLock(_) => if s.gOp == NONE then 3 else 2
    case HTest(_) => if s.gOp == NONE then 2 else 1
    case HWaitUnlock(_) => 1
    case _ => 0
  }

  /** Each step of the main thread that sends what it registered leaves it less. */
  lemma MainWorkDrops(s: State)
    requires MainDo(s, true).Some?
    ensures MainWork(MainDo(s, true).value) + (if s.main.MClear? then 6 else 1) <= MainWork(s)
  {
  }

  // ---- The mid-mismatch exit ----

  ghost predicate CanExit(s: State) {
    exists e :: Leads(Quiet, s, e) && e.main.MExit?
  }

  /** A response is on its way that will not match the mid registered, and nobody is about to register another. */
  ghost predicate Mismatched(s: State) {
    && Synchronised(s) && !HttpHolds(s.http) && !s.main.MRegLock? && !s.main.MRegMid?
    && (|| s.main.MExit?
        || (s.main.MReadMid? && s.main.resp.mid != s.gMid)
        || ((s.main.MReadOp? || s.main.MCheck?) && s.main.resp.mid != s.main.mid)
        || (exists r | r in s.toRuntime :: r.mid != s.gMid)
        || (exists resp | resp in s.toBridge :: resp.mid != s.gMid))
  }

  /** The main thread goes on alone; where it has nothing to read, the runtime answers. */
  function MainOrRuntime(s: State): (step: Step) {
    if s.main.MIdle? && s.toBridge == [] then RuntimeAnswers(0, None) else MainAdvance(true)
  }

  lemma MismatchedMain(s: State)
    requires Mismatched(s) && !s.main.MExit? && MainOrRuntime(s).MainAdvance?
    ensures MainDo(s, true).Some?
    ensures Mismatched(MainDo(s, true).value) && MainWork(MainDo(s, true).value) < MainWork(s)
  {
    MutexIsHeld(s);
    var s' := MainDo(s, true).value;
    SynchronisedMain(s, true);
    MainWorkDrops(s);
    if r :| r in s.toRuntime && r.mid != s.gMid {
      assert r in s'.toRuntime;
    } else if resp :| resp in s.toBridge && resp.mid != s.gMid {
      assert if s.main.MIdle? && resp == s.toBridge[0] then s'.main == MReadMid(resp) else resp in s'.toBridge;
    }
  }

  lemma MismatchedRuntime(s: State)
    requires Mismatched(s) && s.main.MIdle? && s.toBridge == []
    ensures var s' := Do(s, RuntimeAnswers(0, None));
            s'.Some? && Mismatched(s'.value) && MainWork(s'.value) < MainWork(s)
  {
    var s' := Do(s, RuntimeAnswers(0, None)).value;
    SynchronisedStep(s, RuntimeAnswers(0, None));
    var r :| r in s.toRuntime && r.mid != s.gMid;
    if r == s.toRuntime[0] {
      assert s'.toBridge[0].mid == r.mid;
    } else {
      assert r in s'.toRuntime;
    }
  }

  lemma MismatchedStep(s: State)
    requires Mismatched(s) && !s.main.MExit?
    ensures var step := MainOrRuntime(s);
            && Do(s, step).Some? && Allowed(Quiet, s, step)
            && Mismatched(Do(s, step).value) && MainWork(Do(s, step).value) < MainWork(s)
  {
    if MainOrRuntime(s).MainAdvance? {
      MismatchedMain(s);
    } else {
      MismatchedRuntime(s);
    }
  }

  lemma {:induction false} MismatchedExits(s: State)
    requires Mismatched(s)
    ensures CanExit(s)
    decreases MainWork(s)
  {
    LeadsNowhere(Quiet, s);
    if !s.main.MExit? {
      MismatchedStep(s);
      var s' := Do(s, MainOrRuntime(s)).value;
      LeadsOn(Quiet, s, s, MainOrRuntime(s));
      MismatchedExits(s');
      var e :| Leads(Quiet, s', e) && e.main.MExit?;
      LeadsTo(Quiet, s, s', e);
    }
  }

  // ---- Up to the overlap ----

  function HttpToSend(pc: HttpPc): (n: nat) {
    match pc
    case HRegLock(_) => 5
    case HRegMid(_) => 4
    case HRegOp(_) => 3
    case HRegUnlock(_) => 2
    case HSend(_) => 1
    case HTest(_) => 2
    case HWaitUnlock(_) => 1
    case _ => 0
  }

  /** While the main thread waits to register, the HTTP thread sends what it registers and lets the mutex go. */
  lemma {:induction false} HttpLetsGo(s: State) returns (e: State)
    requires Synchronised(s) && s.main.MRegLock?
    ensures Leads(Quiet, s, e) && Synchronised(e) && !HttpHolds(e.http) && e.main == s.main
    ensures e.toBridge == s.toBridge
    ensures e.toRuntime == s.toRuntime + if HttpRegisters(s.http) then [s.http.r] else []
    ensures !HttpRegisters(s.http) ==> s == e.(http := s.http, mutex := s.mutex, signalled := s.signalled)
    ensures WaitsForOwn(s.http) ==> WaitsForOwn(e.http) && e.http.job == s.http.job
    decreases HttpToSend(s.http)
  {
    MutexIsHeld(s);
    LeadsNowhere(Quiet, s);
    if HttpRegisters(s.http) || HttpHolds(s.http) {
      e := ByHttp(Quiet, s, s);
      SynchronisedStep(s, HttpAdvance(true));
      var f := HttpLetsGo(e);
      LeadsTo(Quiet, s, e, f);
      e := f;
    } else {
      e := s;
      assert s.toRuntime + [] == s.toRuntime;
    }
  }

  function MainToSend(pc: MainPc): (n: nat) {
    match pc
    case MRegLock(_, _) => 5
    case MRegMid(_, _) => 4
    case MRegOp(_, _) => 3
    case MRegUnlock(_, _) => 2
    case MSend(_, _) => 1
    case MClear => 3
    case MSignal => 2
    case MUnlock => 1
    case _ => 0
  }

  /** While the HTTP thread waits to register, the main thread sends what it registers and lets the mutex go. */
  lemma {:induction false} MainLetsGo(s: State) returns (e: State)
    requires Synchronised(s) && s.http.HRegLock?
    ensures Leads(Quiet, s, e) && Synchronised(e) && !MainHolds(e.main) && !MainRegisters(e.main) && e.http == s.http
    ensures e.toBridge == s.toBridge && (s.main.MReadMid? ==> e.main == s.main)
    ensures e.toRuntime == s.toRuntime + if MainRegisters(s.main) then [s.main.r] else []
    decreases MainToSend(s.main)
  {
    MutexIsHeld(s);
    LeadsNowhere(Quiet, s);
    if MainRegisters(s.main) || MainHolds(s.main) {
      e := ByMain(Quiet, s, s);
      SynchronisedStep(s, MainAdvance(true));
      var f := MainLetsGo(e);
      LeadsTo(Quiet, s, e, f);
      e := f;
    } else {
      e := s;
      assert s.toRuntime + [] == s.toRuntime;
    }
  }

  /** What was in flight is still ahead. */
  lemma StillAhead(s: State, more: seq<Request>, e: State, mid: int)
    requires e.toBridge == s.toBridge && e.toRuntime == s.toRuntime + more
    requires || (exists r | r in s.toRuntime :: r.mid != mid)
             || (exists resp | resp in s.toBridge :: resp.mid != mid)
             || (exists r | r in more :: r.mid != mid)
    ensures (exists r | r in e.toRuntime :: r.mid != mid) || (exists resp | resp in e.toBridge :: resp.mid != mid)
  {
    if r :| r in s.toRuntime && r.mid != mid {
      assert r in e.toRuntime;
    } else if r :| r in more && r.mid != mid {
      assert r in e.toRuntime;
    }
  }

  /** From every state: an MQTT request that overlaps one with another mid can end in the exit. */
  lemma MqttOverlapExits(s: State, mid: int)
    requires Synchronised(s) && Do(s, MqttStart(mid)).Some? && Overlaps(s, mid)
    ensures CanExit(Do(s, MqttStart(mid)).value)
  {
    var s1 := Do(s, MqttStart(mid)).value;
    SynchronisedStep(s, MqttStart(mid));
    var s2 := HttpLetsGo(s1);
    MutexIsHeld(s2);
    var s3 := ByMain(Quiet, s1, s2);
    s3 := ByMain(Quiet, s1, s3);
    SynchronisedAfter(Quiet, s1, s3);
    var more := if HttpRegisters(s1.http) then [s1.http.r] else [];
    assert HttpRegisters(s1.http) ==> s1.http.r in more;
    StillAhead(s, more, s3, mid);
    MismatchedExits(s3);
    var e :| Leads(Quiet, s3, e) && e.main.MExit?;
    LeadsTo(Quiet, s1, s3, e);
  }

  /** So can an HTTP request. */
  lemma HttpOverlapExits(s: State, mid: int, op: Op)
    requires Synchronised(s) && Do(s, HttpStart(mid, op)).Some? && Overlaps(s, mid)
    ensures CanExit(Do(s, HttpStart(mid, op)).value)
  {
    var s1 := Do(s, HttpStart(mid, op)).value;
    SynchronisedStep(s, HttpStart(mid, op));
    var s2 := MainLetsGo(s1);
    MutexIsHeld(s2);
    var s3 := ByHttp(Quiet, s1, s2);
    s3 := ByHttp(Quiet, s1, s3);
    s3 := ByHttp(Quiet, s1, s3);
    s3 := ByHttp(Quiet, s1, s3);
    SynchronisedAfter(Quiet, s1, s3);
    var more := if MainRegisters(s1.main) then [s1.main.r] else [];
    assert MainRegisters(s1.main) ==> s1.main.r in more;
    if s.main.MReadMid? && s.main.resp.mid != mid {
      assert s3.main == s.main;
    } else {
      StillAhead(s, more, s3, mid);
    }
    MismatchedExits(s3);
    var e :| Leads(Quiet, s3, e) && e.main.MExit?;
    LeadsTo(Quiet, s1, s3, e);
  }

  // ---- Without such an overlap there is no exit ----

  /** Whatever is in flight has the mid `m`, and so has the register once it matters. */
  ghost predicate ShareMid(s: State, m: int) {
    && (HttpRegisters(s.http) ==> s.http.r.mid == m)
    && (MainRegisters(s.main) ==> s.main.r.mid == m)
    && (forall r | r in s.toRuntime :: r.mid == m)
    && (forall resp | resp in s.toBridge :: resp.mid == m)
    && (s.main.MReadMid? ==> s.main.resp.mid == m)
    && (s.main.MReadOp? || s.main.MCheck? ==> s.main.resp.mid == s.main.mid)
    && (|| s.http.HRegOp? || s.http.HRegUnlock? || s.http.HSend?
        || s.main.MRegOp? || s.main.MRegUnlock? || s.main.MSend? || s.main.MReadMid?
        || s.toRuntime != [] || s.toBridge != []
        ==> s.gMid == m)
    && !s.main.MExit?
  }

  ghost predicate OneMidOnly(s: State) {
    exists m :: ShareMid(s, m)
  }

  lemma ShareMidHttp(s: State, m: int, ok: bool)
    requires ShareMid(s, m) && HttpDo(s, ok).Some?
    ensures ShareMid(HttpDo(s, ok).value, m)
  {
  }

  lemma ShareMidMain(s: State, m: int, ok: bool)
    requires ShareMid(s, m) && MainDo(s, ok).Some?
    ensures ShareMid(MainDo(s, ok).value, m)
  {
    if s.main.MIdle? {
      assert s.toBridge[0] in s.toBridge;
    }
  }

  lemma ShareMidGoesOn(s: State, m: int, step: Step)
    requires ShareMid(s, m) && Do(s, step).Some? && !step.HttpStart? && !step.MqttStart?
    ensures ShareMid(Do(s, step).value, m)
  {
    match step {
      case HttpAdvance(ok) => ShareMidHttp(s, m, ok);
      case MainAdvance(ok) => ShareMidMain(s, m, ok);
      case RuntimeAnswers(_, _) => assert s.toRuntime[0] in s.toRuntime;
      case _ =>
    }
  }

  lemma ShareMidStart(s: State, step: Step)
    requires OneMidOnly(s) && Do(s, step).Some? && (step.HttpStart? || step.MqttStart?) && !Overlaps(s, step.mid)
    ensures ShareMid(Do(s, step).value, step.mid)
  {
    var m :| ShareMid(s, m);
    if s.toRuntime != [] {
      assert s.toRuntime[0] in s.toRuntime;
    }
    if s.toBridge != [] {
      assert s.toBridge[0] in s.toBridge;
    }
  }

  lemma OneMidAfter(d: Discipline, s: State, e: State)
    requires (d.OneMid? || d.Quiet?) && OneMidOnly(s) && Leads(d, s, e)
    ensures OneMidOnly(e)
  {
    forall t, step | OneMidOnly(t) && Allowed(d, t, step) && Do(t, step).Some?
      ensures OneMidOnly(Do(t, step).value)
    {
      if step.HttpStart? || step.MqttStart? {
        ShareMidStart(t, step);
      } else {
        var m :| ShareMid(t, m);
        ShareMidGoesOn(t, m, step);
      }
    }
    Kept(d, OneMidOnly, s, e);
  }

  lemma OneMidReachable(s: State)
    requires Reachable(OneMid, s)
    ensures Synchronised(s) && OneMidOnly(s)
  {
    assert ShareMid(INIT, 0);
    OneMidAfter(OneMid, INIT, s);
    SynchronisedAfter(OneMid, INIT, s);
  }

  /** It takes an overlap with another mid to reach the exit: more may start than the header allows. */
  lemma OneMidNeverMismatched(s: State)
    requires Reachable(OneMid, s)
    ensures !s.main.MExit?
  {
    OneMidReachable(s);
  }

  /** The header's rule is stricter: it lets no start overlap anything, with whatever mid. */
  lemma DocumentedNeverOverlaps(s: State, step: Step)
    requires Reachable(Documented, s) && (step.HttpStart? || step.MqttStart?) && Allowed(Documented, s, step)
    ensures Allowed(OneMid, s, step)
  {
    ReachableKeeps(Documented, s);
    NonePendingMeansNone(s);
  }

  /** And it is enough: whatever the history, the exit can then be reached though nothing else starts. */
  lemma OverlapMismatches(s: State, step: Step)
    requires Reachable(Unguarded, s)
    requires step.HttpStart? || step.MqttStart?
    requires Do(s, step).Some? && Overlaps(s, step.mid)
    ensures CanExit(Do(s, step).value)
  {
    SynchronisedAfter(Unguarded, INIT, s);
    if step.HttpStart? {
      HttpOverlapExits(s, step.mid, step.op);
    } else {
      MqttOverlapExits(s, step.mid);
    }
  }

  /** The first start that makes the exit reachable is the first that overlaps a request with another mid. */
  lemma OverlapExitsExactly(s: State, step: Step)
    requires Reachable(OneMid, s)
    requires step.HttpStart? || step.MqttStart?
    requires Do(s, step).Some?
    ensures CanExit(Do(s, step).value) <==> Overlaps(s, step.mid)
  {
    OneMidReachable(s);
    var s1 := Do(s, step).value;
    if Overlaps(s, step.mid) {
      if step.HttpStart? {
        HttpOverlapExits(s, step.mid, step.op);
      } else {
        MqttOverlapExits(s, step.mid);
      }
    } else if e :| Leads(Quiet, s1, e) && e.main.MExit? {
      ShareMidStart(s, step);
      OneMidAfter(Quiet, s1, e);
    }
  }

  /** A concrete run of the code as it is takes the exit. */
  lemma UnguardedMismatch() returns (e: State)
    ensures Reachable(Unguarded, e) && e.main.MExit?
  {
    var s := FirstRequestSent(Unguarded);
    assert s.toRuntime[0].mid == 1;
    var start := MqttStart(2);
    OverlapMismatches(s, start);
    LeadsOn(Unguarded, INIT, s, start);
    var s1 := Do(s, start).value;
    e :| Leads(Quiet, s1, e) && e.main.MExit?;
    QuietLeads(Unguarded, s1, e);
    LeadsTo(Unguarded, INIT, s1, e);
  }

  /** The HTTP thread registers and sends its first request, and comes to its wait. */
  lemma FirstRequestSent(d: Discipline) returns (s: State)
    requires !d.Quiet?
    ensures var r := Request(0, 1, QUERY);
            && Reachable(d, s)
            && s == INIT.(gMid := 1, gOp := QUERY, http := HWaitLock(Job(r, true)), toRuntime := [r], started := [r])
  {
    LeadsNowhere(d, INIT);
    LeadsOn(d, INIT, INIT, HttpStart(1, QUERY));
    s := Do(INIT, HttpStart(1, QUERY)).value;
    s := ByHttp(d, INIT, s);
    s := ByHttp(d, INIT, s);
    s := ByHttp(d, INIT, s);
    s := ByHttp(d, INIT, s);
    s := ByHttp(d, INIT, s);
  }

  // ---- A waiting client can finish ----

  /** The client has not been let through yet. */
  predicate StillWaits(pc: HttpPc) {
    pc.HWaitLock? || pc.HTest? || pc.HBlocked? || pc.HWaitUnlock?
  }

  /** A response is pending though nothing of its request is in flight, and nobody is about to send it. */
  predicate NeverAnswered(s: State) {
    s.gOp != NONE && NoneQueued(s) && MainAside(s.main) && !HttpRegisters(s.http)
  }

  /** The main thread goes on while it can, the runtime answers, and only then the HTTP thread. */
  function NextStep(s: State, answer: Step): (step: Step) {
    if MainDo(s, true).Some? then MainAdvance(true)
    else if s.main.MIdle? && s.toRuntime != [] then answer
    else HttpAdvance(true)
  }

  /** The step brings the waiting client of `s` nearer to the end of its wait. */
  ghost predicate Nearer(s: State, s': State)
    requires StillWaits(s.http)
  {
    && !NeverAnswered(s') && (StillWaits(s'.http) || s'.http.HCollect?) && s'.http.job == s.http.job
    && MainWork(s') + HttpWork(s') < MainWork(s) + HttpWork(s)
  }

  lemma NearerByMain(s: State)
    requires OneInFlight(s) && StillWaits(s.http) && !NeverAnswered(s) && MainDo(s, true).Some?
    ensures Nearer(s, MainDo(s, true).value)
  {
    var s' := MainDo(s, true).value;
    MainWorkDrops(s);
    assert HttpWork(s') <= HttpWork(s) + if s.main.MClear? then 4 else 0;
    assert s.main.MSend? ==> s'.toRuntime != [];
  }

  lemma NearerByHttp(s: State)
    requires OneInFlight(s) && StillWaits(s.http) && !NeverAnswered(s)
    requires MainDo(s, true).None? && (s.main.MIdle? ==> s.toRuntime == [])
    ensures HttpDo(s, true).Some? && Nearer(s, HttpDo(s, true).value)
  {
    MutexIsHeld(s);
  }

  lemma FinishingStep(s: State, answer: Step)
    requires OneInFlight(s) && StillWaits(s.http) && !NeverAnswered(s) && answer.RuntimeAnswers?
    ensures var step := NextStep(s, answer);
            && Do(s, step).Some? && OneInFlight(Do(s, step).value) && Nearer(s, Do(s, step).value)
  {
    var step := NextStep(s, answer);
    if step.MainAdvance? {
      NearerByMain(s);
    } else if step.HttpAdvance? {
      NearerByHttp(s);
    }
    OneInFlightStep(Quiet, s, step);
  }

  /**
   Under the header's rule a client whose request is answered or in flight can finish,
   without any spurious wakeup or new request, and within six steps once all is processed.
   */
  lemma {:induction false} WaiterCanFinish(s: State, answer: Step) returns (steps: seq<Step>, e: State)
    requires OneInFlight(s) && (StillWaits(s.http) || s.http.HCollect?) && answer.RuntimeAnswers?
    requires !NeverAnswered(s) || s.http.HCollect?
    ensures Run(Quiet, s, steps) == Some(e) && e.http == HCollect(s.http.job)
    ensures |steps| <= MainWork(s) + HttpWork(s)
    ensures s.gOp == NONE && MainAside(s.main) ==> |steps| <= 6
    ensures forall i | 0 <= i < |steps| :: steps[i] in [HttpAdvance(true), MainAdvance(true), answer]
    ensures s.main.MIdle? && NoneQueued(s) ==>
              e.lastStatus == s.lastStatus && e.lastBody == s.lastBody && e.answers == s.answers
    decreases MainWork(s) + HttpWork(s)
  {
    if s.http.HCollect? {
      steps, e := [], s;
    } else {
      var step := NextStep(s, answer);
      FinishingStep(s, answer);
      var rest;
      rest, e := WaiterCanFinish(Do(s, step).value, answer);
      steps := [step] + rest;
      assert steps[1..] == rest;
    }
  }

  /** The step is a send that fails, or a read that ignores the response. */
  predicate Loses(s: State, step: Step) {
    || (step.HttpAdvance? && s.http.HSend? && !step.sendOk)
    || (step.MainAdvance? && s.main.MSend? && !step.sendOk)
    || step.ReadDropsResponse?
  }

  /** No step of the run loses a request or a response. */
  ghost predicate NothingLost(s: State, steps: seq<Step>)
    decreases |steps|
  {
    steps != [] && Do(s, steps[0]).Some? ==>
      !Loses(s, steps[0]) && NothingLost(Do(s, steps[0]).value, steps[1..])
  }

  lemma NeverAnsweredByHttp(s: State, ok: bool)
    requires OneInFlight(s) && HttpDo(s, ok).Some?
    ensures NeverAnswered(HttpDo(s, ok).value) <==> NeverAnswered(s) || Loses(s, HttpAdvance(ok))
  {
    if HttpRegisters(s.http) {
      assert NoneQueued(s) && MainAside(s.main);
    }
  }

  lemma NeverAnsweredByMain(s: State, ok: bool)
    requires OneInFlight(s) && MainDo(s, ok).Some?
    ensures NeverAnswered(MainDo(s, ok).value) <==> NeverAnswered(s) || Loses(s, MainAdvance(ok))
  {
    if MainRegisters(s.main) {
      assert NoneQueued(s) && !HttpRegisters(s.http);
    }
  }

  /** Under the header's rule, what is lost stays lost, and nothing else gets lost. */
  lemma NeverAnsweredStep(s: State, step: Step)
    requires OneInFlight(s) && Allowed(Documented, s, step) && Do(s, step).Some?
    ensures NeverAnswered(Do(s, step).value) <==> NeverAnswered(s) || Loses(s, step)
  {
    match step {
      case HttpAdvance(ok) => NeverAnsweredByHttp(s, ok);
      case MainAdvance(ok) => NeverAnsweredByMain(s, ok);
      case ReadDropsResponse => assert !HttpRegisters(s.http) && s.started != [];
      case _ =>
    }
  }

  lemma {:induction false} NeverAnsweredAfter(s: State, steps: seq<Step>)
    requires OneInFlight(s) && Run(Documented, s, steps).Some?
    ensures NeverAnswered(Run(Documented, s, steps).value) <==> NeverAnswered(s) || !NothingLost(s, steps)
    decreases |steps|
  {
    if steps != [] {
      var s' := Do(s, steps[0]).value;
      OneInFlightStep(Documented, s, steps[0]);
      NeverAnsweredStep(s, steps[0]);
      NeverAnsweredAfter(s', steps[1..]);
    }
  }

  lemma StillWaitsStep(s: State, step: Step)
    requires Synchronised(s) && NeverAnswered(s) && StillWaits(s.http) && Do(s, step).Some?
    ensures StillWaits(Do(s, step).value.http)
  {
    match step {
      case HttpAdvance(ok) => assert !s.http.HWaitUnlock?;
      case MainAdvance(ok) => assert Do(s, step).value.http == s.http;
      case _ =>
    }
  }

  /** By its state: under the header's rule a waiting client can finish unless its answer is lost. */
  lemma WaiterFinishesUnlessLost(s: State)
    requires OneInFlight(s) && StillWaits(s.http)
    ensures (exists e :: Leads(Documented, s, e) && e.http == HCollect(s.http.job)) <==> !NeverAnswered(s)
  {
    if !NeverAnswered(s) {
      var steps, e := WaiterCanFinish(s, RuntimeAnswers(0, None));
      QuietRun(Documented, s, steps);
    } else if e :| Leads(Documented, s, e) && e.http == HCollect(s.http.job) {
      var P := t => OneInFlight(t) && NeverAnswered(t) && StillWaits(t.http);
      forall t, step | P(t) && Allowed(Documented, t, step) && Do(t, step).Some? ensures P(Do(t, step).value) {
        OneInFlightStep(Documented, t, step);
        NeverAnsweredStep(t, step);
        StillWaitsStep(t, step);
      }
      Kept(Documented, P, s, e);
    }
  }

  /**
   By its history: over every run that keeps the header's rule, a waiting client can finish
   exactly when no send of the run, its own or another's, has failed and no read has ignored
   a response.
   */
  lemma WaiterFinishesExactly(steps: seq<Step>, s: State)
    requires Run(Documented, INIT, steps) == Some(s) && StillWaits(s.http)
    ensures (exists e :: Leads(Documented, s, e) && e.http == HCollect(s.http.job)) <==> NothingLost(INIT, steps)
  {
    assert Leads(Documented, INIT, s);
    OneInFlightAfter(Documented, INIT, s);
    NeverAnsweredAfter(INIT, steps);
    WaiterFinishesUnlessLost(s);
  }

  // ---- A waiting client can be set back ----

  /** The client blocks again, for a response that is not the one it waited for. */
  ghost predicate CanBeSetBack(s: State, job: Job) {
    exists e :: Leads(Quiet, s, e) && e.http == HBlocked(job) && e.gOp != NONE
  }

  /** The main thread registers and sends the MQTT request it has started. */
  lemma MqttSent(s: State) returns (e: State)
    requires s.main.MRegLock? && s.main.held.None? && s.mutex.None?
    ensures var r := s.main.r;
            && Leads(Quiet, s, e)
            && e == s.(gMid := r.mid, gOp := r.op, main := MIdle, toRuntime := s.toRuntime + [r])
  {
    LeadsNowhere(Quiet, s);
    e := ByMain(Quiet, s, s);
    e := ByMain(Quiet, s, e);
    e := ByMain(Quiet, s, e);
    assert e == s.(mutex := Some(Main), gMid := s.main.r.mid, gOp := s.main.r.op, main := MRegUnlock(s.main.r, None));
    e := ByMain(Quiet, s, e);
    e := ByMain(Quiet, s, e);
  }

  /** The main thread registers before the client tests the op type. */
  lemma {:induction false} Overtaken(s: State)
    requires OneInFlight(s) && MainRegisters(s.main) && (s.http.HWaitLock? || s.http.HBlocked?)
    ensures CanBeSetBack(s, s.http.job)
    decreases MainWork(s)
  {
    MutexIsHeld(s);
    LeadsNowhere(Quiet, s);
    if s.main.MSend? {
      if s.http.HWaitLock? {
        var e := ByHttp(Quiet, s, s);
        e := ByHttp(Quiet, s, e);
      }
    } else {
      var s' := ByMain(Quiet, s, s);
      OneInFlightStep(Quiet, s, MainAdvance(true));
      Overtaken(s');
      var e :| Leads(Quiet, s', e) && e.http == HBlocked(s.http.job) && e.gOp != NONE;
      LeadsTo(Quiet, s, s', e);
    }
  }

  /** Nothing sets the client back any more. */
  predicate SafeFromSetBack(s: State) {
    || (s.gOp == NONE && !MainRegisters(s.main))
    || (s.http.HTest? && s.gOp == NONE)
    || s.http.HWaitUnlock? || s.http.HCollect? || s.http.HIdle?
  }

  lemma SafeStays(s: State, step: Step)
    requires Synchronised(s) && SafeFromSetBack(s) && !HttpRegisters(s.http)
    requires Allowed(Quiet, s, step) && Do(s, step).Some?
    ensures SafeFromSetBack(Do(s, step).value) && !HttpRegisters(Do(s, step).value.http)
  {
    match step {
      case MainAdvance(ok) => SafeWhileMain(s, ok);
      case _ =>
    }
  }

  lemma SafeWhileMain(s: State, ok: bool)
    requires Synchronised(s) && SafeFromSetBack(s) && MainDo(s, ok).Some?
    ensures SafeFromSetBack(MainDo(s, ok).value) && MainDo(s, ok).value.http == s.http
  {
    if s.http.HTest? {
      assert !MainHolds(s.main);
    }
  }

  /**
   Under the header's rule, a client whose response has been processed can be set back exactly
   when an MQTT request has started and the client does not hold the mutex yet.
   */
  lemma SetBackExactly(s: State)
    requires OneInFlight(s) && StillWaits(s.http) && s.gOp == NONE
    ensures CanBeSetBack(s, s.http.job) <==> MainRegisters(s.main) && (s.http.HWaitLock? || s.http.HBlocked?)
  {
    if MainRegisters(s.main) && (s.http.HWaitLock? || s.http.HBlocked?) {
      Overtaken(s);
    } else if e :| Leads(Quiet, s, e) && e.http == HBlocked(s.http.job) && e.gOp != NONE {
      var P := t => Synchronised(t) && SafeFromSetBack(t) && !HttpRegisters(t.http);
      forall t, step | P(t) && Allowed(Quiet, t, step) && Do(t, step).Some? ensures P(Do(t, step).value) {
        SynchronisedStep(t, step);
        SafeStays(t, step);
      }
      Kept(Quiet, P, s, e);
    }
  }

  /** In particular an MQTT request that starts then can overtake any client not yet past its test. */
  lemma StartSetsBack(s: State, mid: int)
    requires OneInFlight(s) && StillWaits(s.http)
    requires Allowed(Documented, s, MqttStart(mid)) && Do(s, MqttStart(mid)).Some?
    ensures CanBeSetBack(Do(s, MqttStart(mid)).value, s.http.job) <==> s.http.HWaitLock? || s.http.HBlocked?
  {
    OneInFlightStep(Documented, s, MqttStart(mid));
    SetBackExactly(Do(s, MqttStart(mid)).value);
  }

  /** A concrete run under the header's rule: the client's answer is processed, and it blocks for another's. */
  lemma DocumentedSetBack() returns (s: State, e: State)
    ensures Reachable(Documented, s) && s.http.HWaitLock? && s.gOp == NONE && Stored(s, s.http.job.request)
    ensures Leads(Documented, s, e) && e.http == HBlocked(s.http.job) && e.gOp != NONE
  {
    var t := FirstRequestSent(Documented);
    var u := ResponseRead(t, 69, None);
    s := ResponseStored(u);
    LeadsTo(Quiet, t, u, s);
    QuietLeads(Documented, t, s);
    LeadsTo(Documented, INIT, t, s);
    OneInFlightAfter(Documented, INIT, s);
    StartSetsBack(s, 2);
    LeadsNowhere(Documented, s);
    LeadsOn(Documented, s, s, MqttStart(2));
    var v := Do(s, MqttStart(2)).value;
    e :| Leads(Quiet, v, e) && e.http == HBlocked(s.http.job) && e.gOp != NONE;
    QuietLeads(Documented, v, e);
    LeadsTo(Documented, s, v, e);
  }

  // ---- A client can be handed another's answer ----

  ghost predicate CanMixUp(s: State) {
    exists e :: Leads(Quiet, s, e) && e.http.HCollect? && e.http.job.sent && !Stored(e, e.http.job.request)
  }

  /** The runtime answers the only request queued, whose mid is registered, and the main thread reads the response. */
  lemma ResponseRead(s: State, status: int, body: Option<string>) returns (e: State)
    requires s.main.MIdle? && |s.toRuntime| == 1 && s.toBridge == []
    requires s.toRuntime[0].mid == s.gMid && !Announces(s.gOp, status)
    ensures var r := s.toRuntime[0]; var resp := Response(r.serial, r.mid, status, body);
            && Leads(Quiet, s, e)
            && e == s.(main := MStatus(resp), toRuntime := [], answers := s.answers[r.serial := resp],
                       handled := s.handled + [Handled(r.serial, s.gOp, status)])
  {
    LeadsNowhere(Quiet, s);
    LeadsOn(Quiet, s, s, RuntimeAnswers(status, body));
    e := Do(s, RuntimeAnswers(status, body)).value;
    e := ByMain(Quiet, s, e);
    assert e.toRuntime == [] && e.toBridge == [];
    e := ByMain(Quiet, s, e);
    e := ByMain(Quiet, s, e);
    e := ByMain(Quiet, s, e);
  }

  /** Then it stores the response, clears the op type and signals. */
  lemma ResponseStored(s: State) returns (e: State)
    requires s.main.MStatus? && s.mutex.None?
    ensures Leads(Quiet, s, e)
    ensures e == s.(gOp := NONE, lastStatus := s.main.resp.status, lastBody := s.main.resp.body, main := MIdle,
                    signalled := s.signalled || s.http.HBlocked?)
  {
    LeadsNowhere(Quiet, s);
    e := ByMain(Quiet, s, s);
    e := ByMain(Quiet, s, e);
    e := ByMain(Quiet, s, e);
    assert e == s.(mutex := Some(Main), lastStatus := s.main.resp.status, lastBody := s.main.resp.body,
                   main := MClear);
    e := ByMain(Quiet, s, e);
    e := ByMain(Quiet, s, e);
    e := ByMain(Quiet, s, e);
  }

  /** From its start to its stored answer, an MQTT request can pass by a waiting client. */
  lemma MqttPasses(s: State, status: int) returns (e: State)
    requires Synchronised(s) && s.main.MRegLock? && s.main.held.None? && s.main.r.op == REQUEST
    requires NoneQueued(s) && WaitsForOwn(s.http)
    ensures Leads(Quiet, s, e) && WaitsForOwn(e.http) && e.http.job == s.http.job
    ensures e.main.MIdle? && NoneQueued(e) && e.gOp == NONE && e.lastStatus == status
    ensures s.main.r.serial in e.answers
    ensures e.answers == s.answers[s.main.r.serial := e.answers[s.main.r.serial]]
  {
    e := HttpLetsGo(s);
    MutexIsHeld(e);
    var f := MqttSent(e);
    LeadsTo(Quiet, s, e, f);
    e := ResponseRead(f, status, None);
    LeadsTo(Quiet, s, f, e);
    f := ResponseStored(e);
    LeadsTo(Quiet, s, e, f);
    e := f;
  }

  /** The HTTP thread only works for requests that have started. */
  predicate OwnStarted(s: State) {
    && (HttpRegisters(s.http) ==> s.http.r.serial < |s.started|)
    && (WaitsForOwn(s.http) ==> s.http.job.request.serial < |s.started|)
  }

  lemma OwnStartedStep(s: State, step: Step)
    requires OwnStarted(s) && Do(s, step).Some?
    ensures OwnStarted(Do(s, step).value)
  {
    if step.MainAdvance? {
      var s' := Do(s, step).value;
      assert s'.http == s.http && s'.started == s.started;
    }
  }

  lemma OwnStartedReachable(d: Discipline, s: State)
    requires Reachable(d, s)
    ensures OwnStarted(s)
  {
    forall t, step | OwnStarted(t) && Allowed(d, t, step) && Do(t, step).Some? ensures OwnStarted(Do(t, step).value) {
      OwnStartedStep(t, step);
    }
    Kept(d, OwnStarted, INIT, s);
  }

  lemma MqttMixesUp(s: State, mid: int)
    requires OneInFlight(s) && OwnStarted(s) && NonePending(s) && s.main.MIdle? && WaitsForOwn(s.http)
    ensures CanMixUp(Do(s, MqttStart(mid)).value)
  {
    var s1 := Do(s, MqttStart(mid)).value;
    var serial := s.http.job.request.serial;
    OneInFlightStep(Documented, s, MqttStart(mid));
    var e := MqttPasses(s1, if serial in s.answers then s.answers[serial].status + 1 else 0);
    OneInFlightAfter(Quiet, s1, e);
    var steps, f := WaiterCanFinish(e, RuntimeAnswers(0, None));
    LeadsTo(Quiet, s1, e, f);
    assert serial != s1.main.r.serial;
  }

  /** No client waits for the answer to its request, or is about to. */
  predicate NoneServed(s: State) {
    !WaitsForOwn(s.http) && !HttpRegisters(s.http)
  }

  lemma NoneServedStays(s: State, step: Step)
    requires NoneServed(s) && Allowed(Quiet, s, step) && Do(s, step).Some?
    ensures NoneServed(Do(s, step).value)
  {
    if step.MainAdvance? {
      assert Do(s, step).value.http == s.http;
    }
  }

  /** Where no client waits for the answer to its request, none comes to wait while nothing starts. */
  lemma NoneToMixUp(s: State)
    requires NoneServed(s)
    ensures !CanMixUp(s)
  {
    if e :| Leads(Quiet, s, e) && e.http.HCollect? && e.http.job.sent && !Stored(e, e.http.job.request) {
      forall t, step | NoneServed(t) && Allowed(Quiet, t, step) && Do(t, step).Some?
        ensures NoneServed(Do(t, step).value)
      {
        NoneServedStays(t, step);
      }
      Kept(Quiet, NoneServed, s, e);
    }
  }

  /**
   In every run that keeps the header's rule, an MQTT request can lead to a client collecting
   an answer that is not its own exactly when it starts while a client whose request was sent
   is being served: the guard of `Exclusive` is necessary as well as sufficient.
   */
  lemma MixUpExactly(s: State, mid: int)
    requires Reachable(Documented, s)
    requires Allowed(Documented, s, MqttStart(mid)) && Do(s, MqttStart(mid)).Some?
    ensures CanMixUp(Do(s, MqttStart(mid)).value) <==> WaitsForOwn(s.http)
    ensures WaitsForOwn(s.http) <==> !Allowed(Exclusive, s, MqttStart(mid))
  {
    ReachableKeeps(Documented, s);
    OwnStartedReachable(Documented, s);
    NonePendingMeansNone(s);
    if WaitsForOwn(s.http) {
      MqttMixesUp(s, mid);
    } else {
      NoneToMixUp(Do(s, MqttStart(mid)).value);
    }
  }

  /** The header's rule is not enough for clients: a concrete run hands one the answer to an MQTT request. */
  lemma DocumentedMixup() returns (e: State)
    ensures Reachable(Documented, e) && e.http.HCollect? && e.http.job.sent && !Stored(e, e.http.job.request)
  {
    var s := FirstRequestSent(Documented);
    var t := ResponseRead(s, 69, None);
    var u := ResponseStored(t);
    LeadsTo(Quiet, s, t, u);
    QuietLeads(Documented, s, u);
    LeadsTo(Documented, INIT, s, u);
    MixUpExactly(u, 2);
    LeadsOn(Documented, INIT, u, MqttStart(2));
    var v := Do(u, MqttStart(2)).value;
    e :| Leads(Quiet, v, e) && e.http.HCollect? && e.http.job.sent && !Stored(e, e.http.job.request);
    QuietLeads(Documented, v, e);
    LeadsTo(Documented, INIT, v, e);
  }
}
