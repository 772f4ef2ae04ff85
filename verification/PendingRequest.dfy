/**
 The pending-request handshake between the HTTP thread, the main thread and the runtime,
 as a transition system over all interleavings.

 The HTTP thread registers a request (mid and op type, under the mutex), sends it, waits
 on the condition variable until the op type is NONE, and reports the stored response.
 The main thread reads a response, compares its mid, acts on the op type, stores the
 response, and clears the op type and signals under the mutex.  It also originates
 requests of its own for incoming MQTT messages, and does not wait for their responses.
 The header asks that no request start while a response is pending; nothing in the code
 enforces it, so it is a guard that the theorems below name.
 */
module PendingRequest {
  import opened Seqs

  datatype Op = NONE | INSTALL | UNINSTALL | QUERY | REQUEST

  datatype Thread = Http | Main

  /** `serial` numbers the requests in the order they start; mids are random and may repeat. */
  datatype Request = Request(serial: nat, mid: int, op: Op)

  /** `body` is None when the payload cannot be rendered. */
  datatype Response = Response(serial: nat, mid: int, status: int, body: Option<string>)

  /** The HTTP request being served; it is `sent` if `send_request` succeeded. */
  datatype Job = Job(request: Request, sent: bool)

  datatype HttpPc =
    | HIdle
    | HRegLock(r: Request) | HRegMid(r: Request) | HRegOp(r: Request) | HRegUnlock(r: Request) | HSend(r: Request)
    | HWaitLock(job: Job) | HTest(job: Job) | HBlocked(job: Job) | HWaitUnlock(job: Job) | HCollect(job: Job)

  datatype MainPc =
    | MIdle
    | MReadMid(resp: Response) | MReadOp(resp: Response, mid: int) | MCheck(resp: Response, mid: int, op: Op)
    | MNotify(resp: Response)  // announcing the module, and polling MQTT meanwhile
    | MStatus(resp: Response) | MBody(resp: Response) | MLock | MClear | MSignal | MUnlock
    // an MQTT request, started between two rounds or while the response `held` is announced
    | MRegLock(r: Request, held: Option<Response>) | MRegMid(r: Request, held: Option<Response>)
    | MRegOp(r: Request, held: Option<Response>) | MRegUnlock(r: Request, held: Option<Response>)
    | MSend(r: Request, held: Option<Response>)
    | MExit  // the "Unexpected response!" return

  /** What a client is told: the stored response, or status 500 if no body is stored. */
  datatype Reply = Answer(job: Job, status: int, body: string) | ServerError(job: Job)

  /** A response acted on by the main loop, with the op type the loop read for it. */
  datatype Handled = Handled(serial: nat, op: Op, status: int)

  datatype State = State(
    gMid: int, gOp: Op,
    mutex: Option<Thread>,
    signalled: bool,                  // a signal has been delivered to the blocked waiter
    lastStatus: int, lastBody: Option<string>,
    http: HttpPc, main: MainPc,
    toRuntime: seq<Request>, toBridge: seq<Response>,
    started: seq<Request>,            // every request started
    answers: map<nat, Response>,      // what the runtime answered, by serial
    handled: seq<Handled>,
    replies: seq<Reply>)              // what clients were told

  const INIT := State(0, NONE, None, false, 0, None, HIdle, MIdle, [], [], [], map[], [], [])

  datatype Step =
    | HttpStart(mid: int, op: Op)
    | HttpFailsEarly                  // the handler gives up before registering, yet still waits
    | HttpAdvance(sendOk: bool)
    | SpuriousWakeup
    | MqttStart(mid: int)
    | MainAdvance(sendOk: bool)
    | RuntimeAnswers(status: int, body: Option<string>)
    | ReadDropsResponse               // a read that held an event before the response ignores the response

  // ---- The code's steps ----

  function HttpDo(s: State, sendOk: bool): (r: Option<State>) {
    match s.http
    case HIdle => None
    case HRegLock(r) => if s.mutex.None? then Some(s.(mutex := Some(Http), http := HRegMid(r))) else None
    case HRegMid(r) => Some(s.(gMid := r.mid, http := HRegOp(r)))
    case HRegOp(r) => Some(s.(gOp := r.op, http := HRegUnlock(r)))
    case HRegUnlock(r) => Some(s.(mutex := None, http := HSend(r)))
    case HSend(r) =>
      Some(s.(http := HWaitLock(Job(r, sendOk)), toRuntime := s.toRuntime + if sendOk then [r] else []))
    case HWaitLock(j) => if s.mutex.None? then Some(s.(mutex := Some(Http), http := HTest(j))) else None
    case HTest(j) =>
      if s.gOp != NONE then Some(s.(mutex := None, signalled := false, http := HBlocked(j)))
      else Some(s.(http := HWaitUnlock(j)))
    case HBlocked(j) => if s.signalled then Some(s.(signalled := false, http := HWaitLock(j))) else None
    case HWaitUnlock(j) => Some(s.(mutex := None, http := HCollect(j)))
    case HCollect(j) =>
      var reply := if s.lastBody.Some? then Answer(j, s.lastStatus, s.lastBody.value) else ServerError(j);
      Some(s.(replies := s.replies + [reply], lastBody := None, http := HIdle))
  }

  /** Whether the main loop announces a module: installed or uninstalled with success (2.01, 2.02 or 2.05). */
  predicate Announces(op: Op, status: int) {
    (op.INSTALL? || op.UNINSTALL?) && status in {65, 66, 69}
  }

  function MainDo(s: State, sendOk: bool): (r: Option<State>) {
    match s.main
    case MIdle =>
      if s.toBridge == [] then None
      else Some(s.(main := MReadMid(s.toBridge[0]), toBridge := s.toBridge[1..]))
    case MReadMid(resp) => Some(s.(main := MReadOp(resp, s.gMid)))
    case MReadOp(resp, mid) => Some(s.(main := MCheck(resp, mid, s.gOp)))
    case MCheck(resp, mid, op) =>
      if resp.mid != mid then Some(s.(main := MExit))
      else Some(s.(main := if Announces(op, resp.status) then MNotify(resp) else MStatus(resp),
                   handled := s.handled + [Handled(resp.serial, op, resp.status)]))
    case MNotify(resp) => Some(s.(main := MStatus(resp)))
    case MStatus(resp) => Some(s.(lastStatus := resp.status, main := MBody(resp)))
    case MBody(resp) => Some(s.(lastBody := resp.body, main := MLock))
    case MLock => if s.mutex.None? then Some(s.(mutex := Some(Main), main := MClear)) else None
    case MClear => Some(s.(gOp := NONE, main := MSignal))
    case MSignal => Some(s.(signalled := s.signalled || s.http.HBlocked?, main := MUnlock))
    case MUnlock => Some(s.(mutex := None, main := MIdle))
    case MRegLock(r, held) => if s.mutex.None? then Some(s.(mutex := Some(Main), main := MRegMid(r, held))) else None
    case MRegMid(r, held) => Some(s.(gMid := r.mid, main := MRegOp(r, held)))
    case MRegOp(r, held) => Some(s.(gOp := r.op, main := MRegUnlock(r, held)))
    case MRegUnlock(r, held) => Some(s.(mutex := None, main := MSend(r, held)))
    case MSend(r, held) =>
      Some(s.(main := if held.None? then MIdle else MNotify(held.value),
              toRuntime := s.toRuntime + if sendOk then [r] else []))
    case MExit => None
  }

  /** The state after a step, or None where the step cannot be taken. */
  function Do(s: State, step: Step): (r: Option<State>) {
    match step
    case HttpStart(mid, op) =>
      var request := Request(|s.started|, mid, op);
      if s.http.HIdle? && op != NONE then Some(s.(http := HRegLock(request), started := s.started + [request]))
      else None
    case HttpFailsEarly =>
      if s.http.HIdle? then Some(s.(http := HWaitLock(Job(Request(|s.started|, 0, NONE), false)))) else None
    case HttpAdvance(ok) => HttpDo(s, ok)
    case SpuriousWakeup =>
      if s.http.HBlocked? then Some(s.(signalled := false, http := HWaitLock(s.http.job))) else None
    case MqttStart(mid) =>
      var request := Request(|s.started|, mid, REQUEST);
      var held := if s.main.MNotify? then Some(s.main.resp) else None;
      if s.main.MIdle? || s.main.MNotify? then
        Some(s.(main := MRegLock(request, held), started := s.started + [request]))
      else None
    case MainAdvance(ok) => MainDo(s, ok)
    case RuntimeAnswers(status, body) =>
      if s.toRuntime == [] then None
      else
        var resp := Response(s.toRuntime[0].serial, s.toRuntime[0].mid, status, body);
        Some(s.(toRuntime := s.toRuntime[1..], toBridge := s.toBridge + [resp],
                answers := s.answers[resp.serial := resp]))
    case ReadDropsResponse =>
      if s.main.MIdle? && s.toBridge != [] then Some(s.(toBridge := s.toBridge[1..])) else None
  }

  // ---- Disciplines ----

  /**
   What a start waits for: nothing (the code as it is), that every request in flight has the
   new mid, that none is pending (the header's rule), in addition that no client whose request
   was sent is being served, or forever (no request and no client starts).
   */
  datatype Discipline = Unguarded | OneMid | Documented | Exclusive | Quiet

  predicate HttpRegisters(pc: HttpPc) {
    pc.HRegLock? || pc.HRegMid? || pc.HRegOp? || pc.HRegUnlock? || pc.HSend?
  }

  predicate MainRegisters(pc: MainPc) {
    pc.MRegLock? || pc.MRegMid? || pc.MRegOp? || pc.MRegUnlock? || pc.MSend?
  }

  predicate NonePending(s: State) {
    s.gOp == NONE && !HttpRegisters(s.http) && !MainRegisters(s.main)
  }

  /** A request in flight, whose response the main loop has not begun to check, has another mid. */
  predicate Overlaps(s: State, mid: int) {
    || (HttpRegisters(s.http) && s.http.r.mid != mid)
    || (MainRegisters(s.main) && s.main.r.mid != mid)
    || (exists r | r in s.toRuntime :: r.mid != mid)
    || (exists resp | resp in s.toBridge :: resp.mid != mid)
    || (s.main.MReadMid? && s.main.resp.mid != mid)
  }

  /** The HTTP thread has sent its request and has not yet replied to its client. */
  predicate WaitsForOwn(pc: HttpPc) {
    (pc.HWaitLock? || pc.HTest? || pc.HBlocked? || pc.HWaitUnlock? || pc.HCollect?) && pc.job.sent
  }

  predicate MayStart(d: Discipline, s: State, mid: int) {
    match d
    case Unguarded => true
    case OneMid => !Overlaps(s, mid)
    case Documented => NonePending(s)
    case Exclusive => NonePending(s)
    case Quiet => false
  }

  predicate Allowed(d: Discipline, s: State, step: Step) {
    match step
    case HttpStart(mid, _) => MayStart(d, s, mid)
    case MqttStart(mid) => MayStart(d, s, mid) && (d.Exclusive? ==> !WaitsForOwn(s.http))
    case HttpFailsEarly => !d.Quiet?
    case _ => true
  }

  /** The header's rule is kept. */
  predicate Guarded(d: Discipline) {
    d.Documented? || d.Exclusive? || d.Quiet?
  }

  /** The state a run ends in, or None where it takes a step that is not allowed or not possible. */
  function Run(d: Discipline, s: State, steps: seq<Step>): (r: Option<State>)
    decreases |steps|
  {
    if steps == [] then Some(s)
    else if !Allowed(d, s, steps[0]) || Do(s, steps[0]).None? then None
    else Run(d, Do(s, steps[0]).value, steps[1..])
  }

  ghost predicate Leads(d: Discipline, s: State, e: State) {
    exists steps :: Run(d, s, steps) == Some(e)
  }

  ghost predicate Reachable(d: Discipline, s: State) {
    Leads(d, INIT, s)
  }

  // ---- Mutual exclusion and wakeups: under every discipline ----

  predicate HttpHolds(pc: HttpPc) {
    pc.HRegMid? || pc.HRegOp? || pc.HRegUnlock? || pc.HTest? || pc.HWaitUnlock?
  }

  predicate MainHolds(pc: MainPc) {
    pc.MClear? || pc.MSignal? || pc.MUnlock? || pc.MRegMid? || pc.MRegOp? || pc.MRegUnlock?
  }

  predicate Synchronised(s: State) {
    && (s.mutex == Some(Http) <==> HttpHolds(s.http))
    && (s.mutex == Some(Main) <==> MainHolds(s.main))
    && (s.http.HBlocked? && !s.signalled ==> s.gOp != NONE || s.main.MSignal?)
    && (s.http.HWaitUnlock? ==> s.gOp == NONE)
    && (s.http.HRegLock? ==> s.http.r.op != NONE)
    && (s.http.HRegMid? ==> s.http.r.op != NONE)
    && (s.http.HRegOp? ==> s.http.r.op != NONE)
    && (s.main.MRegLock? ==> s.main.r.op != NONE)
    && (s.main.MRegMid? ==> s.main.r.op != NONE)
    && (s.main.MRegOp? ==> s.main.r.op != NONE)
  }

  lemma {:induction false} SynchronisedStep(s: State, step: Step)
    requires Synchronised(s) && Do(s, step).Some?
    ensures Synchronised(Do(s, step).value)
  {
    match step {
      case HttpAdvance(ok) => SynchronisedHttp(s, ok);
      case MainAdvance(ok) => SynchronisedMain(s, ok);
      case _ =>
    }
  }

  lemma SynchronisedHttp(s: State, ok: bool)
    requires Synchronised(s) && HttpDo(s, ok).Some?
    ensures Synchronised(HttpDo(s, ok).value)
  {
  }

  lemma SynchronisedMain(s: State, ok: bool)
    requires Synchronised(s) && MainDo(s, ok).Some?
    ensures Synchronised(MainDo(s, ok).value)
  {
  }

  lemma {:induction false} SynchronisedRun(d: Discipline, s: State, steps: seq<Step>)
    requires Synchronised(s) && Run(d, s, steps).Some?
    ensures Synchronised(Run(d, s, steps).value)
    decreases |steps|
  {
    if steps != [] {
      SynchronisedStep(s, steps[0]);
      SynchronisedRun(d, Do(s, steps[0]).value, steps[1..]);
    }
  }

  /** No lost wakeup: a waiter left blocked has a response still to come, or its signal is the next main step. */
  lemma NoLostWakeup(d: Discipline, s: State)
    requires Reachable(d, s)
    ensures s.http.HBlocked? && !s.signalled ==> s.gOp != NONE || s.main.MSignal?
    ensures !(HttpHolds(s.http) && MainHolds(s.main))
  {
    var steps :| Run(d, INIT, steps) == Some(s);
    SynchronisedRun(d, INIT, steps);
  }

  // ---- At most one request pending: under the header's rule ----

  /** The main thread has nothing to do with any request. */
  predicate MainAside(pc: MainPc) {
    pc.MIdle? || pc.MSignal? || pc.MUnlock?
  }

  predicate Answers(resp: Response, r: Request) {
    resp.serial == r.serial && resp.mid == r.mid
  }

  /** The latest request to start. */
  function Latest(s: State): (r: Request)
    requires s.started != []
  {
    s.started[|s.started| - 1]
  }

  predicate HttpInStep(s: State, r: Request) {
    match s.http
    case HRegLock(q) => q == r && NoneQueued(s) && MainAside(s.main) && s.gOp == NONE
    case HRegMid(q) => q == r && NoneQueued(s) && MainAside(s.main) && s.gOp == NONE
    case HRegOp(q) => q == r && NoneQueued(s) && MainAside(s.main) && s.gOp == NONE && s.gMid == r.mid
    case HRegUnlock(q) => q == r && NoneQueued(s) && MainAside(s.main) && Registered(s, r)
    case HSend(q) => q == r && NoneQueued(s) && MainAside(s.main) && Registered(s, r)
    case _ => true
  }

  predicate MainInStep(s: State, r: Request) {
    match s.main
    case MIdle => true
    case MReadMid(resp) => NoneQueued(s) && Registered(s, r) && Answers(resp, r)
    case MReadOp(resp, mid) => NoneQueued(s) && Registered(s, r) && Answers(resp, r) && mid == r.mid
    case MCheck(resp, mid, op) =>
      NoneQueued(s) && Registered(s, r) && Answers(resp, r) && mid == r.mid && op == r.op
    case MNotify(resp) => NoneQueued(s) && Registered(s, r) && Answers(resp, r)
    case MStatus(resp) => NoneQueued(s) && Registered(s, r) && Answers(resp, r)
    case MBody(resp) => NoneQueued(s) && Registered(s, r) && Answers(resp, r)
    case MLock => NoneQueued(s) && Registered(s, r)
    case MClear => NoneQueued(s) && Registered(s, r)
    case MSignal => true
    case MUnlock => true
    case MRegLock(q, held) => q == r && held.None? && NoneQueued(s) && s.gOp == NONE
    case MRegMid(q, held) => q == r && held.None? && NoneQueued(s) && s.gOp == NONE
    case MRegOp(q, held) => q == r && held.None? && NoneQueued(s) && s.gOp == NONE && s.gMid == r.mid
    case MRegUnlock(q, held) => q == r && held.None? && NoneQueued(s) && Registered(s, r)
    case MSend(q, held) => q == r && held.None? && NoneQueued(s) && Registered(s, r)
    case MExit => false
  }

  predicate Registered(s: State, r: Request) {
    s.gMid == r.mid && s.gOp == r.op
  }

  predicate NoneQueued(s: State) {
    s.toRuntime == [] && s.toBridge == []
  }

  /** Whatever is queued is the latest request, or its response, alone. */
  predicate Queued(s: State, r: Request) {
    && (s.toRuntime != [] ==> s.toRuntime == [r] && s.toBridge == [] && Registered(s, r))
    && (s.toBridge != [] ==> |s.toBridge| == 1 && Answers(s.toBridge[0], r) && s.toRuntime == [] && Registered(s, r))
  }

  /** Everything in flight belongs to the request `r`, and it is in one place only. */
  predicate InStep(s: State, r: Request) {
    r.op != NONE && HttpInStep(s, r) && MainInStep(s, r) && Queued(s, r)
  }

  predicate OneInFlight(s: State) {
    && Synchronised(s)
    && (if s.started == [] then
          NoneQueued(s) && s.gOp == NONE && !HttpRegisters(s.http) && MainAside(s.main)
        else InStep(s, Latest(s)))
  }

  lemma InStepHttp(s: State, r: Request, ok: bool)
    requires Synchronised(s) && InStep(s, r) && HttpDo(s, ok).Some?
    ensures InStep(HttpDo(s, ok).value, r)
  {
    if HttpRegisters(s.http) {
      assert NoneQueued(s) && MainAside(s.main);
    }
  }

  lemma InStepMain(s: State, r: Request, ok: bool)
    requires InStep(s, r) && MainDo(s, ok).Some?
    ensures InStep(MainDo(s, ok).value, r)
  {
    if MainRegisters(s.main) {
      InStepMainRegisters(s, r, ok);
    } else {
      InStepMainHandles(s, r, ok);
    }
  }

  lemma InStepMainRegisters(s: State, r: Request, ok: bool)
    requires MainRegisters(s.main)
    requires InStep(s, r) && MainDo(s, ok).Some?
    ensures InStep(MainDo(s, ok).value, r)
  {
    assert !HttpRegisters(s.http);
  }

  lemma InStepMainHandles(s: State, r: Request, ok: bool)
    requires !MainRegisters(s.main)
    requires InStep(s, r) && MainDo(s, ok).Some?
    ensures InStep(MainDo(s, ok).value, r)
  {
    assert HttpRegisters(s.http) ==> MainAside(s.main) && NoneQueued(s);
  }

  lemma InStepRuntime(s: State, r: Request, status: int, body: Option<string>)
    requires InStep(s, r) && Do(s, RuntimeAnswers(status, body)).Some?
    ensures InStep(Do(s, RuntimeAnswers(status, body)).value, r)
  {
  }

  /** A request that starts when none is pending finds nothing of an earlier one in flight. */
  lemma NonePendingMeansNone(s: State)
    requires OneInFlight(s) && NonePending(s)
    ensures NoneQueued(s) && MainAside(s.main)
  {
  }

  lemma OneInFlightStart(s: State, step: Step)
    requires step.HttpStart? || step.MqttStart?
    requires OneInFlight(s) && NonePending(s) && Do(s, step).Some?
    ensures OneInFlight(Do(s, step).value)
  {
    SynchronisedStep(s, step);
    NonePendingMeansNone(s);
  }

  lemma OneInFlightHttp(s: State, ok: bool)
    requires OneInFlight(s) && HttpDo(s, ok).Some?
    ensures OneInFlight(HttpDo(s, ok).value)
  {
    SynchronisedHttp(s, ok);
    if s.started != [] {
      InStepHttp(s, Latest(s), ok);
    }
  }

  lemma OneInFlightMain(s: State, ok: bool)
    requires OneInFlight(s) && MainDo(s, ok).Some?
    ensures OneInFlight(MainDo(s, ok).value)
  {
    SynchronisedMain(s, ok);
    if s.started != [] {
      InStepMain(s, Latest(s), ok);
    }
  }

  lemma OneInFlightOther(s: State, step: Step)
    requires step.RuntimeAnswers? || step.HttpFailsEarly? || step.SpuriousWakeup? || step.ReadDropsResponse?
    requires OneInFlight(s) && Do(s, step).Some?
    ensures OneInFlight(Do(s, step).value)
  {
    SynchronisedStep(s, step);
    if step.RuntimeAnswers? {
      InStepRuntime(s, Latest(s), step.status, step.body);
    }
  }

  lemma {:induction false} OneInFlightStep(d: Discipline, s: State, step: Step)
    requires Guarded(d) && Allowed(d, s, step)
    requires OneInFlight(s) && Do(s, step).Some?
    ensures OneInFlight(Do(s, step).value)
  {
    match step {
      case HttpAdvance(ok) => OneInFlightHttp(s, ok);
      case MainAdvance(ok) => OneInFlightMain(s, ok);
      case HttpStart(_, _) => OneInFlightStart(s, step);
      case MqttStart(_) => OneInFlightStart(s, step);
      case _ => OneInFlightOther(s, step);
    }
  }

  // ---- Each response is acted on once, for the right op type ----

  /** The latest request may still have its response acted on. */
  predicate Unhandled(s: State) {
    || !NoneQueued(s) || HttpRegisters(s.http) || MainRegisters(s.main)
    || s.main.MReadMid? || s.main.MReadOp? || s.main.MCheck?
  }

  ghost predicate HandledInOrder(handled: seq<Handled>, started: seq<Request>, bound: int) {
    && (forall i, j | 0 <= i < j < |handled| :: handled[i].serial < handled[j].serial)
    && (forall i | 0 <= i < |handled| ::
          handled[i].serial < bound <= |started| && handled[i].op == started[handled[i].serial].op)
  }

  /** In order, without repeats, and for the op type that the answered request registered. */
  ghost predicate HandledRight(s: State) {
    && (forall i | 0 <= i < |s.started| :: s.started[i].serial == i)
    && HandledInOrder(s.handled, s.started, if Unhandled(s) then |s.started| - 1 else |s.started|)
  }

  lemma {:induction false} HandledRightStep(d: Discipline, s: State, step: Step)
    requires Guarded(d) && Allowed(d, s, step)
    requires OneInFlight(s) && HandledRight(s) && Do(s, step).Some?
    ensures HandledRight(Do(s, step).value)
  {
    if step.HttpStart? || step.MqttStart? {
      NonePendingMeansNone(s);
      assert !Unhandled(s);
    } else {
      HandledOrLess(s, step);
    }
  }

  /** A step acts on the latest request's response, for its op type, or on none. */
  predicate HandlesLatestOrNone(s: State, s': State) {
    && s'.started == s.started
    && (|| (s'.handled == s.handled && (Unhandled(s') ==> Unhandled(s)))
        || (&& s.main.MCheck? && Unhandled(s) && !Unhandled(s') && s.started != []
            && s'.handled == s.handled + [Handled(Latest(s).serial, Latest(s).op, s.main.resp.status)]))
  }

  lemma HandledOrLess(s: State, step: Step)
    requires !step.HttpStart? && !step.MqttStart?
    requires OneInFlight(s) && Do(s, step).Some?
    ensures HandlesLatestOrNone(s, Do(s, step).value)
  {
    match step {
      case HttpAdvance(ok) => HandledOrLessHttp(s, ok);
      case MainAdvance(ok) => HandledOrLessMain(s, ok);
      case _ =>
    }
  }

  lemma HandledOrLessHttp(s: State, ok: bool)
    requires OneInFlight(s) && HttpDo(s, ok).Some?
    ensures HandlesLatestOrNone(s, HttpDo(s, ok).value)
  {
  }

  lemma HandledOrLessMain(s: State, ok: bool)
    requires OneInFlight(s) && MainDo(s, ok).Some?
    ensures HandlesLatestOrNone(s, MainDo(s, ok).value)
  {
  }

  // ---- The served client gets its own response: when requests wait for each other ----

  /** The stored response is the runtime's answer to `r`. */
  predicate Stored(s: State, r: Request) {
    && r.serial in s.answers
    && var a := s.answers[r.serial]; a.mid == r.mid && s.lastStatus == a.status && s.lastBody == a.body
  }

  predicate Recorded(s: State, resp: Response) {
    resp.serial in s.answers && s.answers[resp.serial] == resp
  }

  predicate OnItsWay(s: State, r: Request) {
    || s.toRuntime != []
    || (s.toBridge != [] && Recorded(s, s.toBridge[0]))
    || match s.main
       case MReadMid(resp) => Recorded(s, resp)
       case MReadOp(resp, _) => Recorded(s, resp)
       case MCheck(resp, _, _) => Recorded(s, resp)
       case MNotify(resp) => Recorded(s, resp)
       case MStatus(resp) => Recorded(s, resp)
       case MBody(resp) => Recorded(s, resp) && s.lastStatus == resp.status
       case MLock => Stored(s, r)
       case MClear => Stored(s, r)
       case _ => false
  }

  /** The request of a waiting client is the latest, and answered once the op type is NONE; it may be lost before. */
  predicate Awaits(s: State, r: Request) {
    && s.started != [] && r == Latest(s)
    && if s.gOp == NONE then MainAside(s.main) && NoneQueued(s) && Stored(s, r)
       else OnItsWay(s, r) || (NoneQueued(s) && MainAside(s.main))
  }

  predicate ServedRight(s: State) {
    WaitsForOwn(s.http) ==>
      Awaits(s, s.http.job.request) && (s.http.HWaitUnlock? || s.http.HCollect? ==> s.gOp == NONE)
  }

  lemma ServedRightHttp(s: State, ok: bool)
    requires OneInFlight(s) && ServedRight(s) && HttpDo(s, ok).Some?
    ensures ServedRight(HttpDo(s, ok).value)
  {
    var s' := HttpDo(s, ok).value;
    if s.http.HSend? {
      assert s.gOp != NONE && (ok ==> s'.toRuntime != []);
    } else if WaitsForOwn(s'.http) {
      AwaitsHttp(s, ok);
    }
  }

  lemma AwaitsHttp(s: State, ok: bool)
    requires WaitsForOwn(s.http) && !s.http.HCollect? && OneInFlight(s) && HttpDo(s, ok).Some?
    requires Awaits(s, s.http.job.request)
    ensures Awaits(HttpDo(s, ok).value, s.http.job.request)
  {
  }

  lemma ServedRightMain(s: State, ok: bool)
    requires OneInFlight(s) && ServedRight(s) && MainDo(s, ok).Some?
    ensures ServedRight(MainDo(s, ok).value)
  {
    var s' := MainDo(s, ok).value;
    assert s'.http == s.http && s'.started == s.started;
    if WaitsForOwn(s.http) {
      AwaitsMain(s, s.http.job.request, ok);
    }
  }

  lemma AwaitsMain(s: State, r: Request, ok: bool)
    requires OneInFlight(s) && Awaits(s, r) && MainDo(s, ok).Some?
    ensures Awaits(MainDo(s, ok).value, r)
    ensures s.gOp == NONE ==> MainDo(s, ok).value.gOp == NONE
  {
    if s.gOp == NONE {
      assert MainAside(s.main) && NoneQueued(s);
    } else if OnItsWay(s, r) {
      assert !MainRegisters(s.main) && !s.main.MExit?;
      AwaitsResponse(s, r, ok);
    }
  }

  lemma AwaitsResponse(s: State, r: Request, ok: bool)
    requires InStep(s, r) && OnItsWay(s, r) && !MainRegisters(s.main) && s.gOp != NONE && MainDo(s, ok).Some?
    ensures var s' := MainDo(s, ok).value;
            if s'.gOp == NONE then MainAside(s'.main) && NoneQueued(s') && Stored(s', r) else OnItsWay(s', r)
  {
  }

  lemma {:induction false} ServedRightStep(s: State, step: Step)
    requires Allowed(Exclusive, s, step)
    requires OneInFlight(s) && ServedRight(s) && Do(s, step).Some?
    ensures ServedRight(Do(s, step).value)
  {
    match step {
      case HttpAdvance(ok) => ServedRightHttp(s, ok);
      case MainAdvance(ok) => ServedRightMain(s, ok);
      case _ =>
    }
  }

  // ---- Whole runs ----

  /** What every run keeps whose requests start only when none is pending. */
  lemma {:induction false} DisciplinedRun(d: Discipline, s: State, steps: seq<Step>)
    requires Guarded(d) && OneInFlight(s) && HandledRight(s) && Run(d, s, steps).Some?
    ensures var e := Run(d, s, steps).value;
            OneInFlight(e) && HandledRight(e) && (d.Exclusive? && ServedRight(s) ==> ServedRight(e))
    decreases |steps|
  {
    if steps != [] {
      OneInFlightStep(d, s, steps[0]);
      HandledRightStep(d, s, steps[0]);
      if d.Exclusive? && ServedRight(s) {
        ServedRightStep(s, steps[0]);
      }
      DisciplinedRun(d, Do(s, steps[0]).value, steps[1..]);
    }
  }

  lemma ReachableKeeps(d: Discipline, s: State)
    requires Guarded(d) && Reachable(d, s)
    ensures OneInFlight(s) && HandledRight(s) && (d.Exclusive? ==> ServedRight(s))
  {
    var steps :| Run(d, INIT, steps) == Some(s);
    DisciplinedRun(d, INIT, steps);
  }

  /**
   Under the header's rule the main loop never takes its mid-mismatch exit, acts on each
   response once and for the op type its own request registered, and its unlocked reads
   of the mid and the op type never meet a write of them.
   */
  lemma NeverMismatched(d: Discipline, s: State)
    requires Guarded(d) && Reachable(d, s)
    ensures !s.main.MExit?
    ensures forall i, j | 0 <= i < j < |s.handled| :: s.handled[i].serial < s.handled[j].serial
    ensures forall i | 0 <= i < |s.handled| ::
              s.handled[i].serial < |s.started| && s.handled[i].op == s.started[s.handled[i].serial].op
    ensures s.main.MReadMid? || s.main.MReadOp? ==> !s.http.HRegMid? && !s.http.HRegOp?
  {
    ReachableKeeps(d, s);
  }

  /** Under the header's rule the two threads never send, or register, at once. */
  lemma SendsApart(d: Discipline, s: State)
    requires Guarded(d) && Reachable(d, s)
    ensures !(HttpRegisters(s.http) && MainRegisters(s.main))
  {
    ReachableKeeps(d, s);
  }

  /**
   If in addition no MQTT request starts while a client is served, the client whose request
   was sent collects the answer to that very request, and nobody writes it meanwhile.
   */
  lemma ClientGetsOwnResponse(s: State)
    requires Reachable(Exclusive, s) && s.http.HCollect? && s.http.job.sent
    ensures Stored(s, s.http.job.request)
    ensures !s.main.MNotify? && !s.main.MStatus? && !s.main.MBody?
  {
    ReachableKeeps(Exclusive, s);
  }

  ghost predicate NoMqtt(steps: seq<Step>) {
    forall i | 0 <= i < |steps| :: !steps[i].MqttStart?
  }

  /** Alone, the HTTP thread only starts a request when none is pending. */
  predicate HttpAlone(s: State) {
    && !MainRegisters(s.main)
    && (s.http.HIdle? || s.http.HCollect? || s.http.HWaitUnlock? ==> s.gOp == NONE)
  }

  /** Without MQTT requests the code, as it is, keeps the strictest discipline by itself. */
  lemma {:induction false} HttpAloneIsExclusive(s: State, steps: seq<Step>)
    requires HttpAlone(s) && NoMqtt(steps) && Run(Unguarded, s, steps).Some?
    ensures Run(Exclusive, s, steps) == Run(Unguarded, s, steps)
    decreases |steps|
  {
    if steps != [] {
      assert !steps[0].MqttStart?;
      HttpAloneStep(s, steps[0]);
      HttpAloneIsExclusive(Do(s, steps[0]).value, steps[1..]);
    }
  }

  lemma HttpAloneStep(s: State, step: Step)
    requires HttpAlone(s) && !step.MqttStart? && Do(s, step).Some?
    ensures Allowed(Exclusive, s, step) && HttpAlone(Do(s, step).value)
  {
  }

  // ---- The waiter is not set back: when requests wait for each other ----

  /** The pending response has been processed, and its client still waits. */
  predicate Answered(s: State) {
    OneInFlight(s) && ServedRight(s) && WaitsForOwn(s.http) && s.gOp == NONE
  }

  function WaitsLeft(pc: HttpPc): (n: nat) {
    match pc
    case HBlocked(_) => 4
    case HWaitLock(_) => 3
    case HTest(_) => 2
    case HWaitUnlock(_) => 1
    case _ => 0
  }

  /**
   Under the strictest discipline, no step of any thread then sets the waiter back, and each
   of its own, spurious wakeups included, brings it on.
   */
  lemma WaiterNeverSetBack(s: State, step: Step)
    requires Answered(s) && !s.http.HCollect?
    requires Allowed(Exclusive, s, step) && Do(s, step).Some?
    ensures var s' := Do(s, step).value;
            && Answered(s') && s'.http.job == s.http.job
            && WaitsLeft(s'.http) <= WaitsLeft(s.http)
            && (step.HttpAdvance? || step.SpuriousWakeup? ==> WaitsLeft(s'.http) < WaitsLeft(s.http))
  {
    OneInFlightStep(Exclusive, s, step);
    ServedRightStep(s, step);
    if step.MainAdvance? {
      AwaitsMain(s, s.http.job.request, step.sendOk);
    }
  }
}
