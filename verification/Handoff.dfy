/**
 * One restart request in internal hosting mode: the IPC handler that accepts it, the service's main thread,
 * the image that replaces it by exec, and the client that waits (daemon.py, cli.py, lifecycle_receipt.py).
 */
module Handoff {
  datatype Receipt = NoReceipt | Accepted | HandoffWritten | Completed | FailedWritten

  /** The handler thread of the restart request. */
  datatype Handler = Idle | IntentSet | Recorded | Settled

  /** Where the one service process is; the Old places are before exec, the New ones after it. */
  datatype Place =
    | OldServing         // in engine.serve
    | OldDraining        // server.stop and end_hosted_owner
    | OldAbandoning      // the same, after engine.serve raised
    | OldHandoff         // about to write the handoff receipt
    | OldInheriting      // about to make the lock's descriptor inheritable
    | OldExecing
    | OldFailing         // about to write the failed receipt
    | OldClosing         // about to close the lock file
    | OldExiting         // the exception leaves run; handler threads live until the process exits
    | NewBooting         // before ServiceHost.run
    | NewAdopting        // _acquire_authority
    | NewStarting        // IPC server, views, startup report
    | NewCompleting      // about to write the completed receipt
    | NewMarking         // mark_service_ready
    | NewReporting       // readiness_report
    | NewServing
    | NewFailing         // about to write the failed receipt
    | NewClosing         // about to close the lock file
    | NewExiting
    | Dead

  /** The client's polling loop; `handoff` and `completed` are what it read in this round. */
  datatype Client =
    | ReadingFailed
    | ReadingHandoff
    | ReadingCompleted(handoff: bool)
    | CheckingLock(handoff: bool, completed: bool)
    | Rereading
    | CheckingAgain(completed: bool)
    | Pinging(completed: bool)
    | Returned
    | SaysFailed
    | SaysLost
    | SaysNotReady

  /** What may go wrong besides ordinary exceptions of the steps that record them. */
  datatype Faults = Faults(
    drainExpires: bool,    // server.stop gives up before the handler has settled
    raises: bool,          // engine.serve, server.stop or end_hosted_owner raises
    dies: bool,            // the process is killed, or the new image fails before ServiceHost.run
    receiptsFail: bool,    // a receipt cannot be written
    lockReplaced: bool)    // the lock file at its path may be replaced by another

  datatype Service = Service(
    place: Place,
    descriptor: bool,      // the process holds the open, locked lock file
    inheritable: bool,
    adopted: bool,         // the new image has adopted the descriptor
    ready: bool,           // the new image answers ping with ready
    recorded: bool)        // a failed receipt has been written

  datatype State = State(
    faults: Faults,
    handler: Handler,
    service: Service,
    receipt: Receipt,
    replaced: bool,        // the lock file at the path is no longer the locked one
    client: Client,
    deadline: bool)        // the client has set its readiness deadline

  function Initial(faults: Faults): State {
    State(faults, Idle, Service(OldServing, true, false, false, false, false), NoReceipt, false, ReadingFailed, false)
  }

  datatype HandlerStep = SetIntent | Record(written: bool) | Settle

  datatype ServiceStep =
    | ServeReturns(raised: bool)
    | DrainEnds(raised: bool)
    | AbandonEnds(raised: bool)
    | WriteHandoff(written: bool)
    | Inherit(done: bool)
    | Exec(done: bool)
    | RecordFailure(written: bool)
    | CloseLock
    | Exit
    | Boot
    | Adopt
    | RefuseAuthority(written: bool)   // wrong key, or a descriptor that is no open file
    | RefuseInode                      // the descriptor is not the lock file at the path
    | Start(done: bool)
    | Complete(written: bool)
    | MarkReady(done: bool)
    | Report(done: bool)
    | Die

  datatype ClientStep = ReadReceipt | LookAtLock | Ping | PingFails | TimeOut

  datatype Step = Handle(handle: HandlerStep) | Serve(serve: ServiceStep) | Wait(wait: ClientStep) | ReplaceLock

  predicate IsOld(place: Place) {
    place.OldServing? || place.OldDraining? || place.OldHandoff? || place.OldInheriting? || place.OldExecing?
    || place.OldFailing? || place.OldAbandoning? || place.OldClosing? || place.OldExiting?
  }

  /** `daemon_authority_present`: the file at the lock path is locked. */
  predicate AuthorityPresent(s: State) {
    s.service.descriptor && !s.replaced
  }

  predicate HandlerEnabled(s: State, step: HandlerStep) {
    && IsOld(s.service.place)
    && match step
       case SetIntent => s.handler.Idle? && s.service.place.OldServing?
       case Record(written) => s.handler.IntentSet? && (!written ==> s.faults.receiptsFail)
       case Settle => s.handler.Recorded?
  }

  predicate ServiceEnabled(s: State, step: ServiceStep) {
    match step
    case ServeReturns(raised) => s.service.place.OldServing? && !s.handler.Idle? && (raised ==> s.faults.raises)
    case DrainEnds(raised) =>
      s.service.place.OldDraining? && (raised ==> s.faults.raises)
      && (s.handler.Settled? || raised || s.faults.drainExpires)
    case AbandonEnds(raised) =>
      s.service.place.OldAbandoning? && (s.handler.Settled? || raised || s.faults.drainExpires)
    case WriteHandoff(written) => s.service.place.OldHandoff? && (!written ==> s.faults.receiptsFail)
    case Inherit(_) => s.service.place.OldInheriting?
    case Exec(_) => s.service.place.OldExecing?
    case RecordFailure(written) =>
      (s.service.place.OldFailing? || s.service.place.NewFailing?) && (!written ==> s.faults.receiptsFail)
    case CloseLock => s.service.place.OldClosing? || s.service.place.NewClosing?
    case Exit => s.service.place.OldExiting? || s.service.place.NewExiting?
    case Boot => s.service.place.NewBooting?
    case Adopt => s.service.place.NewAdopting? && s.service.descriptor && !s.replaced
    case RefuseAuthority(written) => s.service.place.NewAdopting? && (!written ==> s.faults.receiptsFail)
    case RefuseInode => s.service.place.NewAdopting? && s.service.descriptor && s.replaced
    case Start(_) => s.service.place.NewStarting?
    case Complete(written) => s.service.place.NewCompleting? && (!written ==> s.faults.receiptsFail)
    case MarkReady(_) => s.service.place.NewMarking?
    case Report(_) => s.service.place.NewReporting?
    case Die => s.faults.dies && !s.service.place.Dead?
  }

  predicate ClientEnabled(s: State, step: ClientStep) {
    match step
    case ReadReceipt => s.client.ReadingFailed? || s.client.ReadingHandoff?
      || s.client.ReadingCompleted? || s.client.Rereading?
    case LookAtLock => s.client.CheckingLock? || s.client.CheckingAgain?
    case Ping => s.client.Pinging? && !s.service.place.Dead?
    case PingFails => s.client.Pinging?
    case TimeOut => s.client.Pinging? && s.deadline
  }

  predicate Enabled(s: State, step: Step) {
    match step
    case Handle(handle) => HandlerEnabled(s, handle)
    case Serve(serve) => ServiceEnabled(s, serve)
    case Wait(wait) => ClientEnabled(s, wait)
    case ReplaceLock => s.faults.lockReplaced && !s.replaced
  }

  /** The handler's next place, and the receipt. */
  function Handled(receipt: Receipt, step: HandlerStep): (Handler, Receipt) {
    match step
    case SetIntent => (IntentSet, receipt)
    case Record(written) => (Recorded, if written then Accepted else receipt)
    case Settle => (Settled, receipt)
  }

  /** Where the service goes on. */
  function NextPlace(place: Place, step: ServiceStep): Place {
    match step
    case ServeReturns(raised) => if raised then OldAbandoning else OldDraining
    case DrainEnds(raised) => if raised then OldExiting else OldHandoff
    case AbandonEnds(raised) => if raised then OldExiting else OldClosing
    case WriteHandoff(written) => if written then OldInheriting else OldFailing
    case Inherit(done) => if done then OldExecing else OldFailing
    case Exec(done) => if done then NewBooting else OldFailing
    case RecordFailure(written) =>
      // In the old image a write that raises skips the close; in the new one the finally clause closes.
      if !IsOld(place) then NewClosing else if written then OldClosing else OldExiting
    case CloseLock => if IsOld(place) then OldExiting else NewExiting
    case Exit | Die => Dead
    case Boot => NewAdopting
    case Adopt => NewStarting
    case RefuseAuthority(_) | RefuseInode => NewExiting
    case Start(done) => if done then NewCompleting else NewFailing
    case Complete(written) => if written then NewMarking else NewFailing
    case MarkReady(done) => if done then NewReporting else NewFailing
    case Report(done) => if done then NewServing else NewFailing
  }

  /** Exec keeps the descriptor only when it is inheritable; closing it or exiting gives the lock up. */
  function KeepsLock(v: Service, step: ServiceStep): bool {
    match step
    case Exec(done) => v.descriptor && (v.inheritable || !done)
    case CloseLock | Exit | Die => false
    case _ => v.descriptor
  }

  /** The service's next state. */
  function Served(v: Service, step: ServiceStep): Service {
    Service(
      NextPlace(v.place, step),
      KeepsLock(v, step),
      if step.Adopt? then false else v.inheritable || step == Inherit(true),
      v.adopted || step.Adopt?,
      v.ready || step == MarkReady(true),
      v.recorded || step == RecordFailure(true) || step == RefuseAuthority(true))
  }

  /** The receipt after a step of the service: the old one, unless the step writes one. */
  function ReceiptAfter(receipt: Receipt, step: ServiceStep): Receipt {
    match step
    case WriteHandoff(written) => if written then HandoffWritten else receipt
    case Complete(written) => if written then Completed else receipt
    case RecordFailure(written) => if written then FailedWritten else receipt
    case RefuseAuthority(written) => if written then FailedWritten else receipt
    case _ => receipt
  }

  /** The client's next place. */
  function Waited(s: State, step: ClientStep): Client {
    match step
    case ReadReceipt =>
      (match s.client
       case ReadingFailed => if s.receipt.FailedWritten? then SaysFailed else ReadingHandoff
       case ReadingHandoff => ReadingCompleted(s.receipt.HandoffWritten?)
       case ReadingCompleted(handoff) => CheckingLock(handoff, s.receipt.Completed?)
       case _ => if s.receipt.FailedWritten? then SaysFailed else SaysLost)
    case LookAtLock =>
      (match s.client
       case CheckingLock(handoff, completed) =>
         if handoff || completed || AuthorityPresent(s) then CheckingAgain(completed) else Rereading
       case CheckingAgain(completed) => if AuthorityPresent(s) then Pinging(completed) else SaysLost
       case _ => s.client)
    case Ping =>
      // An old image answers with its own instance; the new one is the replacement named in the receipt.
      if !IsOld(s.service.place) && s.service.ready && s.client.Pinging? && s.client.completed then Returned
      else ReadingFailed
    case PingFails => ReadingFailed
    case TimeOut => SaysNotReady
  }

  /** The client sets its deadline in the first round that sees a handoff or completed receipt. */
  predicate DeadlineSet(s: State, step: ClientStep) {
    s.deadline || (step.ReadReceipt? && s.client.ReadingCompleted? && (s.client.handoff || s.receipt.Completed?))
  }

  function Apply(s: State, step: Step): State {
    match step
    case Handle(handle) =>
      var (handler, receipt) := Handled(s.receipt, handle);
      s.(handler := handler, receipt := receipt)
    case Serve(serve) => s.(service := Served(s.service, serve), receipt := ReceiptAfter(s.receipt, serve))
    case Wait(wait) => s.(client := Waited(s, wait), deadline := DeadlineSet(s, wait))
    case ReplaceLock => s.(replaced := true)
  }

  predicate IsRun(s: State, steps: seq<Step>)
    decreases |steps|
  {
    steps == [] || (Enabled(s, steps[0]) && IsRun(Apply(s, steps[0]), steps[1..]))
  }

  function Run(s: State, steps: seq<Step>): State
    decreases |steps|
  {
    if steps == [] then s else Run(Apply(s, steps[0]), steps[1..])
  }

  // ----- the invariant -----

  function Rank(receipt: Receipt): nat {
    match receipt
    case NoReceipt => 0
    case Accepted => 1
    case HandoffWritten => 2
    case Completed => 3
    case FailedWritten => 4
  }

  /** Places before the handoff receipt is written. */
  predicate Early(place: Place) {
    place.OldServing? || place.OldDraining? || place.OldAbandoning? || place.OldHandoff?
  }

  /** Places after the completed receipt is written. */
  predicate Late(place: Place) {
    place.NewMarking? || place.NewReporting? || place.NewServing? || place.NewFailing?
  }

  /** The receipt is no further than the place allows. */
  predicate InStep(receipt: Receipt, place: Place) {
    match receipt
    case NoReceipt | Accepted => true
    case HandoffWritten => !Early(place)
    case Completed => Late(place) || Failing(place)
    case FailedWritten => Failing(place)
  }

  predicate Adopted(place: Place) {
    place.NewStarting? || place.NewCompleting? || place.NewMarking? || place.NewReporting? || place.NewServing?
    || place.NewFailing? || place.NewClosing?
  }

  /** The faults under which the service can give up the lock without ever having recorded the failure. */
  predicate Unrecorded(faults: Faults) {
    faults.raises || faults.dies || faults.receiptsFail || faults.lockReplaced
  }

  predicate HoldsLock(place: Place) {
    !place.OldExiting? && !place.NewExiting? && !place.Dead?
  }

  predicate LockInv(s: State) {
    && (HoldsLock(s.service.place) ==> s.service.descriptor)
    && (s.service.place.Dead? ==> !s.service.descriptor)
    && (s.service.place.OldExecing? ==> s.service.inheritable)
    && (Adopted(s.service.place) ==> s.service.adopted)
    && (s.service.ready ==> s.service.adopted)
    && (s.replaced ==> s.faults.lockReplaced)
  }

  /** Places from which a failed receipt, once written, is still to come or already there. */
  predicate Failing(place: Place) {
    place.OldClosing? || place.OldExiting? || place.NewClosing? || place.NewExiting? || place.Dead?
  }

  /** Past the drain only a handler it gave up on can still write, before that the receipt is at most accepted. */
  predicate DrainInv(s: State) {
    && (!IsOld(s.service.place) || s.service.place.OldServing? || s.service.place.OldDraining?
        || s.service.place.OldAbandoning? || s.service.place.OldExiting? || s.handler.Settled? || s.faults.drainExpires)
    && (IsOld(s.service.place) && Rank(s.receipt) > 1 ==> s.handler.Settled? || s.faults.drainExpires)
  }

  /** A ready replacement has written the completed receipt. */
  predicate ReadyInv(s: State) {
    && (s.service.ready ==> !IsOld(s.service.place))
    && (s.service.ready ==> s.receipt.Completed? || s.receipt.FailedWritten?)
    && (s.service.place.NewMarking? || s.service.place.NewReporting? || s.service.place.NewServing?
        ==> s.receipt.Completed?)
  }

  /** Once failing, the service has recorded the failure, or one of the faults kept it from that. */
  predicate FailureInv(s: State) {
    && (s.receipt.FailedWritten? ==> s.service.recorded)
    && (s.service.recorded ==> Failing(s.service.place))
    && (s.service.recorded ==> s.receipt.FailedWritten? || s.faults.drainExpires)
    && (Failing(s.service.place) ==> s.service.recorded || Unrecorded(s.faults))
    && (s.service.place.OldAbandoning? ==> s.faults.raises)
  }

  predicate ReceiptInv(s: State) {
    InStep(s.receipt, s.service.place) && DrainInv(s) && ReadyInv(s) && FailureInv(s)
  }

  predicate ClientInv(s: State) {
    && (s.client.Returned? ==> s.service.ready && s.service.adopted)
    && (s.client.SaysFailed? ==> s.service.recorded)
    && (s.client.SaysLost? || s.client.Rereading? ==>
          !AuthorityPresent(s) && (s.service.recorded || Unrecorded(s.faults)))
  }

  predicate Inv(s: State) {
    LockInv(s) && ReceiptInv(s) && ClientInv(s)
  }

  lemma HandlerKeepsInv(s: State, step: HandlerStep)
    requires Inv(s) && HandlerEnabled(s, step)
    ensures Inv(Apply(s, Handle(step)))
  {
  }

  lemma ServiceKeepsLock(s: State, step: ServiceStep)
    requires LockInv(s) && ServiceEnabled(s, step)
    ensures LockInv(Apply(s, Serve(step)))
  {
    hide ReceiptAfter;
  }

  lemma ServiceKeepsStep(s: State, step: ServiceStep)
    requires InStep(s.receipt, s.service.place) && ServiceEnabled(s, step)
    ensures InStep(ReceiptAfter(s.receipt, step), NextPlace(s.service.place, step))
  {
    hide Unrecorded;
  }

  lemma ServiceKeepsDrain(s: State, step: ServiceStep)
    requires DrainInv(s) && ServiceEnabled(s, step)
    ensures DrainInv(Apply(s, Serve(step)))
  {
    hide Unrecorded;
  }

  lemma ServiceKeepsReady(s: State, step: ServiceStep)
    requires ReadyInv(s) && ServiceEnabled(s, step)
    ensures ReadyInv(Apply(s, Serve(step)))
  {
    hide Unrecorded;
  }

  lemma ServiceKeepsFailure(s: State, step: ServiceStep)
    requires LockInv(s) && FailureInv(s) && ServiceEnabled(s, step)
    ensures FailureInv(Apply(s, Serve(step)))
  {
  }

  lemma ServiceKeepsReceipt(s: State, step: ServiceStep)
    requires LockInv(s) && ReceiptInv(s) && ServiceEnabled(s, step)
    ensures ReceiptInv(Apply(s, Serve(step)))
  {
    hide InStep, DrainInv, ReadyInv, FailureInv, ReceiptAfter, NextPlace, ServiceEnabled;
    ServiceKeepsStep(s, step);
    ServiceKeepsDrain(s, step);
    ServiceKeepsReady(s, step);
    ServiceKeepsFailure(s, step);
  }

  lemma ServiceKeepsClient(s: State, step: ServiceStep)
    requires LockInv(s) && ReceiptInv(s) && ClientInv(s) && ServiceEnabled(s, step)
    ensures ClientInv(Apply(s, Serve(step)))
  {
  }

  lemma ClientKeepsInv(s: State, step: ClientStep)
    requires Inv(s) && ClientEnabled(s, step)
    ensures Inv(Apply(s, Wait(step)))
  {
    hide Rank, InStep;
  }

  lemma StepKeepsInv(s: State, step: Step)
    requires Inv(s) && Enabled(s, step)
    ensures Inv(Apply(s, step)) && Apply(s, step).faults == s.faults
  {
    hide LockInv, ReceiptInv, ClientInv, HandlerEnabled, ServiceEnabled, ClientEnabled;
    match step {
      case Handle(handle) => HandlerKeepsInv(s, handle);
      case Serve(serve) =>
        ServiceKeepsLock(s, serve);
        ServiceKeepsReceipt(s, serve);
        ServiceKeepsClient(s, serve);
      case Wait(wait) => ClientKeepsInv(s, wait);
      case ReplaceLock => ReplacementKeepsInv(s);
    }
  }

  lemma ReplacementKeepsInv(s: State)
    requires Inv(s) && s.faults.lockReplaced
    ensures Inv(s.(replaced := true))
  {
  }

  /** The states that some run reaches. */
  ghost predicate Reachable(faults: Faults, s: State) {
    exists steps :: IsRun(Initial(faults), steps) && Run(Initial(faults), steps) == s
  }

  lemma {:induction false} RunKeepsInv(s: State, steps: seq<Step>)
    requires Inv(s) && IsRun(s, steps)
    ensures Inv(Run(s, steps)) && Run(s, steps).faults == s.faults
    decreases |steps|
  {
    hide Inv, Enabled, Apply;
    if steps != [] {
      StepKeepsInv(s, steps[0]);
      RunKeepsInv(Apply(s, steps[0]), steps[1..]);
    }
  }

  lemma ReachableInv(faults: Faults, s: State)
    requires Reachable(faults, s)
    ensures Inv(s) && s.faults == faults
  {
    hide IsRun, Run;
    var steps :| IsRun(Initial(faults), steps) && Run(Initial(faults), steps) == s;
    RunKeepsInv(Initial(faults), steps);
  }

  lemma {:induction false} OneMore(s: State, steps: seq<Step>, step: Step)
    requires IsRun(s, steps) && Enabled(Run(s, steps), step)
    ensures IsRun(s, steps + [step]) && Run(s, steps + [step]) == Apply(Run(s, steps), step)
    decreases |steps|
  {
    hide Enabled, Apply;
    if steps == [] {
      assert [] + [step] == [step] && [step][1..] == [];
      NoSteps(s);
      NoSteps(Apply(s, step));
    } else {
      assert (steps + [step])[0] == steps[0] && (steps + [step])[1..] == steps[1..] + [step];
      OneMore(Apply(s, steps[0]), steps[1..], step);
    }
  }

  lemma NoSteps(s: State)
    ensures IsRun(s, []) && Run(s, []) == s
  {
  }

  lemma Reached(faults: Faults, s: State, step: Step) returns (t: State)
    requires Reachable(faults, s) && Enabled(s, step)
    ensures t == Apply(s, step) && Reachable(faults, t)
  {
    hide IsRun, Run, Enabled, Apply;
    var steps :| IsRun(Initial(faults), steps) && Run(Initial(faults), steps) == s;
    OneMore(Initial(faults), steps, step);
    t := Apply(s, step);
  }

  // ----- the lock -----

  /** In every run the lock file stays open and locked, across exec, until it is closed on the way out. */
  lemma LockHeldUntilExit(faults: Faults, s: State)
    requires Reachable(faults, s)
    ensures HoldsLock(s.service.place) ==> s.service.descriptor
    ensures s.service.ready && !s.service.descriptor ==> s.service.place.NewExiting? || s.service.place.Dead?
  {
    hide Reachable;
    ReachableInv(faults, s);
  }

  /** Whether the lock is only ever given up after the failure has been recorded. */
  ghost predicate ReleasesRecorded(faults: Faults) {
    forall s :: Reachable(faults, s) && !s.service.descriptor ==> s.service.recorded
  }

  /** Whether the failed receipt is still there whenever the service is gone. */
  ghost predicate EndsRecorded(faults: Faults) {
    forall s :: Reachable(faults, s) && s.service.place.Dead? ==> s.receipt.FailedWritten?
  }

  /**
   * The service gives up the lock only after recording the failure, exactly when no teardown raises, nothing
   * kills it, receipts can be written and the lock file stays in place.
   */
  lemma ReleasesRecordedExactly(faults: Faults)
    ensures ReleasesRecorded(faults) <==> !Unrecorded(faults)
  {
    hide Reachable;
    if Unrecorded(faults) {
      var s := NeverRecorded(faults);
    } else {
      forall s | Reachable(faults, s) && !s.service.descriptor
        ensures s.service.recorded
      {
        ReachableInv(faults, s);
      }
    }
  }

  /**
   * The failed receipt outlives the service exactly when, besides that, the drain waits for the request's
   * handler: a handler it gave up on may still write "accepted" over "failed" before the process exits.
   */
  lemma EndsRecordedExactly(faults: Faults)
    ensures EndsRecorded(faults) <==> !Unrecorded(faults) && !faults.drainExpires
  {
    hide Reachable;
    if Unrecorded(faults) {
      var s := NeverRecorded(faults);
    } else if faults.drainExpires {
      var s := Overwritten(faults);
    } else {
      forall s | Reachable(faults, s) && s.service.place.Dead?
        ensures s.receipt.FailedWritten?
      {
        ReachableInv(faults, s);
      }
    }
  }

  // ----- the receipt -----

  /** Whether no step of any run takes the receipt backward. */
  ghost predicate NeverBackward(faults: Faults) {
    forall s, step :: Reachable(faults, s) && Enabled(s, step) ==> Rank(s.receipt) <= Rank(Apply(s, step).receipt)
  }

  lemma StepKeepsOrder(s: State, step: Step)
    requires ReceiptInv(s) && Enabled(s, step) && !s.faults.drainExpires
    ensures Rank(s.receipt) <= Rank(Apply(s, step).receipt)
  {
    hide Waited, ClientEnabled, Served;
  }

  /** The receipt never moves backward exactly when the IPC drain waits for the request's handler. */
  lemma NeverBackwardExactly(faults: Faults)
    ensures NeverBackward(faults) <==> !faults.drainExpires
  {
    hide Reachable, Apply, Enabled;
    if faults.drainExpires {
      var s := HandoffBeforeAcceptance(faults);
    } else {
      forall s, step | Reachable(faults, s) && Enabled(s, step)
        ensures Rank(s.receipt) <= Rank(Apply(s, step).receipt)
      {
        ReachableInv(faults, s);
        StepKeepsOrder(s, step);
      }
    }
  }

  // ----- the client -----

  /**
   * A client that returns has seen a ready replacement that adopted the lock; one that says the restart
   * failed has seen the failed receipt; one that says the lock was lost has seen it given up, or its file
   * replaced, and nobody ever takes it back.
   */
  lemma ClientIsRight(faults: Faults, s: State)
    requires Reachable(faults, s)
    ensures s.client.Returned? ==>
              s.service.ready && s.service.adopted && (s.receipt.Completed? || s.receipt.FailedWritten?)
    ensures s.client.SaysFailed? ==> s.service.recorded
    ensures s.client.SaysFailed? && !faults.drainExpires ==> s.receipt.FailedWritten?
    ensures s.client.SaysLost? ==> !AuthorityPresent(s)
    ensures s.client.SaysLost? && !Unrecorded(faults) ==> s.service.recorded
  {
    hide Reachable;
    ReachableInv(faults, s);
  }

  // ----- runs that show the faults matter -----

  lemma AtStart(faults: Faults) returns (s: State)
    ensures s == Initial(faults) && Reachable(faults, s)
    ensures s == State(faults, Idle, Service(OldServing, true, false, false, false, false), NoReceipt, false,
                       ReadingFailed, false)
  {
    NoSteps(Initial(faults));
    s := Initial(faults);
  }

  lemma Killed(faults: Faults) returns (s: State)
    requires faults.dies
    ensures Reachable(faults, s) && s.service.place.Dead? && !s.service.recorded && !s.receipt.FailedWritten?
  {
    hide Reachable;
    s := AtStart(faults);
    s := Reached(faults, s, Serve(Die));
  }

  lemma ServeRaised(faults: Faults) returns (s: State)
    requires faults.raises
    ensures Reachable(faults, s) && s.service.place.Dead? && !s.service.recorded && !s.receipt.FailedWritten?
  {
    hide Reachable;
    s := AtStart(faults);
    s := Reached(faults, s, Handle(SetIntent));
    s := Reached(faults, s, Serve(ServeReturns(true)));
    s := Reached(faults, s, Serve(AbandonEnds(true)));
    s := Reached(faults, s, Serve(Exit));
  }

  /** The request is accepted and the service has drained: the next step writes the handoff receipt. */
  lemma Drained(faults: Faults) returns (s: State)
    ensures Reachable(faults, s) && s == Initial(faults).(
              handler := Settled, receipt := Accepted, service := Service(OldHandoff, true, false, false, false, false))
  {
    hide Reachable;
    s := AtStart(faults);
    s := Reached(faults, s, Handle(SetIntent));
    s := Reached(faults, s, Handle(Record(true)));
    s := Reached(faults, s, Handle(Settle));
    s := Reached(faults, s, Serve(ServeReturns(false)));
    s := Reached(faults, s, Serve(DrainEnds(false)));
  }

  lemma ReceiptsLost(faults: Faults) returns (s: State)
    requires faults.receiptsFail
    ensures Reachable(faults, s) && s.service.place.Dead? && !s.service.recorded && !s.receipt.FailedWritten?
  {
    hide Reachable;
    s := Drained(faults);
    s := Reached(faults, s, Serve(WriteHandoff(false)));
    s := Reached(faults, s, Serve(RecordFailure(false)));
    s := Reached(faults, s, Serve(Exit));
  }

  /** The handoff receipt is written and the lock's descriptor is inheritable. */
  lemma Inherited(faults: Faults) returns (s: State)
    ensures Reachable(faults, s) && s == Initial(faults).(
              handler := Settled, receipt := HandoffWritten,
              service := Service(OldExecing, true, true, false, false, false))
  {
    hide Reachable;
    s := Drained(faults);
    s := Reached(faults, s, Serve(WriteHandoff(true)));
    s := Reached(faults, s, Serve(Inherit(true)));
  }

  /** The new image runs, holding the descriptor it inherited. */
  lemma Booted(faults: Faults) returns (s: State)
    ensures Reachable(faults, s) && s == Initial(faults).(
              handler := Settled, receipt := HandoffWritten,
              service := Service(NewAdopting, true, true, false, false, false))
  {
    hide Reachable;
    s := Inherited(faults);
    s := Reached(faults, s, Serve(Exec(true)));
    s := Reached(faults, s, Serve(Boot));
  }

  /** A replaced lock file: `_acquire_authority` raises past the clause that writes the failed receipt. */
  lemma InodeRefused(faults: Faults) returns (s: State)
    requires faults.lockReplaced
    ensures Reachable(faults, s) && s.service.place.Dead? && !s.service.recorded && s.receipt.HandoffWritten?
  {
    hide Reachable;
    s := Booted(faults);
    s := Reached(faults, s, ReplaceLock);
    s := Reached(faults, s, Serve(RefuseInode));
    s := Reached(faults, s, Serve(Exit));
  }

  /** Each of these faults by itself lets the service end with no failure ever recorded. */
  lemma NeverRecorded(faults: Faults) returns (s: State)
    requires Unrecorded(faults)
    ensures Reachable(faults, s) && s.service.place.Dead? && !s.service.recorded && !s.receipt.FailedWritten?
    ensures !s.service.descriptor
  {
    hide Reachable;
    if faults.dies {
      s := Killed(faults);
    } else if faults.raises {
      s := ServeRaised(faults);
    } else if faults.receiptsFail {
      s := ReceiptsLost(faults);
    } else {
      s := InodeRefused(faults);
    }
    ReachableInv(faults, s);
  }

  /** The drain has given up on a handler that has yet to write its accepted receipt. */
  lemma GivenUp(faults: Faults) returns (s: State)
    requires faults.drainExpires
    ensures Reachable(faults, s) && s == Initial(faults).(
              handler := IntentSet, service := Service(OldHandoff, true, false, false, false, false))
  {
    hide Reachable;
    s := AtStart(faults);
    s := Reached(faults, s, Handle(SetIntent));
    s := Reached(faults, s, Serve(ServeReturns(false)));
    s := Reached(faults, s, Serve(DrainEnds(false)));
  }

  /** The late accepted receipt then overwrites the handoff receipt. */
  lemma HandoffBeforeAcceptance(faults: Faults) returns (s: State)
    requires faults.drainExpires
    ensures Reachable(faults, s) && Enabled(s, Handle(Record(true)))
            && Rank(Apply(s, Handle(Record(true))).receipt) < Rank(s.receipt)
  {
    hide Reachable;
    s := GivenUp(faults);
    s := Reached(faults, s, Serve(WriteHandoff(true)));
  }

  /** The hand-off failed and its failed receipt is written, with the abandoned handler still alive. */
  lemma FailedWithHandler(faults: Faults) returns (s: State)
    requires faults.drainExpires
    ensures Reachable(faults, s)
    ensures s == Initial(faults).(
              handler := IntentSet, receipt := FailedWritten,
              service := Service(OldClosing, true, false, false, false, true))
  {
    hide Reachable;
    s := GivenUp(faults);
    s := Reached(faults, s, Serve(WriteHandoff(true)));
    s := Reached(faults, s, Serve(Inherit(false)));
    s := Reached(faults, s, Serve(RecordFailure(true)));
  }

  /** The failed receipt is overwritten before the process exits. */
  lemma Overwritten(faults: Faults) returns (s: State)
    requires faults.drainExpires
    ensures Reachable(faults, s) && s.service.place.Dead? && s.service.recorded && s.receipt.Accepted?
  {
    hide Reachable;
    s := FailedWithHandler(faults);
    s := Reached(faults, s, Handle(Record(true)));
    s := Reached(faults, s, Serve(CloseLock));
    s := Reached(faults, s, Serve(Exit));
  }

  /** Nothing needs to go wrong: the replacement adopts the lock. */
  lemma ReplacementAdopts(faults: Faults) returns (s: State)
    ensures Reachable(faults, s) && s == Initial(faults).(
              handler := Settled, receipt := HandoffWritten,
              service := Service(NewStarting, true, false, true, false, false))
  {
    hide Reachable;
    s := Booted(faults);
    s := Reached(faults, s, Serve(Adopt));
  }

  lemma ReplacementStarts(faults: Faults) returns (s: State)
    ensures Reachable(faults, s) && s == Initial(faults).(
              handler := Settled, receipt := Completed, service := Service(NewMarking, true, false, true, false, false))
  {
    hide Reachable;
    s := ReplacementAdopts(faults);
    s := Reached(faults, s, Serve(ServiceStep.Start(true)));
    s := Reached(faults, s, Serve(Complete(true)));
  }

  /** It gets to serve, holding the lock. */
  lemma ReplacementServes(faults: Faults) returns (s: State)
    ensures Reachable(faults, s) && s == Initial(faults).(
              handler := Settled, receipt := Completed, service := Service(NewServing, true, false, true, true, false))
  {
    hide Reachable;
    s := ReplacementStarts(faults);
    s := Reached(faults, s, Serve(MarkReady(true)));
    s := Reached(faults, s, Serve(Report(true)));
  }

  lemma ClientSeesCompletion(faults: Faults) returns (s: State)
    ensures Reachable(faults, s) && s == Initial(faults).(
              handler := Settled, receipt := Completed, service := Service(NewServing, true, false, true, true, false),
              client := CheckingLock(false, true), deadline := true)
  {
    hide Reachable;
    s := ReplacementServes(faults);
    s := Reached(faults, s, Wait(ReadReceipt));
    s := Reached(faults, s, Wait(ReadReceipt));
    s := Reached(faults, s, Wait(ReadReceipt));
  }

  /** And from there one round of the client's loop returns. */
  lemma ClientReturns(faults: Faults) returns (s: State)
    ensures Reachable(faults, s) && s.client.Returned?
  {
    hide Reachable;
    s := ClientSeesCompletion(faults);
    s := Reached(faults, s, Wait(LookAtLock));
    s := Reached(faults, s, Wait(LookAtLock));
    s := Reached(faults, s, Wait(Ping));
  }
}
