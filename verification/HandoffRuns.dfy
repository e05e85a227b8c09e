/** Where a hand-off leads: what every step of the service comes closer to, and a run to each of the ends. */
module HandoffRuns {
  import opened Handoff

  // ----- progress -----

  /** How far the service is from its end; serving is where a replacement stays. */
  function Distance(place: Place): nat {
    match place
    case OldServing => 17
    case OldDraining => 16
    case OldAbandoning => 16
    case OldHandoff => 15
    case OldInheriting => 14
    case OldExecing => 13
    case NewBooting => 12
    case NewAdopting => 11
    case NewStarting => 10
    case NewCompleting => 9
    case NewMarking => 8
    case NewReporting => 7
    case NewServing => 4
    case OldFailing => 6
    case NewFailing => 3
    case OldClosing => 5
    case NewClosing => 2
    case OldExiting => 1
    case NewExiting => 1
    case Dead => 0
  }

  /** Every step of the service brings it closer to its end. */
  lemma ServiceEnds(s: State, step: ServiceStep)
    requires ServiceEnabled(s, step)
    ensures Distance(NextPlace(s.service.place, step)) < Distance(s.service.place)
  {
  }

  predicate AwaitsHandler(place: Place) {
    place.OldDraining? || place.OldAbandoning?
  }

  /**
   * Once a restart is requested the service is never stuck: until it serves again or is dead it can take a step
   * by itself, or it waits for the request's handler, which can.
   */
  lemma ServiceGoesOn(faults: Faults, s: State)
    requires Reachable(faults, s) && !s.handler.Idle? && !s.service.place.NewServing? && !s.service.place.Dead?
    ensures || (exists step :: ServiceEnabled(s, step))
            || (AwaitsHandler(s.service.place) && exists step :: HandlerEnabled(s, step))
  {
    hide Reachable;
    ReachableInv(faults, s);
    hide Inv;
    GoesOn(s);
  }

  lemma GoesOn(s: State)
    requires !s.handler.Idle? && !s.service.place.NewServing? && !s.service.place.Dead?
    requires s.service.place.NewAdopting? ==> s.service.descriptor
    ensures || (exists step :: ServiceEnabled(s, step))
            || (AwaitsHandler(s.service.place) && exists step :: HandlerEnabled(s, step))
  {
    match s.service.place {
      case OldServing => assert ServiceEnabled(s, ServeReturns(false));
      case OldDraining =>
        if s.handler.Settled? { assert ServiceEnabled(s, DrainEnds(false)); } else { HandlerGoesOn(s); }
      case OldAbandoning =>
        if s.handler.Settled? { assert ServiceEnabled(s, AbandonEnds(false)); } else { HandlerGoesOn(s); }
      case OldHandoff => assert ServiceEnabled(s, WriteHandoff(true));
      case OldInheriting => assert ServiceEnabled(s, Inherit(true));
      case OldExecing => assert ServiceEnabled(s, ServiceStep.Exec(true));
      case OldFailing | NewFailing => assert ServiceEnabled(s, RecordFailure(true));
      case OldClosing | NewClosing => assert ServiceEnabled(s, CloseLock);
      case OldExiting | NewExiting => assert ServiceEnabled(s, Exit);
      case NewBooting => assert ServiceEnabled(s, Boot);
      case NewAdopting => assert ServiceEnabled(s, RefuseAuthority(true));
      case NewStarting => assert ServiceEnabled(s, ServiceStep.Start(true));
      case NewCompleting => assert ServiceEnabled(s, Complete(true));
      case NewMarking => assert ServiceEnabled(s, MarkReady(true));
      case NewReporting => assert ServiceEnabled(s, Report(true));
    }
  }

  lemma HandlerGoesOn(s: State)
    requires IsOld(s.service.place) && !s.handler.Idle? && !s.handler.Settled?
    ensures exists step :: HandlerEnabled(s, step)
  {
    if s.handler.IntentSet? { assert HandlerEnabled(s, Record(true)); } else { assert HandlerEnabled(s, Settle); }
  }

  /** The client always has something to do until it answers. */
  lemma ClientGoesOn(s: State)
    requires !s.client.Returned? && !s.client.SaysFailed? && !s.client.SaysLost? && !s.client.SaysNotReady?
    ensures exists step :: ClientEnabled(s, step)
  {
    if s.client.Pinging? {
      assert ClientEnabled(s, PingFails);
    } else if s.client.CheckingLock? || s.client.CheckingAgain? {
      assert ClientEnabled(s, LookAtLock);
    } else {
      assert ClientEnabled(s, ReadReceipt);
    }
  }

  // ----- what is written, and when -----

  /** A step changes the receipt exactly when it writes one and the write succeeds. */
  lemma WritesExactly(receipt: Receipt, step: ServiceStep)
    ensures var written := ReceiptAfter(receipt, step);
            && (step == WriteHandoff(true) ==> written.HandoffWritten?)
            && (step == Complete(true) ==> written.Completed?)
            && (step == RecordFailure(true) || step == RefuseAuthority(true) ==> written.FailedWritten?)
            && (step !in {WriteHandoff(true), Complete(true), RecordFailure(true), RefuseAuthority(true)} ==>
                  written == receipt)
  {
  }

  /** The client has seen a handoff or completed receipt, or its deadline is set. */
  predicate HasSeen(s: State) {
    || s.deadline
    || (s.client.ReadingCompleted? && s.client.handoff)
    || (s.client.CheckingLock? && (s.client.handoff || s.client.completed))
  }

  predicate SeenInv(s: State) {
    HasSeen(s) ==> Rank(s.receipt) >= 2 || s.faults.drainExpires
  }

  lemma StepKeepsSeen(s: State, step: Step)
    requires Inv(s) && SeenInv(s) && Enabled(s, step)
    ensures SeenInv(Apply(s, step))
  {
    if !s.faults.drainExpires { StepKeepsOrder(s, step); }
    hide Inv, ReceiptInv, LockInv, ClientInv, HandlerEnabled, ServiceEnabled, Served, ReceiptAfter, Handled;
  }

  lemma {:induction false} RunKeepsSeen(s: State, steps: seq<Step>)
    requires Inv(s) && SeenInv(s) && IsRun(s, steps)
    ensures SeenInv(Run(s, steps))
    decreases |steps|
  {
    hide Inv, SeenInv, Enabled, Apply;
    if steps != [] {
      StepKeepsInv(s, steps[0]);
      StepKeepsSeen(s, steps[0]);
      RunKeepsSeen(Apply(s, steps[0]), steps[1..]);
    }
  }

  /** The client's deadline runs, and it can say "not ready", only once the hand-off has been recorded. */
  lemma DeadlineAfterHandoff(faults: Faults, s: State)
    requires Reachable(faults, s) && s.deadline && !faults.drainExpires
    ensures Rank(s.receipt) >= 2
  {
    ReachableInv(faults, s);
    hide Inv, IsRun, Run;
    var steps :| IsRun(Initial(faults), steps) && Run(Initial(faults), steps) == s;
    StartsWell(faults);
    RunKeepsSeen(Initial(faults), steps);
  }

  lemma StartsWell(faults: Faults)
    ensures Inv(Initial(faults)) && SeenInv(Initial(faults))
  {
  }

  // ----- hand-offs that fail and say so -----

  /** The old image records a hand-off that failed, gives up the lock and exits; the client is told. */
  lemma OldFails(faults: Faults, before: State) returns (s: State)
    requires Reachable(faults, before) && before.service.place.OldFailing?
    ensures Reachable(faults, s) && s.service.place.Dead? && s.receipt.FailedWritten? && s.service.recorded
    ensures s.client == before.client && s.handler == before.handler && s.replaced == before.replaced
  {
    hide Reachable;
    s := before;
    s := Reached(faults, s, Serve(RecordFailure(true)));
    s := Reached(faults, s, Serve(CloseLock));
    s := Reached(faults, s, Serve(Exit));
  }

  /** The descriptor cannot be made inheritable, or exec fails. */
  lemma HandoffFails(faults: Faults, atExec: bool) returns (s: State)
    ensures Reachable(faults, s) && s.service.place.Dead? && s.receipt.FailedWritten? && s.client.ReadingFailed?
  {
    hide Reachable;
    if atExec {
      s := Inherited(faults);
      s := Reached(faults, s, Serve(ServiceStep.Exec(false)));
    } else {
      s := Drained(faults);
      s := Reached(faults, s, Serve(WriteHandoff(true)));
      s := Reached(faults, s, Serve(Inherit(false)));
    }
    s := OldFails(faults, s);
  }

  /** The new image does the same when a step after the adoption fails. */
  lemma NewFails(faults: Faults, before: State) returns (s: State)
    requires Reachable(faults, before) && before.service.place.NewFailing?
    ensures Reachable(faults, s) && s.service.place.Dead? && s.receipt.FailedWritten? && s.service.recorded
    ensures s.client == before.client && s.service.ready == before.service.ready
  {
    hide Reachable;
    s := before;
    s := Reached(faults, s, Serve(RecordFailure(true)));
    s := Reached(faults, s, Serve(CloseLock));
    s := Reached(faults, s, Serve(Exit));
  }

  /** The server or the views of the new image cannot be started. */
  lemma StartFails(faults: Faults) returns (s: State)
    ensures Reachable(faults, s) && s.service.place.Dead? && s.receipt.FailedWritten?
  {
    hide Reachable;
    s := ReplacementAdopts(faults);
    s := Reached(faults, s, Serve(ServiceStep.Start(false)));
    s := NewFails(faults, s);
  }

  /** Readiness cannot be marked or reported: "failed" replaces "completed". */
  lemma ReadinessFails(faults: Faults, marked: bool) returns (s: State)
    ensures Reachable(faults, s) && s.service.place.Dead? && s.receipt.FailedWritten? && s.service.ready == marked
  {
    hide Reachable;
    s := ReplacementStarts(faults);
    if marked {
      s := Reached(faults, s, Serve(MarkReady(true)));
      s := Reached(faults, s, Serve(Report(false)));
    } else {
      s := Reached(faults, s, Serve(MarkReady(false)));
    }
    s := NewFails(faults, s);
  }

  // ----- what the client answers -----

  /** A client that reads the failed receipt says so. */
  lemma ToldFailed(faults: Faults) returns (s: State)
    ensures Reachable(faults, s) && s.client.SaysFailed? && s.receipt.FailedWritten?
  {
    hide Reachable;
    s := HandoffFails(faults, true);
    s := Reached(faults, s, Wait(ReadReceipt));
  }

  /** The client has begun its round before the failure was recorded, and looks at the lock after it was given up. */
  lemma LateReader(faults: Faults) returns (s: State)
    ensures Reachable(faults, s) && s.service.place.Dead? && s.receipt.FailedWritten? && s.client.ReadingHandoff?
    ensures !s.service.descriptor
  {
    hide Reachable;
    s := Drained(faults);
    s := Reached(faults, s, Wait(ReadReceipt));
    s := Reached(faults, s, Serve(WriteHandoff(true)));
    s := Reached(faults, s, Serve(Inherit(false)));
    s := OldFails(faults, s);
    ReachableInv(faults, s);
  }

  /** It reads the receipt once more and says that the restart failed, not that the lock was lost. */
  lemma LateFailure(faults: Faults) returns (s: State)
    ensures Reachable(faults, s) && s.client.SaysFailed?
  {
    hide Reachable;
    s := LateReader(faults);
    s := Reached(faults, s, Wait(ReadReceipt));
    s := Reached(faults, s, Wait(ReadReceipt));
    s := Reached(faults, s, Wait(LookAtLock));
    s := Reached(faults, s, Wait(ReadReceipt));
  }

  /** From its start, with nothing recorded and no lock to be seen, the client says that the lock was lost. */
  lemma ToldLost(faults: Faults, before: State) returns (s: State)
    requires Reachable(faults, before) && before.client.ReadingFailed? && !AuthorityPresent(before)
    requires before.receipt.NoReceipt?
    ensures Reachable(faults, s) && s.client.SaysLost? && s.service == before.service
  {
    hide Reachable;
    s := before;
    s := Reached(faults, s, Wait(ReadReceipt));
    s := Reached(faults, s, Wait(ReadReceipt));
    s := Reached(faults, s, Wait(ReadReceipt));
    s := Reached(faults, s, Wait(LookAtLock));
    s := Reached(faults, s, Wait(ReadReceipt));
  }

  /** The service was killed. */
  lemma LostToDeath(faults: Faults) returns (s: State)
    requires faults.dies
    ensures Reachable(faults, s) && s.client.SaysLost? && s.service.place.Dead?
  {
    hide Reachable;
    s := AtStart(faults);
    s := Reached(faults, s, Serve(Die));
    s := ToldLost(faults, s);
  }

  /** The service is serving, but the lock file at its path is another one. */
  lemma LostToReplacement(faults: Faults) returns (s: State)
    requires faults.lockReplaced
    ensures Reachable(faults, s) && s.client.SaysLost? && s.service.place.OldServing? && s.service.descriptor
  {
    hide Reachable;
    s := AtStart(faults);
    s := Reached(faults, s, ReplaceLock);
    s := ToldLost(faults, s);
  }

  /** The client has read the handoff receipt, which sets its deadline. */
  lemma SeesHandoff(faults: Faults) returns (s: State)
    ensures Reachable(faults, s) && s.client == CheckingLock(true, false) && s.deadline
    ensures s.service.place.OldExecing? && AuthorityPresent(s)
  {
    hide Reachable;
    s := Inherited(faults);
    s := Reached(faults, s, Wait(ReadReceipt));
    s := Reached(faults, s, Wait(ReadReceipt));
    s := Reached(faults, s, Wait(ReadReceipt));
  }

  /** It has seen the lock too, so its deadline runs while it pings. */
  lemma WaitingForReplacement(faults: Faults) returns (s: State)
    ensures Reachable(faults, s) && s.client == Pinging(false) && s.deadline && s.service.place.OldExecing?
  {
    hide Reachable;
    s := SeesHandoff(faults);
    s := Reached(faults, s, Wait(LookAtLock));
    s := Reached(faults, s, Wait(LookAtLock));
  }

  /** It may time out, and it goes round again when a ping fails or is answered by the old image. */
  lemma NotReadyYet(faults: Faults) returns (late: State, failed: State, old': State)
    ensures Reachable(faults, late) && late.client.SaysNotReady?
    ensures Reachable(faults, failed) && failed.client.ReadingFailed? && failed.deadline
    ensures Reachable(faults, old') && old'.client.ReadingFailed? && old'.deadline
  {
    hide Reachable;
    var s := WaitingForReplacement(faults);
    late := Reached(faults, s, Wait(TimeOut));
    failed := Reached(faults, s, Wait(PingFails));
    old' := Reached(faults, s, Wait(Ping));
  }

  /** A request whose accepted receipt cannot be written is still settled. */
  lemma UnacceptedRequest(faults: Faults) returns (s: State)
    requires faults.receiptsFail
    ensures Reachable(faults, s) && s.handler.Settled? && s.receipt.NoReceipt?
  {
    hide Reachable;
    s := AtStart(faults);
    s := Reached(faults, s, Handle(SetIntent));
    s := Reached(faults, s, Handle(Record(false)));
    s := Reached(faults, s, Handle(Settle));
  }
}
