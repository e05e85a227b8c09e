/** Where the steps of ipc_server.py lead: what follows a response, why `stop` ends, and runs that reach its end. */
module IpcRuns {
  import opened Bytes
  import opened IpcServer

  // ----- what a handler does after a response -----

  lemma Sends(s: State, c: Connection, r: Request, fatal: bool, delivered: bool)
    requires HandlerOf(s, c) == Responding(Some(r), fatal)
    ensures Enabled(s, Handle(c, Send(delivered)))
    ensures var t := Apply(s, Handle(c, Send(delivered)));
            && HandlerOf(t, c) == Settling(r, fatal || !delivered) && Pending(t, c) == Pending(s, c)
            && t.sent == s.sent + {r} && t.events == s.events && t.registered == s.registered
  {
  }

  lemma Settles(s: State, c: Connection, r: Request, leaving: bool)
    requires HandlerOf(s, c) == Settling(r, leaving) && Pending(s, c) == {r} && c in s.registered
    ensures Enabled(s, Handle(c, Settle))
    ensures var t := Apply(s, Handle(c, Settle));
            && HandlerOf(t, c) == Signalling(r, leaving) && Pending(t, c) == {}
            && t.sent == s.sent && t.events == s.events
  {
  }

  lemma Signals(s: State, c: Connection, r: Request, leaving: bool)
    requires HandlerOf(s, c) == Signalling(r, leaving) && Pending(s, c) == {}
    ensures Enabled(s, Handle(c, Signal))
    ensures var t := Apply(s, Handle(c, Signal));
            && HandlerOf(t, c) == (if leaving then Exiting else Looping) && Pending(t, c) == {}
            && t.sent == s.sent && t.events == s.events + {r}
  {
  }

  /**
   * From any state: once a response to an admitted request has been tried, delivered or not, the handler settles
   * that request and sets its event; it leaves exactly when the response was fatal or could not be delivered.
   */
  lemma AfterAResponse(s: State, c: Connection, r: Request, fatal: bool, delivered: bool)
    requires ConnectionsInv(s) && HandlerOf(s, c) == Responding(Some(r), fatal)
    ensures var steps := [Handle(c, Send(delivered)), Handle(c, Settle), Handle(c, Signal)];
            && IsRun(s, steps)
            && var t := Exec(s, steps);
               && HandlerOf(t, c) == (if fatal || !delivered then Exiting else Looping)
               && t.sent == s.sent + {r} && t.events == s.events + {r} && Pending(t, c) == {}
  {
    OwnPending(s, c, r, fatal);
    hide *;
    Sends(s, c, r, fatal, delivered);
    var a := Apply(s, Handle(c, Send(delivered)));
    Settles(a, c, r, fatal || !delivered);
    var b := Apply(a, Handle(c, Settle));
    Signals(b, c, r, fatal || !delivered);
    ThreeSteps(s, Handle(c, Send(delivered)), Handle(c, Settle), Handle(c, Signal));
  }

  lemma OwnPending(s: State, c: Connection, r: Request, fatal: bool)
    requires ConnectionsInv(s) && HandlerOf(s, c) == Responding(Some(r), fatal)
    ensures Pending(s, c) == {r} && c in s.registered
  {
    hide Apart;
    EnabledIsPending(s, c, Send(true));
  }

  lemma ThreeSteps(s: State, x: Step, y: Step, z: Step)
    requires Enabled(s, x) && Enabled(Apply(s, x), y) && Enabled(Apply(Apply(s, x), y), z)
    ensures IsRun(s, [x, y, z]) && Exec(s, [x, y, z]) == Apply(Apply(Apply(s, x), y), z)
  {
    hide Enabled, Apply;
    assert [x, y, z][1..] == [y, z] && [y, z][1..] == [z] && [z][1..] == [];
    var a, b, d := Apply(s, x), Apply(Apply(s, x), y), Apply(Apply(Apply(s, x), y), z);
    assert IsRun(d, []) && Exec(d, []) == d;
    assert IsRun(b, [z]) && Exec(b, [z]) == d;
    assert IsRun(a, [y, z]) && Exec(a, [y, z]) == d;
  }

  // ----- stop comes to an end -----

  /** How far the handler is from its end once the stop flag is set. */
  function HandlerRank(h: Handler): nat {
    match h
    case Dispatching(_) => 6
    case Receiving => 6
    case Responding(_, _) => 5
    case Settling(_, _) => 4
    case Signalling(_, _) => 3
    case Looping => 2
    case Admitting => 2
    case Exiting => 1
    case Gone => 0
  }

  /** While stopping, every step of a handler brings it closer to its end: at most six are left. */
  lemma HandlersEnd(s: State, c: Connection, action: HandlerStep)
    requires s.stop && HandlerEnabled(s, HandlerOf(s, c), action)
    ensures HandlerRank(HandlerOf(Handled(s, c, action), c)) < HandlerRank(HandlerOf(s, c)) <= 6
  {
  }

  function Phase(p: Stopper): nat {
    match p
    case NotStopping => 7
    case Flagged(_) => 6
    case ClosingIdle(_, _) => 5
    case JoiningAcceptor(_) => 4
    case Visiting(_, _) => 3
    case Awaiting(_, _, _, _) => 3
    case Snapshotting(_) => 2
    case ClosingAll(_, _) => 1
    case Stopped(_) => 0
  }

  /** What is left to do in a phase: connections, two stages each, and events to await. */
  function Left(p: Stopper): (nat, nat) {
    match p
    case ClosingIdle(_, idle) => (|idle|, 0)
    case Visiting(_, left) => (2 * |left|, 0)
    case Awaiting(_, left, _, events) => (2 * |left| + 1, |events|)
    case ClosingAll(_, open) => (|open|, 0)
    case _ => (0, 0)
  }

  predicate Closer(p: Stopper, q: Stopper) {
    || Phase(p) < Phase(q)
    || (Phase(p) == Phase(q) && Left(p).0 < Left(q).0)
    || (Phase(p) == Phase(q) && Left(p).0 == Left(q).0 && Left(p).1 < Left(q).1)
  }

  predicate StaysInPhase(act: StopStep) {
    act.CloseIdle? || act.Visit? || act.AwaitEvent? || act.EventsAwaited? || act.CloseOpen?
  }

  lemma NextPhase(s: State, act: StopStep)
    requires StopEnabled(s, act) && !StaysInPhase(act)
    ensures Phase(Stopping(s, act).stopper) < Phase(s.stopper)
  {
  }

  lemma FewerIdle(s: State, c: Connection)
    requires StopEnabled(s, CloseIdle(c))
    ensures Closer(Stopping(s, CloseIdle(c)).stopper, s.stopper)
  {
    assert |s.stopper.idle - {c}| < |s.stopper.idle|;
  }

  lemma FewerOpen(s: State, c: Connection)
    requires StopEnabled(s, CloseOpen(c))
    ensures Closer(Stopping(s, CloseOpen(c)).stopper, s.stopper)
  {
    assert |s.stopper.open - {c}| < |s.stopper.open|;
  }

  lemma FewerToVisit(s: State, c: Connection)
    requires StopEnabled(s, Visit(c))
    ensures Closer(Stopping(s, Visit(c)).stopper, s.stopper)
  {
    assert |s.stopper.left - {c}| == |s.stopper.left| - 1;
  }

  lemma FewerToAwait(s: State, r: Request)
    requires StopEnabled(s, AwaitEvent(r))
    ensures Closer(Stopping(s, AwaitEvent(r)).stopper, s.stopper)
  {
    assert |s.stopper.events - {r}| < |s.stopper.events|;
  }

  lemma OneVisited(s: State)
    requires StopEnabled(s, EventsAwaited)
    ensures Closer(Stopping(s, EventsAwaited).stopper, s.stopper)
  {
  }

  /** Every step of `stop` brings it closer to its end, in a well-founded order. */
  lemma StopEnds(s: State, act: StopStep)
    requires StopEnabled(s, act)
    ensures Closer(Stopping(s, act).stopper, s.stopper)
  {
    hide Stopping, StopEnabled, Phase, Left;
    match act {
      case CloseIdle(c) => FewerIdle(s, c);
      case Visit(c) => FewerToVisit(s, c);
      case AwaitEvent(r) => FewerToAwait(s, r);
      case EventsAwaited => OneVisited(s);
      case CloseOpen(c) => FewerOpen(s, c);
      case _ => NextPhase(s, act);
    }
  }

  /** `stop` skips nothing: it takes every connection and every event of a phase before it goes on. */
  lemma NothingSkipped(s: State, act: StopStep)
    requires StopEnabled(s, act)
    ensures s.stopper.ClosingIdle? && s.stopper.idle != {} ==> act.CloseIdle? && act.closed in s.stopper.idle
    ensures s.stopper.Visiting? && s.stopper.left != {} ==> act.Visit? && act.next in s.stopper.left
    ensures s.stopper.Awaiting? && s.stopper.events != {} ==> act.AwaitEvent? && act.event in s.stopper.events
    ensures s.stopper.ClosingAll? && s.stopper.open != {} ==> act.CloseOpen? && act.closed in s.stopper.open
  {
  }

  /** `stop` is never stuck: before its end it can take a step, or it awaits an event and its deadline can pass. */
  lemma StopGoesOn(s: State)
    requires !s.stopper.Stopped?
    ensures || (exists act :: StopEnabled(s, act))
            || (s.stopper.Awaiting? && s.stopper.events !! s.events && !s.expired && Enabled(s, DeadlinePasses)
                && forall r <- s.stopper.events :: StopEnabled(Apply(s, DeadlinePasses), AwaitEvent(r)))
  {
    match s.stopper {
      case NotStopping => assert StopEnabled(s, SetStop);
      case Flagged(_) => assert StopEnabled(s, FindIdle);
      case ClosingIdle(_, idle) =>
        if c :| c in idle { assert StopEnabled(s, CloseIdle(c)); } else { assert StopEnabled(s, IdleClosed); }
      case JoiningAcceptor(_) => assert StopEnabled(s, JoinAcceptor);
      case Visiting(_, left) =>
        if c :| c in left { assert StopEnabled(s, Visit(c)); } else { assert StopEnabled(s, AllVisited); }
      case Awaiting(_, _, _, events) =>
        if events == {} { assert StopEnabled(s, EventsAwaited); }
        else if r :| r in events && (r in s.events || s.expired) { assert StopEnabled(s, AwaitEvent(r)); }
      case Snapshotting(_) => assert StopEnabled(s, SnapshotOpen);
      case ClosingAll(_, open) =>
        if c :| c in open { assert StopEnabled(s, CloseOpen(c)); } else { assert StopEnabled(s, AllClosed); }
    }
  }

  /** The acceptor leaves only when the server is stopping. */
  lemma {:induction false} AcceptorStays(s: State, steps: seq<Step>)
    requires IsRun(s, steps) && (s.acceptor == AcceptorDone ==> s.stop)
    ensures Exec(s, steps).acceptor == AcceptorDone ==> Exec(s, steps).stop
    decreases |steps|
  {
    hide Handled, HandlerEnabled, Stopping, StopEnabled;
    if steps != [] {
      AcceptorStaysStep(s, steps[0]);
      AcceptorStays(Apply(s, steps[0]), steps[1..]);
    }
  }

  lemma AcceptorStaysStep(s: State, step: Step)
    requires Enabled(s, step) && (s.acceptor == AcceptorDone ==> s.stop)
    ensures Apply(s, step).acceptor == AcceptorDone ==> Apply(s, step).stop
  {
    if step.Handle? { HandlerShrinks(s, step.connection, step.action); }
  }

  // ----- runs -----

  /** The peer closes the connection: its handler unregisters it. */
  lemma ClosedByPeer(c: Connection) returns (s: State)
    ensures Reachable(s) && s == Alone(c, Gone, {}, {}, {}, {}).(registered := {})
  {
    hide Reachable;
    s := Connected(c);
    s := Reached(s, Handle(c, TestStop));
    s := Reached(s, Handle(c, StreamEnded));
    s := Reached(s, Handle(c, Unregister));
    assert s.handlers == map[c := Gone] && s.registered == {};
  }

  /** A frame that breaks the protocol is answered, and the handler leaves. */
  lemma BrokenFrame(c: Connection) returns (s: State)
    ensures Reachable(s) && s == Alone(c, Exiting, {}, {}, {}, {})
  {
    hide Reachable;
    s := Connected(c);
    s := Reached(s, Handle(c, TestStop));
    s := Reached(s, Handle(c, ReceiveFailed(true)));
    s := Reached(s, Handle(c, Send(true)));
    assert s.handlers == map[c := Exiting];
  }

  /** A request whose dispatch fails is answered, and the handler leaves. */
  lemma FailedDispatch(c: Connection, r: Request) returns (s: State)
    ensures Reachable(s) && s == Alone(c, Exiting, {}, {r}, {r}, {r})
  {
    hide Reachable;
    s := Admitted(c, r);
    s := Reached(s, Handle(c, DispatchFailed));
    s := Reached(s, Handle(c, Send(true)));
    s := Reached(s, Handle(c, Settle));
    s := Reached(s, Handle(c, Signal));
    assert {r} - {r} == {};
    assert s.handlers == map[c := Exiting] && s.pending == map[c := {}] && s.sent == {r} && s.events == {r};
  }

  /** A request whose dispatch fails while stopping is settled although nothing was sent. */
  lemma SettledUnanswered(c: Connection, r: Request) returns (s: State)
    ensures Reachable(s) && s.stop && r in s.events && r !in s.sent && HandlerOf(s, c) == Exiting
  {
    hide Reachable;
    s := Admitted(c, r);
    s := Reached(s, Stop(SetStop));
    s := Reached(s, Handle(c, DispatchFailed));
    s := Reached(s, Handle(c, Settle));
    s := Reached(s, Handle(c, Signal));
  }

  /** A connection accepted just before the flag was set is not served, and the acceptor leaves. */
  lemma RefusedConnection(c: Connection) returns (s: State)
    ensures Reachable(s) && s.acceptor == AcceptorDone && s.registered == {} && s.known == {c}
  {
    hide Reachable;
    s := AtStart();
    s := Reached(s, Accept(c));
    s := Reached(s, Stop(SetStop));
    s := Reached(s, Register);
    s := Reached(s, AcceptorExit);
  }

  /** An idle connection is closed first, and its handler leaves without a response. */
  lemma ClosedFirst(c: Connection) returns (s: State)
    ensures Reachable(s)
    ensures s == Alone(c, Exiting, {}, {}, {}, {}).(stop := true, stopper := JoiningAcceptor({c}), closedByStop := {c})
  {
    hide Reachable;
    s := Connected(c);
    s := Reached(s, Handle(c, TestStop));
    s := Reached(s, Stop(SetStop));
    s := Reached(s, Stop(FindIdle));
    assert s.stopper.idle == {c};
    s := Reached(s, Stop(CloseIdle(c)));
    assert s.stopper.idle == {};
    s := Reached(s, Stop(IdleClosed));
    s := Reached(s, Handle(c, ReceiveFailed(false)));
    assert s.handlers == map[c := Exiting] && s.closedByStop == {c};
  }

  lemma IdleVisited(c: Connection) returns (s: State)
    ensures Reachable(s)
    ensures s == Alone(c, Gone, {}, {}, {}, {}).(
              stop := true, registered := {}, acceptor := AcceptorDone, stopper := Visiting({c}, {}),
              closedByStop := {c})
  {
    hide Reachable;
    s := ClosedFirst(c);
    s := Reached(s, AcceptorExit);
    s := Reached(s, Stop(JoinAcceptor));
    s := Reached(s, Handle(c, Unregister));
    s := Reached(s, Stop(Visit(c)));
    s := Reached(s, Stop(EventsAwaited));
    assert s.handlers == map[c := Gone] && s.registered == {} && s.stopper.left == {};
  }

  /** Stopping an idle server: every connection is closed and unregistered, and both threads have left. */
  lemma IdleStop(c: Connection) returns (s: State)
    ensures Reachable(s) && s.stopper == Stopped({c}) && s.registered == {} && s.closedByStop == {c}
    ensures s.acceptor == AcceptorDone && HandlerOf(s, c) == Gone && !s.expired
  {
    hide Reachable;
    s := IdleVisited(c);
    s := Reached(s, Stop(AllVisited));
    s := Reached(s, Stop(SnapshotOpen));
    assert s.stopper.open == {};
    s := Reached(s, Stop(AllClosed));
  }

  /** `stop` comes to await the response of a request in progress, and has not closed its connection. */
  lemma Busy(c: Connection, r: Request) returns (s: State)
    ensures Reachable(s)
    ensures s == Alone(c, Dispatching(r), {r}, {r}, {}, {}).(stop := true, stopper := Awaiting({c}, {}, c, {r}))
  {
    hide Reachable;
    s := Admitted(c, r);
    s := Reached(s, Stop(SetStop));
    s := Reached(s, Stop(FindIdle));
    assert s.stopper.idle == {};
    s := Reached(s, Stop(IdleClosed));
    s := Reached(s, Stop(JoinAcceptor));
    s := Reached(s, Stop(Visit(c)));
    assert s.stopper.left == {};
  }

  lemma BusyAnswered(c: Connection, r: Request) returns (s: State)
    ensures Reachable(s)
    ensures s == Alone(c, Looping, {}, {r}, {r}, {r}).(stop := true, stopper := Awaiting({c}, {}, c, {r}))
  {
    hide Reachable;
    s := Busy(c, r);
    s := Reached(s, Handle(c, DispatchDone(false)));
    s := Reached(s, Handle(c, Send(true)));
    s := Reached(s, Handle(c, Settle));
    s := Reached(s, Handle(c, Signal));
    assert {r} - {r} == {};
    assert s.handlers == map[c := Looping] && s.pending == map[c := {}] && s.sent == {r} && s.events == {r};
  }

  /** Its connection is closed only after the response was sent, without waiting for the deadline. */
  lemma BusyStop(c: Connection, r: Request) returns (s: State)
    ensures Reachable(s) && s.stopper == Stopped({c}) && s.closedByStop == {c} && !s.expired && r in s.sent
  {
    hide Reachable;
    s := BusyAnswered(c, r);
    s := Reached(s, Stop(AwaitEvent(r)));
    assert s.stopper.events == {};
    s := Reached(s, Stop(EventsAwaited));
    s := Reached(s, Stop(AllVisited));
    s := Reached(s, Stop(SnapshotOpen));
    s := Reached(s, Stop(CloseOpen(c)));
    assert s.stopper.open == {};
    s := Reached(s, Stop(AllClosed));
  }

  /** After the deadline `stop` closes the connection of a request still in progress. */
  lemma BusyCut(c: Connection, r: Request) returns (s: State)
    ensures Reachable(s) && c in s.closedByStop && HandlerOf(s, c) == Dispatching(r) && r !in s.sent
  {
    hide Reachable;
    s := Busy(c, r);
    s := Reached(s, DeadlinePasses);
    s := Reached(s, Stop(AwaitEvent(r)));
    assert s.stopper.events == {};
    s := Reached(s, Stop(EventsAwaited));
    s := Reached(s, Stop(AllVisited));
    s := Reached(s, Stop(SnapshotOpen));
    s := Reached(s, Stop(CloseOpen(c)));
  }
}
