/**
 The stop, admit and settle protocol of ipc_server.py as interleaved steps of an acceptor, one
 handler per connection, and the thread that calls `stop`. Each step is one critical section or one
 operation outside the lock; timeouts are steps that may or may not happen.
 */
module IpcServer {
  import opened Bytes

  type Connection = nat
  type Request = nat

  /** Where a handler is in `_handle_connection` and `_serve_connection`. */
  datatype Handler =
    | Looping                                      // about to test the stop flag
    | Receiving                                    // in receive_frame
    | Admitting                                    // about to call _admit_request
    | Dispatching(request: Request)                // parsing and dispatching an admitted request
    | Responding(answered: Option<Request>, fatal: bool) // about to send a response
    | Settling(settled: Request, leaving: bool)    // about to remove the pending response
    | Signalling(signalled: Request, leaving: bool) // about to set its event
    | Exiting                                      // about to unregister the connection
    | Gone

  datatype Acceptor = Accepting | Holding(connection: Connection) | AcceptorDone

  /** Where the stopping thread is; `active` is its first snapshot. */
  datatype Stopper =
    | NotStopping
    | Flagged(active: set<Connection>)
    | ClosingIdle(active: set<Connection>, idle: set<Connection>)
    | JoiningAcceptor(active: set<Connection>)
    | Visiting(active: set<Connection>, left: set<Connection>)
    | Awaiting(active: set<Connection>, left: set<Connection>, visited: Connection, events: set<Request>)
    | Snapshotting(active: set<Connection>)
    | ClosingAll(active: set<Connection>, open: set<Connection>)
    | Stopped(active: set<Connection>)

  datatype State = State(
    stop: bool,
    expired: bool,                         // the deadline of stop has passed
    known: set<Connection>,                // every connection ever accepted
    registered: set<Connection>,           // the keys of _active_connections
    pending: map<Connection, set<Request>>, // pending_responses of every connection state ever made
    handlers: map<Connection, Handler>,
    admitted: set<Request>,                // every request ever admitted
    sent: set<Request>,                    // for which send_frame was called
    events: set<Request>,                  // the settled events that are set
    crashed: set<Connection>,              // whose handler left on an uncaught exception
    acceptor: Acceptor,
    stopper: Stopper,
    closedByStop: set<Connection>)

  function Initial(): State {
    State(false, false, {}, {}, map[], map[], {}, {}, {}, {}, Accepting, NotStopping, {})
  }

  /** What one handler thread does next. */
  datatype HandlerStep =
    | TestStop
    | FrameReceived
    | StreamEnded
    | ReceiveFailed(protocolError: bool)
    | Admit(request: Request)
    | DispatchDone(fatal: bool)
    | DispatchFailed               // DevlegateError or OSError
    | DispatchCrashed              // any other exception leaves the handler through its finally clauses
    | Send(delivered: bool)
    | Settle
    | Signal
    | Unregister

  /** What the thread in `stop` does next. */
  datatype StopStep =
    | SetStop
    | FindIdle
    | CloseIdle(closed: Connection)
    | IdleClosed
    | JoinAcceptor
    | Visit(next: Connection)
    | AwaitEvent(event: Request)
    | EventsAwaited
    | AllVisited
    | SnapshotOpen
    | CloseOpen(closed: Connection)
    | AllClosed

  datatype Step =
    | Accept(connection: Connection)
    | AcceptorExit
    | Register
    | Handle(connection: Connection, action: HandlerStep)
    | Stop(act: StopStep)
    | DeadlinePasses

  /** A connection that was never registered has no handler thread running. */
  function HandlerOf(s: State, c: Connection): Handler {
    if c in s.handlers then s.handlers[c] else Gone
  }

  /** `pending_responses` of a connection's state; a connection that was never registered has none. */
  function Pending(s: State, c: Connection): set<Request> {
    if c in s.pending then s.pending[c] else {}
  }

  predicate HandlerEnabled(s: State, h: Handler, action: HandlerStep) {
    match action
    case TestStop => h == Looping
    case FrameReceived | StreamEnded | ReceiveFailed(_) => h == Receiving
    case Admit(r) => h == Admitting && r !in s.admitted
    case DispatchDone(_) | DispatchFailed | DispatchCrashed => h.Dispatching?
    case Send(_) => h.Responding?
    case Settle => h.Settling?
    case Signal => h.Signalling?
    case Unregister => h == Exiting
  }

  predicate StopEnabled(s: State, act: StopStep) {
    match act
    case SetStop => s.stopper == NotStopping
    case FindIdle => s.stopper.Flagged?
    case CloseIdle(c) => s.stopper.ClosingIdle? && c in s.stopper.idle
    case IdleClosed => s.stopper.ClosingIdle? && s.stopper.idle == {}
    case JoinAcceptor => s.stopper.JoiningAcceptor?
    case Visit(c) => s.stopper.Visiting? && c in s.stopper.left
    case AwaitEvent(r) => s.stopper.Awaiting? && r in s.stopper.events && (r in s.events || s.expired)
    case EventsAwaited => s.stopper.Awaiting? && s.stopper.events == {}
    case AllVisited => s.stopper.Visiting? && s.stopper.left == {}
    case SnapshotOpen => s.stopper.Snapshotting?
    case CloseOpen(c) => s.stopper.ClosingAll? && c in s.stopper.open
    case AllClosed => s.stopper.ClosingAll? && s.stopper.open == {}
  }

  predicate Enabled(s: State, step: Step) {
    match step
    case Accept(c) => s.acceptor == Accepting && c !in s.known
    case AcceptorExit => s.acceptor == Accepting && s.stop
    case Register => s.acceptor.Holding?
    case Handle(c, action) => HandlerEnabled(s, HandlerOf(s, c), action)
    case Stop(act) => StopEnabled(s, act)
    case DeadlinePasses => s.stopper.Visiting? || s.stopper.Awaiting?
  }

  function Leave(leaving: bool): Handler {
    if leaving then Exiting else Looping
  }

  function Move(s: State, c: Connection, h: Handler): State {
    s.(handlers := s.handlers[c := h])
  }

  function Handled(s: State, c: Connection, action: HandlerStep): State
    requires HandlerEnabled(s, HandlerOf(s, c), action)
  {
    var h := HandlerOf(s, c);
    match action
    case TestStop => Move(s, c, if s.stop then Exiting else Receiving)
    case FrameReceived => Move(s, c, Admitting)
    case StreamEnded => Move(s, c, Exiting)
    case ReceiveFailed(protocolError) =>
      Move(s, c, if !protocolError && s.stop then Exiting else Responding(None, true))
    case Admit(r) =>
      if s.stop || c !in s.registered then Move(s, c, Exiting)
      else Move(s, c, Dispatching(r)).(pending := s.pending[c := Pending(s, c) + {r}], admitted := s.admitted + {r})
    case DispatchDone(fatal) => Move(s, c, Responding(Some(h.request), fatal))
    case DispatchFailed =>
      Move(s, c, if s.stop then Settling(h.request, true) else Responding(Some(h.request), true))
    case DispatchCrashed => Move(s, c, Exiting).(crashed := s.crashed + {c})
    case Send(delivered) =>
      var leaving := !delivered || h.fatal;
      if h.answered.Some? then Move(s, c, Settling(h.answered.value, leaving)).(sent := s.sent + {h.answered.value})
      else Move(s, c, Leave(leaving))
    case Settle =>
      var next := Move(s, c, Signalling(h.settled, h.leaving));
      if c in s.registered then next.(pending := s.pending[c := Pending(s, c) - {h.settled}]) else next
    case Signal => Move(s, c, Leave(h.leaving)).(events := s.events + {h.signalled})
    case Unregister => Move(s, c, Gone).(registered := s.registered - {c})
  }

  function Stopping(s: State, act: StopStep): State
    requires StopEnabled(s, act)
  {
    var p := s.stopper;
    match act
    case SetStop => s.(stop := true, stopper := Flagged(s.registered))
    case FindIdle => s.(stopper := ClosingIdle(p.active, set c | c in p.active && Pending(s, c) == {}))
    case CloseIdle(c) => s.(stopper := ClosingIdle(p.active, p.idle - {c}), closedByStop := s.closedByStop + {c})
    case IdleClosed => s.(stopper := JoiningAcceptor(p.active))
    case JoinAcceptor => s.(stopper := Visiting(p.active, p.active))
    case Visit(c) => s.(stopper := Awaiting(p.active, p.left - {c}, c, Pending(s, c)))
    case AwaitEvent(r) => s.(stopper := p.(events := p.events - {r}))
    case EventsAwaited => s.(stopper := Visiting(p.active, p.left))
    case AllVisited => s.(stopper := Snapshotting(p.active))
    case SnapshotOpen => s.(stopper := ClosingAll(p.active, s.registered))
    case CloseOpen(c) => s.(stopper := ClosingAll(p.active, p.open - {c}), closedByStop := s.closedByStop + {c})
    case AllClosed => s.(stopper := Stopped(p.active))
  }

  function Apply(s: State, step: Step): State
    requires Enabled(s, step)
  {
    match step
    case Accept(c) => s.(acceptor := Holding(c), known := s.known + {c})
    case AcceptorExit => s.(acceptor := AcceptorDone)
    case Register =>
      var c := s.acceptor.connection;
      if s.stop then s.(acceptor := Accepting)
      else s.(acceptor := Accepting, registered := s.registered + {c}, pending := s.pending[c := {}],
              handlers := s.handlers[c := Looping])
    case Handle(c, action) => Handled(s, c, action)
    case Stop(act) => Stopping(s, act)
    case DeadlinePasses => s.(expired := true)
  }

  // ----- the invariant -----

  /** The admitted request a handler still has to settle. */
  function Owed(h: Handler): set<Request> {
    match h
    case Dispatching(r) => {r}
    case Responding(Some(r), _) => {r}
    case Settling(r, _) => {r}
    case _ => {}
  }

  predicate Finished(h: Handler) {
    h == Exiting || h == Gone
  }

  /** A connection has its handler's unsettled request pending; a crashed handler may leave one behind. */
  predicate HandlerInv(s: State, c: Connection) {
    var h := HandlerOf(s, c);
    && c in s.known
    && (h != Gone <==> c in s.registered)
    && (if Finished(h) then |Pending(s, c)| <= 1 && (Pending(s, c) == {} || c in s.crashed)
         else Pending(s, c) == Owed(h))
    && Pending(s, c) <= s.admitted && Pending(s, c) !! s.events
    && (h.Signalling? ==> h.signalled in s.admitted)
  }

  /** No request is pending on two connections, or signalled while pending. */
  predicate Apart(s: State, c: Connection, d: Connection) {
    && Pending(s, c) !! Pending(s, d)
    && (HandlerOf(s, c).Signalling? ==> HandlerOf(s, c).signalled !in Pending(s, d))
  }

  predicate ConnectionsInv(s: State) {
    && s.pending.Keys == s.handlers.Keys
    && s.registered <= s.pending.Keys
    && s.events <= s.admitted
    && (s.acceptor.Holding? ==> s.acceptor.connection in s.known && s.acceptor.connection !in s.pending)
    && (forall c <- s.pending :: HandlerInv(s, c))
    && (forall c <- s.pending, d <- s.pending :: c != d ==> Apart(s, c, d))
  }

  /** Nothing is pending on `c`, or the deadline has passed. */
  predicate Quiet(s: State, c: Connection) {
    Pending(s, c) == {} || s.expired
  }

  predicate AllQuiet(s: State, connections: set<Connection>) {
    forall c <- connections :: Quiet(s, c)
  }

  /** What the stopping thread knows at each place. */
  predicate StopperInv(s: State) {
    && (s.stop <==> s.stopper != NotStopping)
    && AllQuiet(s, s.closedByStop)
    && match s.stopper
       case NotStopping => s.closedByStop == {} && !s.expired
       case Flagged(active) => s.registered <= active && !s.expired
       case ClosingIdle(active, idle) => s.registered <= active && !s.expired && AllQuiet(s, idle)
       case JoiningAcceptor(active) => s.registered <= active && !s.expired
       case Visiting(active, left) => s.registered <= active && AllQuiet(s, active - left)
       case Awaiting(active, left, visited, events) =>
         && s.registered <= active
         && AllQuiet(s, active - left - {visited})
         && (Pending(s, visited) <= events || s.expired)
       case Snapshotting(active) => s.registered <= active && AllQuiet(s, active)
       case ClosingAll(active, open) =>
         s.registered <= active && open <= active && s.registered <= open + s.closedByStop && AllQuiet(s, active)
       case Stopped(active) => s.registered <= active && s.registered <= s.closedByStop
  }

  /** The handler of `c` is the one that will set the event of `r`, or crashed before it could. */
  predicate WillSettle(s: State, c: Connection, r: Request) {
    r in Pending(s, c) || (HandlerOf(s, c).Signalling? && HandlerOf(s, c).signalled == r)
  }

  /** Every event that `stop` awaits is set, or belongs to some handler. */
  predicate AwaitInv(s: State) {
    s.stopper.Awaiting? ==>
      forall r <- s.stopper.events :: r in s.events || exists c <- s.pending :: WillSettle(s, c, r)
  }

  predicate Inv(s: State) {
    ConnectionsInv(s) && StopperInv(s) && AwaitInv(s)
  }

  // ----- every step keeps the invariant -----

  /** Only connection `c` differs between the two states, apart from what was admitted and signalled. */
  ghost predicate OnlyAt(s: State, t: State, c: Connection) {
    && c in s.pending
    && t.acceptor == s.acceptor && t.known == s.known
    && t.pending.Keys == s.pending.Keys && t.handlers.Keys == s.handlers.Keys
    && s.admitted <= t.admitted && s.crashed <= t.crashed
    && t.registered <= s.registered && s.registered <= t.registered + {c}
    && forall d :: d != c ==> HandlerOf(t, d) == HandlerOf(s, d) && Pending(t, d) == Pending(s, d)
  }

  lemma OneConnectionMoves(s: State, t: State, c: Connection)
    requires ConnectionsInv(s) && OnlyAt(s, t, c)
    requires HandlerInv(t, c) && t.events <= t.admitted
    requires forall d <- s.pending :: d != c ==> Pending(s, d) !! t.events && Apart(t, c, d) && Apart(t, d, c)
    ensures ConnectionsInv(t)
  {
    hide HandlerInv, Apart, Pending;
    forall d | d in t.pending
      ensures HandlerInv(t, d)
    {
      assert HandlerInv(s, d);
      if d != c { OtherHandlerInv(s, t, c, d); }
    }
    forall d, e | d in t.pending && e in t.pending && d != e
      ensures Apart(t, d, e)
    {
      assert Apart(s, d, e);
      if d != c && e != c { OthersApart(s, t, c, d, e); }
    }
  }

  lemma OtherHandlerInv(s: State, t: State, c: Connection, d: Connection)
    requires OnlyAt(s, t, c) && d != c && HandlerInv(s, d) && Pending(s, d) !! t.events
    ensures HandlerInv(t, d)
  {
  }

  lemma OthersApart(s: State, t: State, c: Connection, d: Connection, e: Connection)
    requires OnlyAt(s, t, c) && d != c && e != c && Apart(s, d, e)
    ensures Apart(t, d, e)
  {
  }

  lemma HandlerMoves(s: State, c: Connection, action: HandlerStep)
    requires HandlerEnabled(s, HandlerOf(s, c), action)
    requires s.pending.Keys == s.handlers.Keys && c in s.pending
    ensures OnlyAt(s, Handled(s, c, action), c)
  {
  }

  /** The steps that change what is pending or signalled. */
  predicate Moves(action: HandlerStep) {
    action.Admit? || action.Settle? || action.Signal?
  }

  lemma QuietStepKeepsHandler(s: State, c: Connection, action: HandlerStep)
    requires HandlerEnabled(s, HandlerOf(s, c), action) && !Moves(action)
    requires c in s.pending && HandlerInv(s, c)
    ensures HandlerInv(Handled(s, c, action), c)
  {
    var t := Handled(s, c, action);
    assert Pending(t, c) == Pending(s, c) && t.events == s.events && t.admitted == s.admitted;
    if action.DispatchCrashed? { assert Pending(t, c) == {HandlerOf(s, c).request}; }
  }

  lemma AdmitKeepsHandler(s: State, c: Connection, r: Request)
    requires HandlerEnabled(s, HandlerOf(s, c), Admit(r))
    requires c in s.pending && HandlerInv(s, c) && s.events <= s.admitted
    ensures HandlerInv(Handled(s, c, Admit(r)), c)
  {
    assert Pending(s, c) == {};
  }

  lemma SettleKeepsHandler(s: State, c: Connection)
    requires HandlerEnabled(s, HandlerOf(s, c), Settle)
    requires c in s.pending && HandlerInv(s, c)
    ensures HandlerInv(Handled(s, c, Settle), c)
  {
    assert Pending(Handled(s, c, Settle), c) == {};
  }

  lemma SignalKeepsHandler(s: State, c: Connection)
    requires HandlerEnabled(s, HandlerOf(s, c), Signal)
    requires c in s.pending && HandlerInv(s, c)
    ensures HandlerInv(Handled(s, c, Signal), c)
  {
    assert Pending(s, c) == {};
  }

  lemma HandlerInvKept(s: State, c: Connection, action: HandlerStep)
    requires HandlerEnabled(s, HandlerOf(s, c), action)
    requires c in s.pending && HandlerInv(s, c) && s.events <= s.admitted
    ensures HandlerInv(Handled(s, c, action), c)
  {
    hide HandlerInv, Handled, HandlerEnabled;
    match action {
      case Admit(r) => AdmitKeepsHandler(s, c, r);
      case Settle => SettleKeepsHandler(s, c);
      case Signal => SignalKeepsHandler(s, c);
      case _ => QuietStepKeepsHandler(s, c, action);
    }
  }

  lemma EventsStayAdmitted(s: State, c: Connection, action: HandlerStep)
    requires HandlerEnabled(s, HandlerOf(s, c), action) && HandlerInv(s, c) && s.events <= s.admitted
    ensures Handled(s, c, action).events <= Handled(s, c, action).admitted
  {
  }

  /** A step only adds a fresh request, and only signals one that it took out of its own pending set. */
  lemma HandlerEffect(s: State, c: Connection, action: HandlerStep)
    requires HandlerEnabled(s, HandlerOf(s, c), action)
    requires c in s.pending && HandlerInv(s, c)
    ensures var t := Handled(s, c, action);
            && (forall r <- Pending(t, c) :: r in Pending(s, c) || r !in s.admitted)
            && (forall r <- t.events ::
                  r in s.events || (HandlerOf(s, c).Signalling? && r == HandlerOf(s, c).signalled))
            && (HandlerOf(t, c).Signalling? ==> HandlerOf(t, c).signalled in Pending(s, c))
  {
  }

  lemma ApartKept(s: State, c: Connection, action: HandlerStep, d: Connection)
    requires HandlerEnabled(s, HandlerOf(s, c), action) && d != c && s.pending.Keys == s.handlers.Keys
    requires c in s.pending && HandlerInv(s, c) && HandlerInv(s, d) && Apart(s, c, d) && Apart(s, d, c)
    ensures Pending(s, d) !! Handled(s, c, action).events
    ensures Apart(Handled(s, c, action), c, d) && Apart(Handled(s, c, action), d, c)
  {
    hide Handled, HandlerEnabled;
    HandlerEffect(s, c, action);
    HandlerMoves(s, c, action);
  }

  lemma HandlerKeepsConnections(s: State, c: Connection, action: HandlerStep)
    requires ConnectionsInv(s) && HandlerEnabled(s, HandlerOf(s, c), action)
    ensures ConnectionsInv(Handled(s, c, action))
  {
    hide HandlerInv, Apart, OnlyAt, Handled;
    var t := Handled(s, c, action);
    HandlerMoves(s, c, action);
    HandlerInvKept(s, c, action);
    EventsStayAdmitted(s, c, action);
    forall d | d in s.pending && d != c
      ensures Pending(s, d) !! t.events && Apart(t, c, d) && Apart(t, d, c)
    {
      ApartKept(s, c, action, d);
    }
    OneConnectionMoves(s, t, c);
  }

  /** A registered connection starts with nothing pending. */
  lemma RegisterKeepsConnections(s: State)
    requires ConnectionsInv(s) && s.acceptor.Holding? && !s.stop
    ensures ConnectionsInv(Apply(s, Register))
  {
    var t := Apply(s, Register);
    forall c | c in t.pending
      ensures HandlerInv(t, c)
    {
      if c in s.pending { assert HandlerInv(s, c); }
    }
    forall c, d | c in t.pending && d in t.pending && c != d
      ensures Apart(t, c, d)
    {
      if c in s.pending && d in s.pending { assert Apart(s, c, d); }
    }
  }

  /** The acceptor's other steps and the thread in `stop` leave every connection as it is. */
  lemma OthersKeepConnections(s: State, t: State)
    requires ConnectionsInv(s)
    requires t.pending == s.pending && t.handlers == s.handlers && t.registered == s.registered
    requires t.admitted == s.admitted && t.events == s.events && t.crashed == s.crashed && s.known <= t.known
    requires t.acceptor.Holding? ==> t.acceptor.connection in t.known && t.acceptor.connection !in t.pending
    ensures ConnectionsInv(t)
  {
    forall c | c in t.pending
      ensures HandlerInv(t, c)
    {
      assert HandlerInv(s, c);
    }
    forall c, d | c in t.pending && d in t.pending && c != d
      ensures Apart(t, c, d)
    {
      assert Apart(s, c, d);
    }
  }

  /** A connection just accepted is new, so nothing is registered for it yet. */
  lemma AcceptKeepsConnections(s: State, c: Connection)
    requires ConnectionsInv(s) && Enabled(s, Accept(c))
    ensures ConnectionsInv(Apply(s, Accept(c)))
  {
    forall d | d in s.pending ensures d in s.known { assert HandlerInv(s, d); }
    OthersKeepConnections(s, Apply(s, Accept(c)));
  }

  /** The rest of the acceptor's steps, `stop` and the clock touch no connection. */
  lemma StepsElsewhere(s: State, step: Step)
    requires ConnectionsInv(s) && Enabled(s, step)
    requires step.AcceptorExit? || step.Stop? || step.DeadlinePasses? || (step.Register? && s.stop)
    ensures ConnectionsInv(Apply(s, step))
  {
    hide HandlerInv, Apart;
    OthersKeepConnections(s, Apply(s, step));
  }

  lemma ConnectionsPreserved(s: State, step: Step)
    requires ConnectionsInv(s) && Enabled(s, step)
    ensures ConnectionsInv(Apply(s, step))
  {
    hide Handled, HandlerEnabled, ConnectionsInv, Stopping, StopEnabled;
    match step {
      case Handle(c, action) => HandlerKeepsConnections(s, c, action);
      case Register => if s.stop { StepsElsewhere(s, step); } else { RegisterKeepsConnections(s); }
      case Accept(c) => AcceptKeepsConnections(s, c);
      case _ => StepsElsewhere(s, step);
    }
  }

  /** Once stopping, the pending sets and the registered set only shrink, and the stopper's facts persist. */
  lemma ShrinkingKeepsStopper(s: State, t: State)
    requires StopperInv(s)
    requires t.stop == s.stop && t.stopper == s.stopper && t.closedByStop == s.closedByStop && t.expired == s.expired
    requires s.stop ==> t.registered <= s.registered && forall c :: Pending(t, c) <= Pending(s, c)
    ensures StopperInv(t)
  {
  }

  /** With the stop flag set no handler step admits anything. */
  lemma HandlerShrinks(s: State, c: Connection, action: HandlerStep)
    requires HandlerEnabled(s, HandlerOf(s, c), action)
    ensures var t := Handled(s, c, action);
            && t.stop == s.stop && t.stopper == s.stopper && t.closedByStop == s.closedByStop && t.expired == s.expired
            && t.registered <= s.registered && t.known == s.known
            && (s.stop ==> t.admitted == s.admitted && forall d :: Pending(t, d) <= Pending(s, d))
  {
  }

  lemma StopKeepsStopper(s: State, act: StopStep)
    requires ConnectionsInv(s) && StopperInv(s) && StopEnabled(s, act)
    ensures StopperInv(Stopping(s, act))
  {
    match act {
      case EventsAwaited =>
        var p := s.stopper;
        assert Pending(s, p.visited) <= {} || s.expired;
        forall c | c in p.active - p.left ensures Quiet(s, c) {
          if c != p.visited { assert c in p.active - p.left - {p.visited}; }
        }
      case Visit(c) =>
        var p := s.stopper;
        forall d | d in p.active - (p.left - {c}) - {c} ensures Quiet(s, d) {
          assert d in p.active - p.left;
        }
      case AwaitEvent(r) =>
        var c := s.stopper.visited;
        if c in s.pending { assert HandlerInv(s, c); }
      case AllVisited =>
        assert s.stopper.active - s.stopper.left == s.stopper.active;
      case _ =>
    }
  }

  lemma StopperPreserved(s: State, step: Step)
    requires ConnectionsInv(s) && StopperInv(s) && Enabled(s, step)
    ensures StopperInv(Apply(s, step))
  {
    hide Handled, HandlerEnabled, Stopping, StopEnabled;
    match step {
      case Handle(c, action) =>
        HandlerShrinks(s, c, action);
        ShrinkingKeepsStopper(s, Handled(s, c, action));
      case Stop(act) => StopKeepsStopper(s, act);
      case _ => ShrinkingKeepsStopper(s, Apply(s, step).(expired := s.expired));
    }
  }

  /** A handler never drops an event it owes: it settles, then signals, then the event is set. */
  lemma HandlerKeepsOwing(s: State, c: Connection, action: HandlerStep, r: Request)
    requires HandlerEnabled(s, HandlerOf(s, c), action) && c in s.pending && HandlerInv(s, c) && WillSettle(s, c, r)
    ensures WillSettle(Handled(s, c, action), c, r) || r in Handled(s, c, action).events
  {
  }

  lemma HandlerKeepsAwaited(s: State, c: Connection, action: HandlerStep)
    requires ConnectionsInv(s) && AwaitInv(s) && HandlerEnabled(s, HandlerOf(s, c), action)
    ensures AwaitInv(Handled(s, c, action))
  {
    hide Handled, WillSettle, HandlerInv, Apart;
    var t := Handled(s, c, action);
    HandlerMoves(s, c, action);
    HandlerShrinks(s, c, action);
    EventsGrow(s, c, action);
    if s.stopper.Awaiting? {
      forall r | r in t.stopper.events
        ensures r in t.events || exists d <- t.pending :: WillSettle(t, d, r)
      {
        if r !in s.events {
          var d :| d in s.pending && WillSettle(s, d, r);
          if d == c { HandlerKeepsOwing(s, c, action, r); } else { SameOwing(s, t, d, r); }
          assert r in t.events || (d in t.pending && WillSettle(t, d, r));
        }
      }
    }
  }

  lemma EventsGrow(s: State, c: Connection, action: HandlerStep)
    requires HandlerEnabled(s, HandlerOf(s, c), action)
    ensures s.events <= Handled(s, c, action).events
  {
  }

  lemma SameOwing(s: State, t: State, d: Connection, r: Request)
    requires HandlerOf(t, d) == HandlerOf(s, d) && Pending(t, d) == Pending(s, d)
    ensures WillSettle(t, d, r) <==> WillSettle(s, d, r)
  {
  }

  lemma RegisterKeepsAwaited(s: State)
    requires ConnectionsInv(s) && AwaitInv(s) && s.acceptor.Holding?
    ensures AwaitInv(Apply(s, Register))
  {
    hide WillSettle, HandlerInv, Apart;
    var t := Apply(s, Register);
    if s.stopper.Awaiting? {
      forall r | r in t.stopper.events && r !in t.events
        ensures exists d <- t.pending :: WillSettle(t, d, r)
      {
        var d :| d in s.pending && WillSettle(s, d, r);
        SameOwing(s, t, d, r);
        assert d in t.pending && WillSettle(t, d, r);
      }
    }
  }

  /** What `stop` comes to await is pending on the connection it visits. */
  lemma StopKeepsAwaited(s: State, act: StopStep)
    requires ConnectionsInv(s) && AwaitInv(s) && StopEnabled(s, act)
    ensures AwaitInv(Stopping(s, act))
  {
    hide HandlerInv, Apart;
    var t := Stopping(s, act);
    forall r | t.stopper.Awaiting? && r in t.stopper.events && r !in t.events
      ensures exists d <- t.pending :: WillSettle(t, d, r)
    {
      if act.Visit? {
        assert act.next in t.pending && WillSettle(t, act.next, r);
      } else {
        var d :| d in s.pending && WillSettle(s, d, r);
        assert d in t.pending && WillSettle(t, d, r);
      }
    }
  }

  lemma AwaitedPreserved(s: State, step: Step)
    requires ConnectionsInv(s) && AwaitInv(s) && Enabled(s, step)
    ensures AwaitInv(Apply(s, step))
  {
    hide Handled, HandlerEnabled, WillSettle, ConnectionsInv, Stopping, StopEnabled;
    match step {
      case Handle(c, action) => HandlerKeepsAwaited(s, c, action);
      case Stop(act) => StopKeepsAwaited(s, act);
      case Register => RegisterKeepsAwaited(s);
      case _ => NobodyMoves(s, Apply(s, step));
    }
  }

  lemma NobodyMoves(s: State, t: State)
    requires AwaitInv(s) && t.stopper == s.stopper && t.events == s.events
    requires t.pending == s.pending && t.handlers == s.handlers
    ensures AwaitInv(t)
  {
    hide WillSettle;
    forall r | t.stopper.Awaiting? && r in t.stopper.events && r !in t.events
      ensures exists d <- t.pending :: WillSettle(t, d, r)
    {
      var d :| d in s.pending && WillSettle(s, d, r);
      SameOwing(s, t, d, r);
      assert d in t.pending && WillSettle(t, d, r);
    }
  }

  // ----- whole runs -----

  /** The steps taken in order, each enabled where it is taken. */
  ghost predicate IsRun(s: State, steps: seq<Step>)
    decreases |steps|
  {
    steps == [] || (Enabled(s, steps[0]) && IsRun(Apply(s, steps[0]), steps[1..]))
  }

  function Exec(s: State, steps: seq<Step>): State
    requires IsRun(s, steps)
    decreases |steps|
  {
    if steps == [] then s else Exec(Apply(s, steps[0]), steps[1..])
  }

  lemma {:induction false} RunKeepsInv(s: State, steps: seq<Step>)
    requires Inv(s) && IsRun(s, steps)
    ensures Inv(Exec(s, steps))
    decreases |steps|
  {
    hide ConnectionsInv, StopperInv, AwaitInv, Enabled, Apply;
    if steps != [] {
      ConnectionsPreserved(s, steps[0]);
      StopperPreserved(s, steps[0]);
      AwaitedPreserved(s, steps[0]);
      RunKeepsInv(Apply(s, steps[0]), steps[1..]);
    }
  }

  lemma StepAfterStop(s: State, step: Step)
    requires s.stop && Enabled(s, step)
    ensures var t := Apply(s, step);
            t.stop && t.registered <= s.registered && t.admitted == s.admitted
              && forall c :: Pending(t, c) <= Pending(s, c)
  {
    hide Handled, HandlerEnabled;
    if step.Handle? { HandlerShrinks(s, step.connection, step.action); }
  }

  // ----- every settled request was answered, and once -----

  /** The request that a handler is about to answer. */
  function Unanswered(h: Handler): set<Request> {
    match h
    case Dispatching(r) => {r}
    case Responding(Some(r), _) => {r}
    case _ => {}
  }

  /** The request that a handler has answered and not signalled yet. */
  function Answered(h: Handler): set<Request> {
    match h
    case Settling(r, _) => {r}
    case Signalling(r, _) => {r}
    case _ => {}
  }

  /** Only while stopping is a request settled without a response. */
  ghost predicate AnswerInv(s: State) {
    && (s.events <= s.sent || s.stop)
    && (forall c :: Answered(HandlerOf(s, c)) <= s.sent || s.stop)
    && s.sent <= s.admitted
    && (forall c :: Unanswered(HandlerOf(s, c)) !! s.sent)
  }

  lemma EnabledIsPending(s: State, c: Connection, action: HandlerStep)
    requires ConnectionsInv(s) && HandlerEnabled(s, HandlerOf(s, c), action)
    ensures HandlerInv(s, c)
  {
    hide HandlerInv, Apart;
    assert HandlerOf(s, c) != Gone;
  }

  lemma OwnIsAdmitted(s: State, c: Connection)
    requires HandlerInv(s, c)
    ensures Unanswered(HandlerOf(s, c)) <= s.admitted
  {
  }

  lemma HandlerKeepsAnswers(s: State, c: Connection, action: HandlerStep)
    requires ConnectionsInv(s) && AnswerInv(s) && HandlerEnabled(s, HandlerOf(s, c), action)
    ensures AnswerInv(Handled(s, c, action))
  {
    hide ConnectionsInv, HandlerInv, Handled, HandlerEnabled, Answered, Unanswered, Apart;
    var t := Handled(s, c, action);
    EnabledIsPending(s, c, action);
    OwnIsAdmitted(s, c);
    HandlerAnswers(s, c, action);
    HandlerShrinks(s, c, action);
    forall d
      ensures Unanswered(HandlerOf(t, d)) !! t.sent && (Answered(HandlerOf(t, d)) <= t.sent || t.stop)
    {
      if d != c {
        OthersMoveNot(s, c, action, d);
        OwnRequests(s, c, d);
      }
    }
  }

  /** One handler's part of the invariant. */
  predicate AnswersAt(s: State, c: Connection) {
    && s.sent <= s.admitted && (s.events <= s.sent || s.stop)
    && Unanswered(HandlerOf(s, c)) !! s.sent && (Answered(HandlerOf(s, c)) <= s.sent || s.stop)
  }

  lemma SendAnswers(s: State, c: Connection, delivered: bool)
    requires HandlerEnabled(s, HandlerOf(s, c), Send(delivered)) && AnswersAt(s, c)
    requires Unanswered(HandlerOf(s, c)) <= s.admitted
    ensures var t := Handled(s, c, Send(delivered));
            s.sent <= t.sent <= s.sent + Unanswered(HandlerOf(s, c)) && AnswersAt(t, c)
  {
  }

  lemma AdmitAnswers(s: State, c: Connection, r: Request)
    requires HandlerEnabled(s, HandlerOf(s, c), Admit(r)) && AnswersAt(s, c)
    ensures var t := Handled(s, c, Admit(r)); t.sent == s.sent && AnswersAt(t, c)
  {
  }

  lemma SignalAnswers(s: State, c: Connection)
    requires HandlerEnabled(s, HandlerOf(s, c), Signal) && AnswersAt(s, c)
    ensures var t := Handled(s, c, Signal); t.sent == s.sent && AnswersAt(t, c)
  {
  }

  lemma OtherAnswers(s: State, c: Connection, action: HandlerStep)
    requires HandlerEnabled(s, HandlerOf(s, c), action) && AnswersAt(s, c)
    requires !action.Send? && !action.Admit? && !action.Signal?
    ensures var t := Handled(s, c, action); t.sent == s.sent && AnswersAt(t, c)
  {
    var t := Handled(s, c, action);
    assert t.sent == s.sent && t.events == s.events && t.admitted == s.admitted && t.stop == s.stop;
    hide AnswersAt;
    assert Unanswered(HandlerOf(t, c)) <= Unanswered(HandlerOf(s, c));
    assert Answered(HandlerOf(t, c)) <= Answered(HandlerOf(s, c)) || s.stop;
    AnswersMove(s, t, c);
  }

  lemma AnswersMove(s: State, t: State, c: Connection)
    requires AnswersAt(s, c)
    requires t.sent == s.sent && t.events == s.events && t.admitted == s.admitted && t.stop == s.stop
    requires Unanswered(HandlerOf(t, c)) <= Unanswered(HandlerOf(s, c))
    requires Answered(HandlerOf(t, c)) <= Answered(HandlerOf(s, c)) || s.stop
    ensures AnswersAt(t, c)
  {
    hide Unanswered, Answered, HandlerOf;
  }

  /** What a step of `c` answers is its own unanswered request, and it comes to settle only what it answered. */
  lemma HandlerAnswers(s: State, c: Connection, action: HandlerStep)
    requires HandlerEnabled(s, HandlerOf(s, c), action) && AnswersAt(s, c)
    requires Unanswered(HandlerOf(s, c)) <= s.admitted
    ensures var t := Handled(s, c, action);
            s.sent <= t.sent <= s.sent + Unanswered(HandlerOf(s, c)) && AnswersAt(t, c)
  {
    hide Handled, HandlerEnabled, AnswersAt, Unanswered, HandlerOf;
    match action {
      case Send(delivered) => SendAnswers(s, c, delivered);
      case Admit(r) => AdmitAnswers(s, c, r);
      case Signal => SignalAnswers(s, c);
      case _ => OtherAnswers(s, c, action);
    }
  }

  lemma OthersMoveNot(s: State, c: Connection, action: HandlerStep, d: Connection)
    requires HandlerEnabled(s, HandlerOf(s, c), action) && d != c
    ensures HandlerOf(Handled(s, c, action), d) == HandlerOf(s, d)
  {
  }

  /** Two handlers never hold the same request. */
  lemma OwnRequests(s: State, c: Connection, d: Connection)
    requires ConnectionsInv(s) && c != d
    ensures Unanswered(HandlerOf(s, c)) !! Unanswered(HandlerOf(s, d))
  {
    if c in s.handlers && d in s.handlers {
      assert HandlerInv(s, c) && HandlerInv(s, d) && Apart(s, c, d);
      assert Unanswered(HandlerOf(s, c)) <= Pending(s, c) && Unanswered(HandlerOf(s, d)) <= Pending(s, d);
    }
  }

  lemma StepKeepsAnswers(s: State, step: Step)
    requires ConnectionsInv(s) && AnswerInv(s) && Enabled(s, step)
    ensures AnswerInv(Apply(s, step))
  {
    hide ConnectionsInv, Handled, HandlerEnabled, Stopping, StopEnabled, Answered, Unanswered;
    match step {
      case Handle(c, action) => HandlerKeepsAnswers(s, c, action);
      case Register => NewHandlerOwesNothing(s);
      case Stop(act) => StopsHandleNothing(s, act);
      case _ => NobodyAnswers(s, Apply(s, step));
    }
  }

  lemma StopsHandleNothing(s: State, act: StopStep)
    requires AnswerInv(s) && StopEnabled(s, act)
    ensures AnswerInv(Stopping(s, act))
  {
    hide AnswerInv;
    NobodyAnswers(s, Stopping(s, act));
  }

  lemma NobodyAnswers(s: State, t: State)
    requires AnswerInv(s) && (s.stop ==> t.stop)
    requires t.handlers == s.handlers && t.sent == s.sent && t.events == s.events && t.admitted == s.admitted
    ensures AnswerInv(t)
  {
    hide Answered, Unanswered;
    assert forall d :: HandlerOf(t, d) == HandlerOf(s, d);
  }

  lemma NewHandlerOwesNothing(s: State)
    requires AnswerInv(s) && Enabled(s, Register)
    ensures AnswerInv(Apply(s, Register))
  {
    var t := Apply(s, Register);
    assert forall d :: HandlerOf(t, d) == HandlerOf(s, d) || HandlerOf(t, d) == Looping;
  }

  lemma {:induction false} RunKeepsAnswers(s: State, steps: seq<Step>)
    requires Inv(s) && AnswerInv(s) && IsRun(s, steps)
    ensures AnswerInv(Exec(s, steps))
    decreases |steps|
  {
    hide ConnectionsInv, StopperInv, AwaitInv, AnswerInv, Enabled, Apply;
    if steps != [] {
      ConnectionsPreserved(s, steps[0]);
      StopperPreserved(s, steps[0]);
      AwaitedPreserved(s, steps[0]);
      StepKeepsAnswers(s, steps[0]);
      RunKeepsAnswers(Apply(s, steps[0]), steps[1..]);
    }
  }

  /**
   * In every reachable state: unless the server is stopping, a settled event is only set for a request whose
   * response was sent, and no request is answered a second time.
   */
  lemma SettledMeansAnswered(steps: seq<Step>, r: Request, c: Connection, delivered: bool)
    requires IsRun(Initial(), steps)
    ensures var s := Exec(Initial(), steps);
            && (r in s.events ==> r in s.sent || s.stop) && s.sent <= s.admitted
            && (Enabled(s, Handle(c, Send(delivered))) ==> forall q <- Unanswered(HandlerOf(s, c)) :: q !in s.sent)
  {
    hide IsRun, Exec;
    RunStartsWell();
    RunKeepsAnswers(Initial(), steps);
    var s := Exec(Initial(), steps);
    assert Unanswered(HandlerOf(s, c)) !! s.sent;
  }

  // ----- a run that answers -----

  lemma {:induction false} OneMore(s: State, steps: seq<Step>, step: Step)
    requires IsRun(s, steps) && Enabled(Exec(s, steps), step)
    ensures IsRun(s, steps + [step]) && Exec(s, steps + [step]) == Apply(Exec(s, steps), step)
    decreases |steps|
  {
    hide Enabled, Apply;
    if steps == [] {
      assert [] + [step] == [step] && [step][1..] == [];
      assert IsRun(Apply(s, step), []) && Exec(Apply(s, step), []) == Apply(s, step);
    } else {
      assert (steps + [step])[0] == steps[0] && (steps + [step])[1..] == steps[1..] + [step];
      OneMore(Apply(s, steps[0]), steps[1..], step);
    }
  }

  ghost predicate Reachable(s: State) {
    exists steps :: IsRun(Initial(), steps) && Exec(Initial(), steps) == s
  }

  lemma Reached(s: State, step: Step) returns (t: State)
    requires Reachable(s) && Enabled(s, step)
    ensures t == Apply(s, step) && Reachable(t)
  {
    hide IsRun, Exec, Enabled, Apply;
    var steps :| IsRun(Initial(), steps) && Exec(Initial(), steps) == s;
    OneMore(Initial(), steps, step);
    t := Apply(s, step);
  }

  lemma AtStart() returns (s: State)
    ensures s == Initial() && Reachable(s)
  {
    s := Initial();
    assert IsRun(Initial(), []) && Exec(Initial(), []) == s;
  }

  /** The state in which connection `c` is the only one, with its handler at `h`. */
  function Alone(c: Connection, h: Handler, pending: set<Request>, admitted: set<Request>, sent: set<Request>,
                 events: set<Request>): State
  {
    State(false, false, {c}, {c}, map[c := pending], map[c := h], admitted, sent, events, {}, Accepting,
          NotStopping, {})
  }

  lemma Connected(c: Connection) returns (s: State)
    ensures Reachable(s) && s == Alone(c, Looping, {}, {}, {}, {})
  {
    hide Reachable;
    s := AtStart();
    s := Reached(s, Accept(c));
    s := Reached(s, Register);
    assert s.known == {c} && s.registered == {c};
  }

  lemma Admitted(c: Connection, r: Request) returns (s: State)
    ensures Reachable(s) && s == Alone(c, Dispatching(r), {r}, {r}, {}, {})
  {
    hide Reachable;
    s := Connected(c);
    s := Reached(s, Handle(c, TestStop));
    s := Reached(s, Handle(c, FrameReceived));
    s := Reached(s, Handle(c, Admit(r)));
    assert {} + {r} == {r};
    assert s.handlers == map[c := Dispatching(r)] && s.pending == map[c := {r}] && s.admitted == {r};
  }

  /** A request is received, admitted, answered and settled, and the handler goes back to its loop. */
  lemma AnsweredRequest(c: Connection, r: Request) returns (s: State)
    ensures Reachable(s) && s == Alone(c, Looping, {}, {r}, {r}, {r})
  {
    hide Reachable;
    s := Admitted(c, r);
    s := Reached(s, Handle(c, DispatchDone(false)));
    s := Reached(s, Handle(c, Send(true)));
    s := Reached(s, Handle(c, Settle));
    s := Reached(s, Handle(c, Signal));
    assert {r} - {r} == {};
    assert s.handlers == map[c := Looping] && s.pending == map[c := {}];
    assert s.sent == {r} && s.events == {r};
  }

  /** Once the stop flag is set, no run registers a connection or admits a request. */
  lemma {:induction false} NothingNewAfterStop(s: State, steps: seq<Step>)
    requires s.stop && IsRun(s, steps)
    ensures Exec(s, steps).stop
    ensures Exec(s, steps).registered <= s.registered && Exec(s, steps).admitted == s.admitted
    ensures forall c :: Pending(Exec(s, steps), c) <= Pending(s, c)
    decreases |steps|
  {
    hide Enabled, Apply, Pending;
    if steps != [] {
      StepAfterStop(s, steps[0]);
      NothingNewAfterStop(Apply(s, steps[0]), steps[1..]);
    }
  }

  /** In every reachable state each connection has at most one pending response, of an admitted request. */
  lemma AtMostOnePending(steps: seq<Step>, c: Connection)
    requires IsRun(Initial(), steps)
    ensures var s := Exec(Initial(), steps); |Pending(s, c)| <= 1 && Pending(s, c) <= s.admitted
  {
    hide IsRun, Exec, StopperInv;
    RunStartsWell();
    RunKeepsInv(Initial(), steps);
    var s := Exec(Initial(), steps);
    if c in s.pending { assert HandlerInv(s, c); }
  }

  lemma RunStartsWell()
    ensures Inv(Initial())
  {
  }

  /**
   * A connection that `stop` closed has no unsettled admitted request, and no handler still answering one,
   * unless the deadline has passed.
   */
  lemma StopClosesOnlyQuiet(steps: seq<Step>, c: Connection)
    requires IsRun(Initial(), steps)
    ensures var s := Exec(Initial(), steps);
            c in s.closedByStop ==> s.expired || (Pending(s, c) == {} && Owed(HandlerOf(s, c)) == {})
  {
    hide IsRun, Exec;
    RunStartsWell();
    RunKeepsInv(Initial(), steps);
    var s := Exec(Initial(), steps);
    assert c in s.closedByStop ==> Quiet(s, c);
    if c in s.pending { assert HandlerInv(s, c); }
  }

  /** When `stop` has closed its last snapshot, every connection still registered has been closed. */
  lemma StoppedMeansAllClosed(steps: seq<Step>)
    requires IsRun(Initial(), steps)
    ensures var s := Exec(Initial(), steps); s.stopper.Stopped? ==> s.registered <= s.closedByStop
  {
    hide IsRun, Exec, ConnectionsInv;
    RunStartsWell();
    RunKeepsInv(Initial(), steps);
  }

  /**
   * `stop` never waits in vain: an event it still awaits belongs to a handler that owes it or is about to
   * set it, or whose handler crashed; then only the deadline ends the wait.
   */
  lemma AwaitedWillBeSettled(steps: seq<Step>, r: Request)
    requires IsRun(Initial(), steps)
    ensures var s := Exec(Initial(), steps);
            s.stopper.Awaiting? && r in s.stopper.events && r !in s.events ==>
              exists c :: || r in Owed(HandlerOf(s, c))
                          || (HandlerOf(s, c).Signalling? && HandlerOf(s, c).signalled == r)
                          || (c in s.crashed && r in Pending(s, c))
  {
    hide IsRun, Exec, StopperInv;
    RunStartsWell();
    RunKeepsInv(Initial(), steps);
    var s := Exec(Initial(), steps);
    if s.stopper.Awaiting? && r in s.stopper.events && r !in s.events {
      var c :| c in s.pending && WillSettle(s, c, r);
      assert HandlerInv(s, c);
    }
  }
}
