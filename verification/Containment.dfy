/**
 * The worker's cgroup, the joiner that enters it, every process forked below it, and the thread that
 * runs `_run_opencode` (worker_supervisor.py, execution_containment.py), as interleaved steps.
 *
 * Linux "Control Group v2", section "Processes": a forked child starts in its parent's cgroup. The
 * steps let no member move out again. Signals are not separate steps: any live process may exit.
 */
module Containment {
  type Pid = nat

  /** The process that `spawn` started. */
  const LEADER: Pid := 0

  /** How far a process is in the trusted joiner; a process forked by the worker starts as Running. */
  datatype Stage = Starting | Opened | Joined | Running

  datatype Process = Process(stage: Stage, inside: bool, alive: bool)

  /** What can go wrong around the cgroup files. */
  datatype Faults = Faults(
    killMayFail: bool,      // writing cgroup.kill raises
    readMayFail: bool,      // reading cgroup.events raises OSError
    removedByOthers: bool,  // somebody else may remove the empty cgroup
    logMayFail: bool)       // writing the service log raises OSError

  /** The fields of OpenCodeRunResult and WorkerRunResult about the worker's processes. */
  datatype Result = Result(retired: bool, started: bool)

  datatype Place =
    | Creating                // in the provider's create
    | Spawning
    | Identifying             // in worker_identity_handler
    | Waiting                 // waiting for the worker or a stop request
    | FirstWait               // finish_interrupted: the bounded wait
    | FirstKill
    | LastWait                // the unbounded wait
    | LastKill
    | Collecting              // joining the reader and prompt threads
    | FirstEmpty              // wait_empty
    | RetireKill              // interrupted and still populated
    | SecondEmpty
    | Destroying              // destroy: reading cgroup.events
    | Removing                // destroy: rmdir
    | Returned(result: Result) // _run_opencode has returned; run is about to log the end
    | Caught                   // in run's except clause, about to log the end in its finally clause
    | Reported(result: Result) // run has returned
    | Raised                   // run has raised

  datatype State = State(
    faults: Faults, procs: map<Pid, Process>, cgroup: bool, place: Place, interrupted: bool)

  function Initial(faults: Faults): State {
    State(faults, map[], false, Creating, false)
  }

  /** Steps of the processes and of the kernel. */
  datatype WorldStep =
    | JoinerOpens
    | JoinerJoins
    | JoinerExecs
    | Fork(parent: Pid, child: Pid)
    | Exit(process: Pid)
    | RemovedByOther

  /** Steps of the supervising thread. */
  datatype SupervisorStep =
    | Create(created: bool) // false: opening the log, or create, raised
    | Spawn(spawned: bool, destroyed: bool)
    | Identify(recorded: bool)
    | WaitEnds
    | Abort(signalled: bool)
    | WaitTimesOut
    | Kill(written: bool)
    | Collect
    | SeesEmpty
    | GivesUp              // the deadline passed, or cgroup.events could not be read
    | DestroyReads
    | DestroyRefused       // ContainmentError: populated, malformed, or rmdir failed
    | DestroyRaises        // OSError from reading cgroup.events
    | Remove               // rmdir succeeded, or the directory was already gone
    | LogEnd(written: bool)
    | LogAgain(written: bool)

  datatype Step = World(world: WorldStep) | Supervisor(act: SupervisorStep)

  predicate Alive(s: State, p: Pid) {
    p in s.procs && s.procs[p].alive
  }

  /** What `populated 1` in cgroup.events says. */
  ghost predicate Populated(s: State) {
    exists p :: Alive(s, p) && s.procs[p].inside
  }

  ghost predicate NobodyAlive(s: State) {
    forall p :: !Alive(s, p)
  }

  predicate LeaderAt(s: State, stage: Stage) {
    Alive(s, LEADER) && s.procs[LEADER].stage == stage
  }

  predicate Killing(place: Place) {
    place == FirstKill || place == LastKill || place == RetireKill
  }

  ghost predicate WorldEnabled(s: State, step: WorldStep) {
    match step
    case JoinerOpens => LeaderAt(s, Starting) && s.cgroup
    case JoinerJoins => LeaderAt(s, Opened) && s.cgroup
    case JoinerExecs => LeaderAt(s, Joined)
    case Fork(parent, child) => Alive(s, parent) && s.procs[parent].stage == Running && child !in s.procs
    case Exit(p) => Alive(s, p)
    case RemovedByOther => s.faults.removedByOthers && s.cgroup && !Populated(s)
  }

  ghost predicate SupervisorEnabled(s: State, act: SupervisorStep) {
    match act
    case Create(_) => s.place == Creating
    case Spawn(_, _) => s.place == Spawning
    case Identify(recorded) => s.place == Identifying && (recorded || Alive(s, LEADER))
    case WaitEnds => (s.place.Waiting? || s.place.FirstWait? || s.place.LastWait?) && !Alive(s, LEADER)
    case Abort(signalled) => s.place == Waiting && (signalled ==> Alive(s, LEADER))
    case WaitTimesOut => s.place == FirstWait
    case Kill(written) => Killing(s.place) && (if written then s.cgroup else s.faults.killMayFail || !s.cgroup)
    case Collect => s.place == Collecting
    case SeesEmpty => (s.place.FirstEmpty? || s.place.SecondEmpty?) && s.cgroup && !Populated(s)
    case GivesUp => (s.place.FirstEmpty? || s.place.SecondEmpty?)
    case DestroyReads => s.place == Destroying && s.cgroup && !Populated(s)
    case DestroyRefused => s.place.Destroying? || s.place.Removing?
    case DestroyRaises => s.place == Destroying && (s.faults.readMayFail || !s.cgroup)
    case Remove => s.place == Removing && (s.cgroup ==> !Populated(s))
    case LogEnd(written) => s.place.Returned? && (!written ==> s.faults.logMayFail && LEADER in s.procs)
    case LogAgain(written) => s.place.Caught? && (!written ==> s.faults.logMayFail && LEADER in s.procs)
  }

  ghost predicate Enabled(s: State, step: Step) {
    match step
    case World(world) => WorldEnabled(s, world)
    case Supervisor(act) => SupervisorEnabled(s, act)
  }

  function Put(s: State, p: Pid, process: Process): State {
    s.(procs := s.procs[p := process])
  }

  ghost function Happens(s: State, step: WorldStep): State
    requires WorldEnabled(s, step)
  {
    match step
    case JoinerOpens => Put(s, LEADER, Process(Opened, false, true))
    case JoinerJoins => Put(s, LEADER, Process(Joined, true, true))
    case JoinerExecs => Put(s, LEADER, s.procs[LEADER].(stage := Running))
    case Fork(parent, child) => Put(s, child, Process(Running, s.procs[parent].inside, true))
    case Exit(p) => Put(s, p, s.procs[p].(alive := false))
    case RemovedByOther => s.(cgroup := false)
  }

  ghost function Proceeds(s: State, act: SupervisorStep): State
    requires SupervisorEnabled(s, act)
  {
    match act
    case Create(created) => if created then s.(cgroup := true, place := Spawning) else s.(place := Caught)
    case Spawn(spawned, destroyed) =>
      if spawned then s.(procs := map[LEADER := Process(Starting, false, true)], place := Identifying)
      else s.(cgroup := s.cgroup && !destroyed, place := Returned(Result(false, false)))
    case Identify(recorded) => s.(place := if recorded then Waiting else FirstWait)
    case WaitEnds => s.(place := if s.place == Waiting then Collecting else LastKill)
    case Abort(signalled) => s.(place := FirstWait, interrupted := signalled)
    case WaitTimesOut => s.(place := FirstKill)
    case Kill(written) =>
      s.(place := if !written then Caught
                  else if s.place == FirstKill then LastWait
                  else if s.place == LastKill then Collecting
                  else SecondEmpty)
    case Collect => s.(place := FirstEmpty)
    case SeesEmpty => s.(place := Destroying)
    case GivesUp =>
      s.(place := if s.place == FirstEmpty && s.interrupted then RetireKill else Returned(Result(false, true)))
    case DestroyReads => s.(place := Removing)
    case DestroyRefused => s.(place := Returned(Result(false, true)))
    case DestroyRaises => s.(place := Caught)
    case Remove => s.(cgroup := false, place := Returned(Result(true, true)))
    case LogEnd(written) => s.(place := if written then Reported(s.place.result) else Caught)
    // The default worker_group_retired, with process_started=False.
    case LogAgain(written) => s.(place := if written then Reported(Result(true, false)) else Raised)
  }

  ghost function Apply(s: State, step: Step): State
    requires Enabled(s, step)
  {
    match step
    case World(world) => Happens(s, world)
    case Supervisor(act) => Proceeds(s, act)
  }

  ghost predicate IsRun(s: State, steps: seq<Step>)
    decreases |steps|
  {
    steps == [] || (Enabled(s, steps[0]) && IsRun(Apply(s, steps[0]), steps[1..]))
  }

  ghost function Exec(s: State, steps: seq<Step>): State
    requires IsRun(s, steps)
    decreases |steps|
  {
    if steps == [] then s else Exec(Apply(s, steps[0]), steps[1..])
  }

  // ----- the invariant -----

  predicate BeforeSpawn(place: Place) {
    place == Creating || place == Spawning
  }

  predicate LeaderReaped(place: Place) {
    || place.LastKill? || place.Collecting? || place.FirstEmpty? || place.RetireKill? || place.SecondEmpty?
    || place.Destroying? || place.Removing?
  }

  predicate SeenEmpty(place: Place) {
    place == Destroying || place == Removing || (place.Returned? && place.result.retired)
  }

  /** Only a leader that has not joined yet is outside, and a removed cgroup has no live member. */
  ghost predicate ProcessesInv(s: State) {
    && (forall p <- s.procs :: s.procs[p].stage == Running || p == LEADER)
    && (forall p <- s.procs :: s.procs[p].inside <==> s.procs[p].stage.Joined? || s.procs[p].stage.Running?)
    && (!s.cgroup ==> !Populated(s))
  }

  ghost predicate PlaceInv(s: State) {
    && (if BeforeSpawn(s.place) then s.procs == map[] else LEADER in s.procs || s.procs == map[])
    && (s.place.Identifying? || s.place.Waiting? || s.place.FirstWait? || s.place.FirstKill? || s.place.LastWait?
        ==> LEADER in s.procs)
    && (LeaderReaped(s.place) ==> LEADER in s.procs && !s.procs[LEADER].alive)
    && (SeenEmpty(s.place) ==> NobodyAlive(s))
    && (s.place.Returned? && s.place.result.retired ==> !s.cgroup && s.place.result.started)
    && (s.place.Returned? ==> (s.place.result.started <==> LEADER in s.procs))
    && (s.place.Returned? && LEADER in s.procs && !s.cgroup && !s.faults.removedByOthers ==> s.place.result.retired)
    && (s.cgroup || s.place.Creating? || s.place.Caught? || s.place.Returned? || s.place.Reported? || s.place.Raised?
        || s.faults.removedByOthers)
  }

  /** What `run` answers, and what it is about to answer in its except clause, under which faults. */
  ghost predicate AnswerInv(s: State) {
    && (s.place.Reported? && LEADER in s.procs && !s.cgroup && !s.faults.removedByOthers ==> s.place.result.retired)
    && (s.place.Reported? && s.place.result.retired && s.faults == Faults(false, false, false, false) ==>
          s.procs == map[] || !s.cgroup)
    && (s.place.Reported? && s.place.result.started ==> LEADER in s.procs)
    && (s.place.Caught? ==> s.procs == map[] || s.faults != Faults(false, false, false, false))
    && (s.place.Caught? ==> NobodyAlive(s) || LiesAboutRetirement(s.faults))
    && (s.place.Reported? && s.place.result.retired ==> NobodyAlive(s) || LiesAboutRetirement(s.faults))
    && (s.place.Reported? && !s.place.result.started ==>
          s.procs == map[] || s.faults != Faults(false, false, false, false))
  }

  /** The faults under which `run` may report a live worker as retired. */
  predicate LiesAboutRetirement(faults: Faults) {
    faults.killMayFail || faults.removedByOthers || faults.logMayFail
  }

  ghost predicate Inv(s: State) {
    ProcessesInv(s) && PlaceInv(s) && AnswerInv(s)
  }

  /** With the leader gone, everything alive is inside, so an unpopulated cgroup means nobody is alive. */
  lemma EmptyMeansNobody(s: State)
    requires ProcessesInv(s) && !Alive(s, LEADER) && !Populated(s)
    ensures NobodyAlive(s)
  {
    assert forall p :: Alive(s, p) ==> s.procs[p].inside;
  }

  /** No process appears except as the child of a live one, and only the joiner enters the cgroup. */
  lemma WorldIsContained(s: State, step: WorldStep)
    requires ProcessesInv(s) && WorldEnabled(s, step)
    ensures NobodyAlive(s) ==> NobodyAlive(Happens(s, step))
    ensures !Alive(s, LEADER) && LEADER in s.procs ==> !Alive(Happens(s, step), LEADER)
    ensures Populated(Happens(s, step)) ==> Populated(s) || step.JoinerJoins?
  {
    var t := Happens(s, step);
    if NobodyAlive(s) {
      assert !Alive(s, LEADER) && step == RemovedByOther;
    }
    if Populated(t) && !step.JoinerJoins? {
      var p :| Alive(t, p) && t.procs[p].inside;
      var q := if step.Fork? && p == step.child then step.parent else p;
      assert Alive(s, q) && s.procs[q].inside;
    }
  }

  lemma WorldKeepsProcesses(s: State, step: WorldStep)
    requires ProcessesInv(s) && WorldEnabled(s, step)
    ensures ProcessesInv(Happens(s, step))
  {
    hide Populated;
    WorldIsContained(s, step);
  }

  lemma WorldKeepsPlace(s: State, step: WorldStep)
    requires ProcessesInv(s) && PlaceInv(s) && WorldEnabled(s, step)
    ensures PlaceInv(Happens(s, step))
  {
    hide Populated, NobodyAlive, ProcessesInv;
    assert s.procs == map[] ==> step == RemovedByOther;
    WorldIsContained(s, step);
  }

  /** An unpopulated cgroup is the only state `destroy` removes it in, and the worker is gone by then. */
  lemma SupervisorKeepsProcesses(s: State, act: SupervisorStep)
    requires Inv(s) && SupervisorEnabled(s, act)
    ensures ProcessesInv(Proceeds(s, act))
  {
    var t := Proceeds(s, act);
    assert t.procs == s.procs || (act.Spawn? && act.spawned);
    if t.procs == s.procs { assert Populated(t) ==> Populated(s); }
    assert s.procs == map[] ==> !Populated(s);
  }

  lemma SupervisorKeepsPlace(s: State, act: SupervisorStep)
    requires Inv(s) && SupervisorEnabled(s, act)
    ensures PlaceInv(Proceeds(s, act))
  {
    hide Populated, ProcessesInv, AnswerInv;
    if act.SeesEmpty? { EmptyMeansNobody(s); }
    var t := Proceeds(s, act);
    assert t.procs == s.procs ==> forall p :: Alive(t, p) ==> Alive(s, p);
  }

  lemma SupervisorKeepsAnswer(s: State, act: SupervisorStep)
    requires Inv(s) && SupervisorEnabled(s, act)
    ensures AnswerInv(Proceeds(s, act))
  {
    hide Populated, ProcessesInv;
    var t := Proceeds(s, act);
    assert t.procs == s.procs ==> forall p :: Alive(t, p) ==> Alive(s, p);
  }

  lemma WorldKeepsAnswer(s: State, step: WorldStep)
    requires Inv(s) && WorldEnabled(s, step)
    ensures AnswerInv(Happens(s, step))
  {
    assert s.place.Reported? ==> LEADER in s.procs || s.procs == map[];
    hide Populated, NobodyAlive, ProcessesInv, PlaceInv;
    WorldIsContained(s, step);
    assert s.procs == map[] ==> step == RemovedByOther;
  }

  lemma StepKeepsInv(s: State, step: Step)
    requires Inv(s) && Enabled(s, step)
    ensures Inv(Apply(s, step)) && Apply(s, step).faults == s.faults
  {
    hide ProcessesInv, PlaceInv, AnswerInv, SupervisorEnabled, WorldEnabled;
    match step {
      case World(world) =>
        WorldKeepsProcesses(s, world);
        WorldKeepsPlace(s, world);
        WorldKeepsAnswer(s, world);
      case Supervisor(act) =>
        SupervisorKeepsProcesses(s, act);
        SupervisorKeepsPlace(s, act);
        SupervisorKeepsAnswer(s, act);
    }
  }

  lemma {:induction false} RunKeepsInv(s: State, steps: seq<Step>)
    requires Inv(s) && IsRun(s, steps)
    ensures Inv(Exec(s, steps)) && Exec(s, steps).faults == s.faults
    decreases |steps|
  {
    hide Inv, Enabled, Apply;
    if steps != [] {
      StepKeepsInv(s, steps[0]);
      RunKeepsInv(Apply(s, steps[0]), steps[1..]);
    }
  }

  /** The states that some run reaches. */
  ghost predicate Reachable(faults: Faults, s: State) {
    exists steps :: IsRun(Initial(faults), steps) && Exec(Initial(faults), steps) == s
  }

  lemma ReachableInv(faults: Faults, s: State)
    requires Reachable(faults, s)
    ensures Inv(s) && s.faults == faults
  {
    hide IsRun, Exec;
    var steps :| IsRun(Initial(faults), steps) && Exec(Initial(faults), steps) == s;
    RunKeepsInv(Initial(faults), steps);
  }

  // ----- what a result says -----

  /**
   * In every interleaving: when `_run_opencode` returns `worker_group_retired`, the worker and every process
   * descended from it are dead and the cgroup is gone.
   */
  lemma RetiredMeansGone(faults: Faults, s: State)
    requires Reachable(faults, s) && s.place.Returned? && s.place.result.retired
    ensures NobodyAlive(s) && !s.cgroup && s.place.result.started
  {
    hide Reachable;
    ReachableInv(faults, s);
  }

  /**
   * What `_run_opencode` answers: "started" exactly when the worker was spawned, and "retired" exactly when it
   * was spawned and its cgroup is gone, unless somebody else removes cgroups.
   */
  lemma ReturnedExactly(faults: Faults, s: State)
    requires Reachable(faults, s) && s.place.Returned?
    ensures s.place.result.started <==> LEADER in s.procs
    ensures !faults.removedByOthers ==> (s.place.result.retired <==> LEADER in s.procs && !s.cgroup)
  {
    hide Reachable;
    ReachableInv(faults, s);
  }

  /** What `run` answers about a spawned worker is never less than that, and just that when nothing raises. */
  lemma ReportedExactly(faults: Faults, s: State)
    requires Reachable(faults, s) && s.place.Reported? && LEADER in s.procs
    ensures !faults.removedByOthers && !s.cgroup ==> s.place.result.retired
    ensures faults == Faults(false, false, false, false) ==>
              s.place.result.started && (s.place.result.retired <==> !s.cgroup)
  {
    hide Reachable;
    ReachableInv(faults, s);
  }

  /** Once everybody is dead after the spawn, no further run brings anybody back. */
  lemma {:induction false} GoneStaysGone(s: State, steps: seq<Step>)
    requires NobodyAlive(s) && LEADER in s.procs && Inv(s) && IsRun(s, steps)
    ensures NobodyAlive(Exec(s, steps))
    decreases |steps|
  {
    hide Inv, NobodyAlive;
    if steps != [] {
      OneStepStaysGone(s, steps[0]);
      StepKeepsInv(s, steps[0]);
      GoneStaysGone(Apply(s, steps[0]), steps[1..]);
    }
  }

  lemma OneStepStaysGone(s: State, step: Step)
    requires NobodyAlive(s) && LEADER in s.procs && Inv(s) && Enabled(s, step)
    ensures NobodyAlive(Apply(s, step)) && LEADER in Apply(s, step).procs
  {
    hide Populated, AnswerInv;
    match step {
      case World(world) => WorldIsContained(s, world);
      case Supervisor(act) =>
        assert !act.Spawn?;
        assert forall p :: Alive(Apply(s, step), p) ==> Alive(s, p);
    }
  }

  /** Whether the retirement that `run` reports is right in every run under these faults. */
  ghost predicate RetirementIsTruthful(faults: Faults) {
    forall s :: Reachable(faults, s) && s.place.Reported? && s.place.result.retired ==> NobodyAlive(s)
  }

  /** Whether `run` reports "not started" only when nothing was started. */
  ghost predicate StartIsTruthful(faults: Faults) {
    forall s :: Reachable(faults, s) && s.place.Reported? && !s.place.result.started ==> s.procs == map[]
  }

  /**
   * The reported retirement is right in every run exactly when cgroup.kill and the service log can be written
   * and nobody else removes the cgroup.
   */
  lemma RetirementIsTruthfulExactly(faults: Faults)
    ensures RetirementIsTruthful(faults) <==> !LiesAboutRetirement(faults)
  {
    hide Reachable, ProcessesInv, PlaceInv;
    if faults.killMayFail || faults.removedByOthers {
      var s := LostWorker(faults);
    } else if faults.logMayFail {
      var s := LeftBehind(faults);
    } else {
      forall s | Reachable(faults, s)
        ensures Inv(s) && s.faults == faults
      {
        ReachableInv(faults, s);
      }
    }
  }

  /** "Not started" is right in every run exactly when neither a cgroup file operation nor the log raises. */
  lemma StartIsTruthfulExactly(faults: Faults)
    ensures StartIsTruthful(faults) <==> faults == Faults(false, false, false, false)
  {
    hide Reachable, ProcessesInv, PlaceInv;
    if faults.killMayFail || faults.removedByOthers {
      var s := LostWorker(faults);
    } else if faults.readMayFail {
      var s := ForgottenWorker(faults);
    } else if faults.logMayFail {
      var s := LeftBehind(faults);
    } else {
      forall s | Reachable(faults, s)
        ensures Inv(s) && s.faults == faults
      {
        ReachableInv(faults, s);
      }
    }
  }

  /**
   * `run` is never stuck: in every reachable state before its end the supervising thread can take a step, or it
   * waits for a live worker whose exit lets it.
   */
  lemma NeverStuck(faults: Faults, s: State)
    requires Reachable(faults, s) && !s.place.Reported? && !s.place.Raised?
    ensures || (exists act :: SupervisorEnabled(s, act))
            || ((s.place.Waiting? || s.place.LastWait?) && WorldEnabled(s, Exit(LEADER))
                && SupervisorEnabled(Happens(s, Exit(LEADER)), WaitEnds))
  {
    hide Reachable;
    ReachableInv(faults, s);
    match s.place {
      case Creating => assert SupervisorEnabled(s, Create(true));
      case Spawning => assert SupervisorEnabled(s, Spawn(true, false));
      case Identifying => assert SupervisorEnabled(s, Identify(true));
      case Waiting | LastWait => if !Alive(s, LEADER) { assert SupervisorEnabled(s, WaitEnds); }
      case FirstWait => assert SupervisorEnabled(s, WaitTimesOut);
      case FirstKill | LastKill | RetireKill => assert SupervisorEnabled(s, Kill(s.cgroup));
      case Collecting => assert SupervisorEnabled(s, Collect);
      case FirstEmpty | SecondEmpty => assert SupervisorEnabled(s, GivesUp);
      case Destroying | Removing => assert SupervisorEnabled(s, DestroyRefused);
      case Returned(_) => assert SupervisorEnabled(s, LogEnd(true));
      case Caught => assert SupervisorEnabled(s, LogAgain(true));
    }
  }

  function Rank(place: Place): nat {
    match place
    case Creating => 16
    case Spawning => 15
    case Identifying => 14
    case Waiting => 13
    case FirstWait => 12
    case FirstKill => 11
    case LastWait => 10
    case LastKill => 9
    case Collecting => 8
    case FirstEmpty => 7
    case RetireKill => 6
    case SecondEmpty => 5
    case Destroying => 4
    case Removing => 3
    case Returned(_) => 2
    case Caught => 1
    case Reported(_) => 0
    case Raised => 0
  }

  /** Every step of the supervising thread brings it closer to its end. */
  lemma ThreadEnds(s: State, act: SupervisorStep)
    requires SupervisorEnabled(s, act)
    ensures Rank(Proceeds(s, act).place) < Rank(s.place)
  {
  }

  // ----- runs that show the faults matter -----

  lemma NoSteps(s: State)
    ensures IsRun(s, []) && Exec(s, []) == s
  {
  }

  lemma {:induction false} OneMore(s: State, steps: seq<Step>, step: Step)
    requires IsRun(s, steps) && Enabled(Exec(s, steps), step)
    ensures IsRun(s, steps + [step]) && Exec(s, steps + [step]) == Apply(Exec(s, steps), step)
    decreases |steps|
  {
    hide Enabled, Apply;
    if steps == [] {
      assert [] + [step] == [step] && [step][1..] == [];
      NoSteps(s);
      NoSteps(Apply(s, step));
    } else {
      assert (steps + [step])[0] == steps[0] && (steps + [step])[1..] == steps[1..] + [step];
      OneMore(Apply(s, steps[0]), steps[1..], step);
    }
  }

  lemma Reached(faults: Faults, s: State, step: Step) returns (t: State)
    requires Reachable(faults, s) && Enabled(s, step)
    ensures t == Apply(s, step) && Reachable(faults, t)
  {
    hide IsRun, Exec, Enabled, Apply;
    var steps :| IsRun(Initial(faults), steps) && Exec(Initial(faults), steps) == s;
    OneMore(Initial(faults), steps, step);
    t := Apply(s, step);
  }

  lemma AtStart(faults: Faults) returns (s: State)
    ensures s == State(faults, map[], false, Creating, false) && Reachable(faults, s)
  {
    NoSteps(Initial(faults));
    s := Initial(faults);
  }

  lemma Spawned(faults: Faults) returns (s: State)
    ensures Reachable(faults, s)
    ensures s == State(faults, map[LEADER := Process(Starting, false, true)], true, Identifying, false)
  {
    hide Reachable;
    s := AtStart(faults);
    s := Reached(faults, s, Supervisor(Create(true)));
    s := Reached(faults, s, Supervisor(Spawn(true, false)));
  }

  /** Nothing was started: the cgroup is removed if that works, and the failure is reported as such. */
  lemma SpawnFailed(faults: Faults, destroyed: bool) returns (s: State)
    ensures Reachable(faults, s)
    ensures s == State(faults, map[], !destroyed, Reported(Result(false, false)), false)
  {
    hide Reachable;
    s := AtStart(faults);
    s := Reached(faults, s, Supervisor(Create(true)));
    s := Reached(faults, s, Supervisor(Spawn(false, destroyed)));
    s := Reached(faults, s, Supervisor(LogEnd(true)));
  }

  /** The leader has just been spawned, and its identity recorded. */
  lemma Started(faults: Faults) returns (s: State)
    ensures Reachable(faults, s)
    ensures s == State(faults, map[LEADER := Process(Starting, false, true)], true, Waiting, false)
  {
    hide Reachable;
    s := Spawned(faults);
    s := Reached(faults, s, Supervisor(Identify(true)));
  }

  /** An interrupted worker that outlives the first wait: the next step writes cgroup.kill. */
  lemma Outliving(faults: Faults) returns (s: State)
    ensures Reachable(faults, s)
    ensures s == State(faults, map[LEADER := Process(Starting, false, true)], true, FirstKill, true)
  {
    hide Reachable;
    s := Started(faults);
    assert Alive(s, LEADER);
    s := Reached(faults, s, Supervisor(Abort(true)));
    s := Reached(faults, s, Supervisor(WaitTimesOut));
  }

  /** When cgroup.kill cannot be written, `run` reports a retired, never started worker that is alive. */
  lemma LostWorker(faults: Faults) returns (s: State)
    requires faults.killMayFail || faults.removedByOthers
    ensures Reachable(faults, s) && s.place == Reported(Result(true, false)) && Alive(s, LEADER)
  {
    hide Reachable;
    s := Outliving(faults);
    if !faults.killMayFail {
      assert !Populated(s);
      s := Reached(faults, s, World(RemovedByOther));
    }
    s := Reached(faults, s, Supervisor(Kill(false)));
    s := Reached(faults, s, Supervisor(LogAgain(true)));
  }

  /** A worker that exits by itself: the next step reads cgroup.events in wait_empty. */
  lemma Exiting(faults: Faults) returns (s: State)
    ensures Reachable(faults, s)
    ensures s == State(faults, map[LEADER := Process(Starting, false, false)], true, FirstEmpty, false)
  {
    hide Reachable;
    s := Started(faults);
    s := Reached(faults, s, World(Exit(LEADER)));
    s := Reached(faults, s, Supervisor(WaitEnds));
    s := Reached(faults, s, Supervisor(Collect));
  }

  /** An empty cgroup is removed, and the end is logged. */
  lemma Retires(faults: Faults, before: State) returns (s: State)
    requires Reachable(faults, before) && (before.place.FirstEmpty? || before.place.SecondEmpty?)
    requires before.cgroup && NobodyAlive(before)
    ensures Reachable(faults, s) && s == before.(cgroup := false, place := Reported(Result(true, true)))
  {
    hide Reachable;
    s := before;
    assert !Populated(s);
    s := Reached(faults, s, Supervisor(SeesEmpty));
    assert !Populated(s);
    s := Reached(faults, s, Supervisor(DestroyReads));
    assert !Populated(s);
    s := Reached(faults, s, Supervisor(Remove));
    s := Reached(faults, s, Supervisor(LogEnd(true)));
  }

  /** A worker that exits by itself is reported as retired and started. */
  lemma CleanRun(faults: Faults) returns (s: State)
    ensures Reachable(faults, s) && s.place == Reported(Result(true, true)) && NobodyAlive(s) && !s.cgroup
  {
    hide Reachable;
    s := Exiting(faults);
    s := Retires(faults, s);
  }

  /** An interrupted worker that outlives the first wait is killed, twice, until its leader is gone. */
  lemma Killed(faults: Faults) returns (s: State)
    ensures Reachable(faults, s)
    ensures s == State(faults, map[LEADER := Process(Starting, false, false)], true, FirstEmpty, true)
  {
    hide Reachable;
    s := Outliving(faults);
    s := Reached(faults, s, Supervisor(Kill(true)));
    s := Reached(faults, s, World(Exit(LEADER)));
    s := Reached(faults, s, Supervisor(WaitEnds));
    s := Reached(faults, s, Supervisor(Kill(true)));
    s := Reached(faults, s, Supervisor(Collect));
  }

  /** Even when wait_empty gives up at first, it kills once more and is then reported as retired and started. */
  lemma StoppedRun(faults: Faults) returns (s: State)
    ensures Reachable(faults, s) && s.place == Reported(Result(true, true)) && NobodyAlive(s) && !s.cgroup
  {
    hide Reachable;
    s := Killed(faults);
    s := Reached(faults, s, Supervisor(GivesUp));
    s := Reached(faults, s, Supervisor(Kill(true)));
    s := Retires(faults, s);
  }

  /**
   * When cgroup.events cannot be read for `destroy`, or is gone, `run` reports that a finished worker never
   * started.
   */
  lemma ForgottenWorker(faults: Faults) returns (s: State)
    requires faults.readMayFail || faults.removedByOthers
    ensures Reachable(faults, s) && s.place == Reported(Result(true, false)) && LEADER in s.procs
  {
    hide Reachable;
    s := Exiting(faults);
    assert !Populated(s);
    s := Reached(faults, s, Supervisor(SeesEmpty));
    if !faults.readMayFail {
      assert !Populated(s);
      s := Reached(faults, s, World(RemovedByOther));
    }
    s := Reached(faults, s, Supervisor(DestroyRaises));
    s := Reached(faults, s, Supervisor(LogAgain(true)));
  }

  /** When the empty cgroup cannot be removed, the worker is reported as started and not retired. */
  lemma KeptCgroup(faults: Faults) returns (s: State)
    ensures Reachable(faults, s) && s.place == Reported(Result(false, true)) && s.cgroup && NobodyAlive(s)
  {
    hide Reachable;
    s := Exiting(faults);
    assert !Populated(s);
    s := Reached(faults, s, Supervisor(SeesEmpty));
    assert !Populated(s);
    s := Reached(faults, s, Supervisor(DestroyReads));
    s := Reached(faults, s, Supervisor(DestroyRefused));
    s := Reached(faults, s, Supervisor(LogEnd(true)));
  }

  /** When the end can never be logged, `run` raises although the worker has been spawned. */
  lemma NeverLogged(faults: Faults) returns (s: State)
    requires faults.logMayFail
    ensures Reachable(faults, s) && s.place == Raised && LEADER in s.procs
  {
    hide Reachable;
    s := Exiting(faults);
    s := Reached(faults, s, Supervisor(GivesUp));
    s := Reached(faults, s, Supervisor(LogEnd(false)));
    s := Reached(faults, s, Supervisor(LogAgain(false)));
  }

  /** A live worker whose identity cannot be recorded is ended and collected. */
  lemma Unidentified(faults: Faults) returns (s: State)
    ensures Reachable(faults, s)
    ensures s == State(faults, map[LEADER := Process(Starting, false, false)], true, FirstEmpty, false)
  {
    hide Reachable;
    s := Spawned(faults);
    assert Alive(s, LEADER);
    s := Reached(faults, s, Supervisor(Identify(false)));
    s := Reached(faults, s, World(Exit(LEADER)));
    s := Reached(faults, s, Supervisor(WaitEnds));
    s := Reached(faults, s, Supervisor(Kill(true)));
    s := Reached(faults, s, Supervisor(Collect));
  }

  /** The worker has joined, replaced the joiner and forked a child. */
  lemma Forked(faults: Faults) returns (s: State)
    ensures Reachable(faults, s)
    ensures s == State(faults, map[LEADER := Process(Running, true, true), 1 := Process(Running, true, true)], true,
                       Waiting, false)
  {
    hide Reachable;
    s := Started(faults);
    s := Reached(faults, s, World(JoinerOpens));
    s := Reached(faults, s, World(JoinerJoins));
    s := Reached(faults, s, World(JoinerExecs));
    s := Reached(faults, s, World(Fork(LEADER, 1)));
  }

  /**
   * When the end cannot be logged at first, `run` reports a worker group as retired and never started although
   * `_run_opencode` has just answered that it is not retired and a forked child is alive.
   */
  lemma LeftBehind(faults: Faults) returns (s: State)
    requires faults.logMayFail
    ensures Reachable(faults, s) && s.place == Reported(Result(true, false)) && Alive(s, 1) && LEADER in s.procs
  {
    hide Reachable;
    s := Forked(faults);
    s := Reached(faults, s, World(Exit(LEADER)));
    s := Reached(faults, s, Supervisor(WaitEnds));
    s := Reached(faults, s, Supervisor(Collect));
    s := Reached(faults, s, Supervisor(GivesUp));
    assert s.place == Returned(Result(false, true));
    s := Reached(faults, s, Supervisor(LogEnd(false)));
    s := Reached(faults, s, Supervisor(LogAgain(true)));
  }
}
