/** From the bytes on a worker's stdout to the conclusion of its execution (worker_supervisor.py). */
module WorkerRun {
  import opened Bytes
  import opened Json
  import opened Unicode
  import opened WorkerEgress
  import opened StdoutReader
  import opened ExecutionResult

  /** What happened to the run apart from its stdout. */
  datatype Surroundings = Surroundings(
    escaped: Option<Text>,          // a ContainmentError or OSError caught by WorkerSupervisor.run
    launchError: Option<Text>,      // spawn failed
    returncode: int,
    identityError: Option<Text>,    // the identity of a live worker could not be recorded
    stderrLogFailed: bool,            // a stderr text could not be written to the execution log
    logError: Text,                 // the message of the last failed log write
    interruptionKind: Option<Text>,
    interruptionError: Option<Text>,
    promptError: Option<Text>,
    emptied: bool,                    // wait_empty saw the cgroup empty
    populatedError: Text,
    destroyError: Option<Text>)

  /** Python's `error or other`. */
  function OrElse(error: Option<Text>, other: Text): Option<Text> {
    Some(Or(error, other))
  }

  /** Which of the errors of a run becomes its transport error. */
  function TransportOf(stream: Option<Text>, logFailed: bool, a: Surroundings): Option<Text> {
    var first :=
      if a.identityError.Some? then a.identityError
      else if logFailed then Some(a.logError)
      else if a.interruptionError.Some? then a.interruptionError
      else if a.promptError.Some? && a.interruptionKind.None? then OrElse(stream, a.promptError.value)
      else stream;
    if !a.emptied then OrElse(first, a.populatedError)
    else if a.destroyError.Some? then OrElse(first, a.destroyError.value)
    else first
  }

  function FinalReader(stdout: bytes, decode: bytes -> Decoded, writes: nat -> Writes): Reader {
    ReadAll(Reader(Parsed(None, None), None, false, true), Lines(stdout), 0, decode, writes)
  }

  /** What WorkerSupervisor.run returns. */
  function RunResult(stdout: bytes, decode: bytes -> Decoded, writes: nat -> Writes, a: Surroundings): WorkerRunResult {
    if a.escaped.Some? then WorkerRunResult(-1, a.escaped, None, None, None, true, false)
    else if a.launchError.Some? then
      var (claim, problem) := Finished(Parsed(None, None));
      WorkerRunResult(-1, Some(U("execution containment failed: ") + a.launchError.value),
                     claim, problem, None, false, false)
    else
      var end := FinalReader(stdout, decode, writes);
      var (claim, problem) := Finished(end.parsed);
      WorkerRunResult(a.returncode, TransportOf(end.transport, end.logFailed || a.stderrLogFailed, a), claim, problem,
                      a.interruptionKind, a.emptied && a.destroyError.None?, true)
  }

  method Run(pipe: Pipe, decode: bytes -> Decoded, writes: nat -> Writes, a: Surroundings) returns (r: WorkerRunResult)
    requires pipe.Valid()
    modifies pipe
    ensures r == RunResult(old(pipe.Rest()), decode, writes, a)
  {
    hide ReadAll, Lines;
    var parser := new WorkerEgressParser();
    if a.launchError.Some? && a.escaped.None? {
      var claim, problem := parser.Finish();
      return WorkerRunResult(-1, Some(U("execution containment failed: ") + a.launchError.value), claim, problem, None,
                             false, false);
    }
    var transportError, logFailed, _ := ConsumeStdout(pipe, parser, decode, writes);
    if a.escaped.Some? {
      return WorkerRunResult(-1, a.escaped, None, None, None, true, false);
    }
    if a.identityError.Some? {
      transportError := a.identityError;
    } else if logFailed || a.stderrLogFailed {
      transportError := Some(a.logError);
    } else if a.interruptionError.Some? {
      transportError := a.interruptionError;
    } else if a.promptError.Some? && a.interruptionKind.None? {
      transportError := OrElse(transportError, a.promptError.value);
    }
    var retired := a.emptied;
    if !retired {
      transportError := OrElse(transportError, a.populatedError);
    } else if a.destroyError.Some? {
      transportError := OrElse(transportError, a.destroyError.value);
      retired := false;
    }
    var claim, problem := parser.Finish();
    r := WorkerRunResult(a.returncode, transportError, claim, problem, a.interruptionKind, retired, true);
  }

  // ----- the conclusion -----

  /** Launch, exit status, log, interruption, prompt and retirement all went well. */
  predicate Undisturbed(a: Surroundings) {
    && a.escaped.None? && a.launchError.None? && a.returncode == 0 && a.identityError.None? && !a.stderrLogFailed
    && a.interruptionError.None? && (a.promptError.None? || a.interruptionKind.Some?)
    && a.emptied && a.destroyError.None?
  }

  function Concluded(stdout: bytes, decode: bytes -> Decoded, writes: nat -> Writes, a: Surroundings, lib: Library)
    : Result<ExecutionResult, string>
  {
    BuildResult(RunResult(stdout, decode, writes, a), lib)
  }

  /** The events of the records that the reader thread takes before it ends. */
  function EventsTaken(stdout: bytes, decode: bytes -> Decoded, writes: nat -> Writes): seq<Json> {
    Events(Taken(Lines(stdout), 0, decode, writes), decode)
  }

  /** The run's conclusion is the outcome of this claim. */
  predicate SucceedsWith(stdout: bytes, decode: bytes -> Decoded, writes: nat -> Writes, a: Surroundings, lib: Library,
                         claim: Claim)
  {
    var r := Concluded(stdout, decode, writes, a, lib);
    r.Ok? && r.value.conclusion != U("failed") && r.value.conclusion == claim.outcome && r.value.claim == Some(claim)
  }

  lemma TransportCleanExactly(stream: Option<Text>, logFailed: bool, a: Surroundings)
    ensures Undisturbed(a) && !logFailed && stream.None?
       <==> (a.escaped.None? && a.launchError.None? && a.returncode == 0
             && TransportOf(stream, logFailed || a.stderrLogFailed, a).None?)
  {
  }

  /** The errors of a run by precedence; what the reader saw comes after its own log and before the prompt. */
  function Errors(stream: Option<Text>, logFailed: bool, a: Surroundings): (errors: seq<Option<Text>>)
    ensures |errors| == 7
  {
    [ a.identityError, if logFailed then Some(a.logError) else None, a.interruptionError, stream,
      if a.interruptionKind.None? then a.promptError else None,
      if a.emptied then None else Some(a.populatedError),
      if a.emptied then a.destroyError else None]
  }

  /** Every error but that of destroy has a text, since its message starts with fixed words. */
  predicate SayWhat(errors: seq<Option<Text>>) {
    forall i :: 0 <= i < |errors| - 1 ==> errors[i] != Some([])
  }

  /** The transport error is the first of them. */
  lemma TransportIsFirst(stream: Option<Text>, logFailed: bool, a: Surroundings)
    requires SayWhat(Errors(stream, logFailed, a))
    ensures TransportOf(stream, logFailed, a) == First(Errors(stream, logFailed, a))
  {
    var e := Errors(stream, logFailed, a);
    assert e[0] != Some([]) && e[1] != Some([]) && e[2] != Some([]) && e[3] != Some([]);
    assert e[4] != Some([]) && e[5] != Some([]);
    FirstOfTwo(e);
    FirstOfFive(e[2..]);
  }

  lemma FirstOfTwo(s: seq<Option<Text>>)
    requires |s| == 7
    ensures First(s) == if s[0].Some? then s[0] else if s[1].Some? then s[1] else First(s[2..])
  {
    assert s[1..][1..] == s[2..];
  }

  /** The flags of a run: started unless it never got that far, and retired when the cgroup was emptied and removed. */
  lemma FlagsExactly(stdout: bytes, decode: bytes -> Decoded, writes: nat -> Writes, a: Surroundings)
    ensures var r := RunResult(stdout, decode, writes, a);
            && (r.started <==> a.escaped.None? && a.launchError.None?)
            && (r.retired <==> a.escaped.Some? || (a.launchError.None? && a.emptied && a.destroyError.None?))
            && (r.started ==> r.returncode == a.returncode && r.interruptionKind == a.interruptionKind)
            && (r.claim.Some? ==> r.egressError.None?) && (a.escaped.None? && r.claim.None? ==> r.egressError.Some?)
  {
    hide ReadAll, Lines, TransportOf;
  }

  /** What BuildResult concludes is not a failure exactly when nothing at all went wrong. */
  lemma NotFailedExactly(run: WorkerRunResult, lib: Library)
    requires run.claim.Some? ==> IsOutcome(run.claim.value.outcome) && run.egressError.None?
    ensures BuildResult(run, lib).Ok?
    ensures BuildResult(run, lib).value.conclusion != U("failed")
       <==> run.started && run.returncode == 0 && run.transportError.None? && run.egressError.None? && run.claim.Some?
    ensures BuildResult(run, lib).value.conclusion != U("failed") ==>
              BuildResult(run, lib).value.conclusion == run.claim.value.outcome
    ensures BuildResult(run, lib).value.claim == run.claim
  {
    hide IntText, Or;
  }

  /** An accepted claim has one of the three outcomes. */
  lemma {:induction false} AcceptedOutcome(p: Parsed, events: seq<Json>)
    requires p.claim.Some? ==> IsOutcome(p.claim.value.outcome)
    ensures var q := ConsumedAll(p, events); q.claim.Some? ==> IsOutcome(q.claim.value.outcome)
    decreases |events|
  {
    if events != [] {
      assert var q := Consumed(p, events[0]); q.claim.Some? ==> IsOutcome(q.claim.value.outcome);
      AcceptedOutcome(Consumed(p, events[0]), events[1..]);
    }
  }

  /**
   * For every stdout byte stream: the conclusion is a claim's outcome exactly when the surroundings are
   * undisturbed, every record before the one that ends the reader (if any does) is within the bound and a
   * supported event, no log write failed, and exactly one event taken is reserved and is that valid claim.
   */
  lemma ConclusionExactly(stdout: bytes, decode: bytes -> Decoded, writes: nat -> Writes, a: Surroundings, lib: Library,
                          claim: Claim)
    ensures SucceedsWith(stdout, decode, writes, a, lib, claim)
       <==> && Undisturbed(a)
            && AllFine(Lines(stdout), 0, decode, writes) && LogKept(Lines(stdout), 0, decode, writes)
            && exists i :: OnlyClaim(EventsTaken(stdout, decode, writes), i, claim)
  {
    hide ReadAll, Lines, AllFine, LogKept, ConsumedAll, Taken, Events, Undisturbed, TransportOf, BuildResult, OnlyClaim;
    var start, end := Reader(Parsed(None, None), None, false, true), FinalReader(stdout, decode, writes);
    var events := EventsTaken(stdout, decode, writes);
    ReadAllMeaning(start, Lines(stdout), 0, decode, writes);
    AcceptsExactlyOne(events, claim);
    AcceptedOutcome(Parsed(None, None), events);
    TransportCleanExactly(end.transport, end.logFailed, a);
    NotFailedExactly(RunResult(stdout, decode, writes, a), lib);
  }

  /** Any conclusion other than "failed" is the outcome of the claim it comes with. */
  lemma NotFailedHasClaim(stdout: bytes, decode: bytes -> Decoded, writes: nat -> Writes, a: Surroundings, lib: Library)
    ensures var r := Concluded(stdout, decode, writes, a, lib);
            && r.Ok?
            && (r.value.conclusion != U("failed") ==>
                  r.value.claim.Some? && SucceedsWith(stdout, decode, writes, a, lib, r.value.claim.value))
  {
    hide ReadAll, Lines, AllFine, LogKept, ConsumedAll, Taken, Events, Undisturbed, TransportOf, BuildResult, OnlyClaim;
    ReadAllMeaning(Reader(Parsed(None, None), None, false, true), Lines(stdout), 0, decode, writes);
    AcceptedOutcome(Parsed(None, None), EventsTaken(stdout, decode, writes));
    NotFailedExactly(RunResult(stdout, decode, writes, a), lib);
  }

  /** Every record of the stream is a supported event, the log was kept, and one event is the claim. */
  ghost predicate Documented(stdout: bytes, decode: bytes -> Decoded, writes: nat -> Writes,
                             a: Surroundings, claim: Claim)
  {
    var lines := Lines(stdout);
    && Undisturbed(a)
    && (forall i :: 0 <= i < |lines| ==> Good(lines[i], decode) && !LosesLog(lines[i], decode, writes(i)))
    && exists i :: OnlyClaim(Events(lines, decode), i, claim)
  }

  /** When no record ends the reader, success is as documented. */
  lemma DocumentedConclusion(stdout: bytes, decode: bytes -> Decoded, writes: nat -> Writes, a: Surroundings,
                             lib: Library, claim: Claim)
    requires forall i :: 0 <= i < |Lines(stdout)| ==> !Stops(Lines(stdout)[i], decode, writes(i))
    ensures SucceedsWith(stdout, decode, writes, a, lib, claim) <==> Documented(stdout, decode, writes, a, claim)
  {
    hide Lines, Good, Stops, LosesLog, OnlyClaim, Events, Undisturbed, SucceedsWith, AllFine, LogKept, Taken;
    WholeStream(Lines(stdout), decode, writes);
    assert EventsTaken(stdout, decode, writes) == Events(Lines(stdout), decode);
    hide EventsTaken;
    ConclusionExactly(stdout, decode, writes, a, lib, claim);
  }

  /** When no record ends the reader, it takes them all. */
  lemma WholeStream(lines: seq<bytes>, decode: bytes -> Decoded, writes: nat -> Writes)
    requires forall i :: 0 <= i < |lines| ==> !Stops(lines[i], decode, writes(i))
    ensures Taken(lines, 0, decode, writes) == lines
    ensures AllFine(lines, 0, decode, writes) && LogKept(lines, 0, decode, writes)
       <==> forall i :: 0 <= i < |lines| ==> Good(lines[i], decode) && !LosesLog(lines[i], decode, writes(i))
  {
    hide Good, Stops, LosesLog;
    assert StopIndex(lines, 0, decode, writes) == |lines|;
    assert AllFine(lines, 0, decode, writes) <==> forall i :: 0 <= i < |lines| ==> Good(lines[i], decode);
    hide AllFine;
    LogKeptByLine(lines, decode, writes);
  }

  lemma LogKeptByLine(lines: seq<bytes>, decode: bytes -> Decoded, writes: nat -> Writes)
    requires Taken(lines, 0, decode, writes) == lines
    ensures LogKept(lines, 0, decode, writes)
       <==> forall i :: 0 <= i < |lines| ==> !LosesLog(lines[i], decode, writes(i))
  {
    hide LosesLog;
    if LogKept(lines, 0, decode, writes) {
      forall i | 0 <= i < |lines| ensures !LosesLog(lines[i], decode, writes(i)) {
        assert !LosesLog(lines[i], decode, writes(0 + i));
      }
    }
  }

  // ----- which events are supported, read off their paths -----

  const EVENT_TYPES: seq<Text> :=
    [U("error"), U("reasoning"), U("step_finish"), U("step_start"), U("text"), U("tool_use")]

  const TOOL_STATUSES: seq<Text> := [U("pending"), U("running"), U("completed"), U("error")]

  /** One of some texts. */
  predicate OneOf(value: Json, texts: seq<Text>) {
    value.Str? && value.s in texts
  }

  predicate HasType(event: Json, types: seq<Text>) {
    OneOf(At(event, [Key.Type]), types)
  }

  /**
   * An event is supported exactly when its type is, a text or reasoning event has a text, and a tool event names
   * its tool and has a known status. It raises in the reader exactly when the type, or the status of a tool event
   * that is well-formed otherwise, is a list or an object; every other event is a protocol error.
   */
  lemma JudgedExactly(event: Json)
    ensures Judge(event).Supported?
       <==> && HasType(event, EVENT_TYPES)
            && (HasType(event, [U("text"), U("reasoning")]) ==> At(event, [Key.Part, Key.Text]).Str?)
            && (HasType(event, [U("tool_use")]) ==>
                  && At(event, [Key.Part, Key.Tool]).Str?
                  && OneOf(At(event, [Key.Part, Key.State, Key.Status]), TOOL_STATUSES))
    ensures Judge(event).Unhandled?
       <==> || Unhashable(At(event, [Key.Type]))
            || (HasType(event, [U("tool_use")]) && At(event, [Key.Part, Key.Tool]).Str?
                && Unhashable(At(event, [Key.Part, Key.State, Key.Status])))
  {
    hide At;
    AtOne(event, Key.Type);
    AtOne(event, Key.Part);
    AtTwo(event, Key.Part, Key.Text);
    AtTwo(event, Key.Part, Key.Tool);
    AtTwo(event, Key.Part, Key.State);
    AtThree(event, Key.Part, Key.State, Key.Status);
    var part, state := At(event, [Key.Part]), At(event, [Key.Part, Key.State]);
    AtOne(part, Key.Text);
    AtOne(part, Key.Tool);
    AtOne(part, Key.State);
    AtOne(state, Key.Status);
  }

  /** Which part of an event a protocol error complains about. */
  lemma RejectedExactly(event: Json)
    requires Judge(event).Rejected?
    ensures Judge(event).message ==
              if !HasType(event, EVENT_TYPES) then U("unsupported event on stdout")
              else if HasType(event, [U("tool_use")]) then U("invalid tool event on stdout")
              else U("text event has no text part")
  {
    hide At;
    AtOne(event, Key.Type);
  }

  function AsText(value: Json): Option<Text> {
    if value.Str? then Some(value.s) else None
  }

  /** The message of an error: the first text among itself, its message, that of its data, and its name. */
  lemma ErrorMessageIsFirst(error: Json)
    ensures ErrorMessage(error) == First([
              AsText(error), AsText(At(error, [Key.Message])), AsText(At(error, [Key.Data, Key.Message])),
              AsText(At(error, [Key.Name])), None])
  {
    hide At;
    AtOne(error, Key.Message);
    AtOne(error, Key.Data);
    AtOne(error, Key.Name);
    AtTwo(error, Key.Data, Key.Message);
    AtOne(At(error, [Key.Data]), Key.Message);
    FirstOfFive([AsText(error), AsText(At(error, [Key.Message])), AsText(At(error, [Key.Data, Key.Message])),
                 AsText(At(error, [Key.Name])), None]);
  }

  /** What a supported event shows: texts, tools, and errors that say something. */
  lemma ShowsExactly(event: Json)
    requires Judge(event).Supported?
    ensures Shows(event)
       <==> || HasType(event, [U("text"), U("reasoning"), U("tool_use")])
            || (HasType(event, [U("error")]) && ErrorMessage(At(event, [Key.Error])) !in [None, Some([])])
  {
    hide At, ErrorMessage;
    AtOne(event, Key.Type);
    AtOne(event, Key.Error);
    assert U("") == [];
    assert U("error") !in [U("text"), U("reasoning"), U("tool_use")];
  }

  // ----- when the documented conclusion is what the code concludes -----

  /** Success is as documented, whatever the surroundings, on a terminal that takes what it is given. */
  ghost predicate MeetsDocumentation(stdout: bytes, decode: bytes -> Decoded) {
    forall writes: nat -> Writes, a, lib, claim :: (forall k :: !writes(k).displayRaised) ==>
      (SucceedsWith(stdout, decode, writes, a, lib, claim) <==> Documented(stdout, decode, writes, a, claim))
  }

  /** Record `m` is the first that is not good, it is uncaught, and a claim was accepted by then. */
  ghost predicate HidesAfterClaim(lines: seq<bytes>, decode: bytes -> Decoded, m: nat) {
    && m < |lines| && Uncaught(lines[m], decode)
    && (forall i :: 0 <= i < m ==> Good(lines[i], decode))
    && HasClaim(Events(lines[..m + 1], decode))
  }

  ghost predicate HasClaim(events: seq<Json>) {
    exists claim, i :: OnlyClaim(events, i, claim)
  }

  lemma StopsWhenUncaught(line: bytes, decode: bytes -> Decoded, writes: Writes)
    requires !writes.displayRaised
    ensures Stops(line, decode, writes) <==> Uncaught(line, decode) || (Refused(line, decode) && writes.noticeRaised)
    ensures Uncaught(line, decode) || Refused(line, decode) ==> !Good(line, decode)
    ensures Uncaught(line, decode) ==> !Refused(line, decode)
  {
    hide Judge, Shows;
  }

  /** A record that ends the reader decides what was read. */
  lemma FirstUncaught(lines: seq<bytes>, decode: bytes -> Decoded, writes: nat -> Writes, m: nat)
    requires m < |lines| && Stops(lines[m], decode, writes(m)) && !Refused(lines[m], decode)
    requires forall i :: 0 <= i < m ==> !Stops(lines[i], decode, writes(i))
    ensures StopIndex(lines, 0, decode, writes) == m && Taken(lines, 0, decode, writes) == lines[..m + 1]
    ensures AllFine(lines, 0, decode, writes) <==> forall i :: 0 <= i < m ==> Good(lines[i], decode)
  {
    hide Stops, Good, Refused;
    var s := StopIndex(lines, 0, decode, writes);
    assert s < |lines| ==> writes(0 + s) == writes(s);
    assert writes(0 + m) == writes(m);
  }

  /**
   * For every byte stream and decoder: success is as documented if and only if no uncaught record comes right
   * after good records only, with exactly one valid claim among the events up to and including it.
   */
  lemma DocumentedExactly(stdout: bytes, decode: bytes -> Decoded)
    ensures MeetsDocumentation(stdout, decode) <==> !exists m :: HidesAfterClaim(Lines(stdout), decode, m)
  {
    hide Lines, SucceedsWith, Documented, HidesAfterClaim;
    if exists m :: HidesAfterClaim(Lines(stdout), decode, m) {
      var m :| HidesAfterClaim(Lines(stdout), decode, m);
      HiddenRecord(stdout, decode, m);
    } else {
      forall writes: nat -> Writes, a, lib, claim | forall k :: !writes(k).displayRaised
        ensures SucceedsWith(stdout, decode, writes, a, lib, claim) <==> Documented(stdout, decode, writes, a, claim)
      {
        NothingHidden(stdout, decode, writes, a, lib, claim);
      }
    }
  }

  const CALM: Surroundings :=
    Surroundings(None, None, 0, None, false, U(""), None, None, None, true, U(""), None)

  lemma HiddenRecord(stdout: bytes, decode: bytes -> Decoded, m: nat)
    requires HidesAfterClaim(Lines(stdout), decode, m)
    ensures !MeetsDocumentation(stdout, decode)
  {
    hide Lines, SucceedsWith, Good, Refused, Uncaught, Stops, OnlyClaim, Events, AllFine, LogKept, Taken;
    hide MeetsDocumentation;
    var lines := Lines(stdout);
    var writes: nat -> Writes := k => Writes(false, false, false);
    var lib := Library(i => None, s => []);
    var claim, i :| OnlyClaim(Events(lines[..m + 1], decode), i, claim);
    forall j | 0 <= j < m ensures !Stops(lines[j], decode, writes(j)) {
      StopsWhenUncaught(lines[j], decode, writes(j));
    }
    StopsWhenUncaught(lines[m], decode, writes(m));
    FirstUncaught(lines, decode, writes, m);
    NothingLost(lines, decode);
    assert EventsTaken(stdout, decode, writes) == Events(lines[..m + 1], decode);
    ConclusionExactly(stdout, decode, writes, CALM, lib, claim);
    Unmet(stdout, decode, writes, CALM, lib, claim);
  }

  lemma NothingLost(lines: seq<bytes>, decode: bytes -> Decoded)
    ensures LogKept(lines, 0, decode, k => Writes(false, false, false))
  {
  }

  lemma Unmet(stdout: bytes, decode: bytes -> Decoded, writes: nat -> Writes, a: Surroundings, lib: Library,
              claim: Claim)
    requires forall k :: !writes(k).displayRaised
    requires SucceedsWith(stdout, decode, writes, a, lib, claim) && !Documented(stdout, decode, writes, a, claim)
    ensures !MeetsDocumentation(stdout, decode)
  {
    hide SucceedsWith, Documented;
  }

  lemma NothingHidden(stdout: bytes, decode: bytes -> Decoded, writes: nat -> Writes, a: Surroundings, lib: Library,
                      claim: Claim)
    requires forall k :: !writes(k).displayRaised
    requires !exists m :: HidesAfterClaim(Lines(stdout), decode, m)
    ensures SucceedsWith(stdout, decode, writes, a, lib, claim) <==> Documented(stdout, decode, writes, a, claim)
  {
    hide Lines, SucceedsWith, Good, Refused, Uncaught, OnlyClaim, Events, LogKept, Undisturbed, Stops, LosesLog;
    var lines := Lines(stdout);
    var m := StopIndex(lines, 0, decode, writes);
    assert forall i :: 0 <= i < m ==> writes(0 + i) == writes(i);
    ConclusionExactly(stdout, decode, writes, a, lib, claim);
    if m == |lines| {
      DocumentedConclusion(stdout, decode, writes, a, lib, claim);
    } else {
      assert writes(0 + m) == writes(m);
      StopsWhenUncaught(lines[m], decode, writes(m));
      assert EventsTaken(stdout, decode, writes) == Events(lines[..m + 1], decode);
      assert !HidesAfterClaim(lines, decode, m);
    }
  }

  // ----- a record that ends the reader hides all later ones -----

  /** A completed call of the reserved tool. */
  function ReportEvent(input: Json): Json {
    Obj(map[
      Key.Type := Str(U("tool_use")),
      Key.Part := Obj(map[
        Key.Type := Str(U("tool")),
        Key.Tool := Str(U("devlegate_report")),
        Key.State := Obj(map[Key.Status := Str(U("completed")), Key.Input := input])])])
  }

  const PLAIN_CLAIM: map<Key, Json> := map[
    Key.Outcome := Str(U("completed")), Key.Summary := Str(U("")), Key.Remaining := Arr([]), Key.Questions := Arr([])]

  const CLAIM_EVENT: Json := ReportEvent(Obj(PLAIN_CLAIM))

  /** An event whose type is a list: looking it up in the set of supported types raises TypeError. */
  const LIST_TYPED_EVENT: Json := Obj(map[Key.Type := Arr([])])

  lemma ReportEventIsFine(input: Json)
    ensures Judge(ReportEvent(input)).Supported? && Reserved(ReportEvent(input))
    ensures ClaimOf(ReportEvent(input)) == ReadClaim(input)
  {
    hide ReadClaim;
  }

  lemma PlainClaimReads()
    ensures ReadClaim(Obj(PLAIN_CLAIM)) == Ok(Claim(U("completed"), U(""), [], [], None))
  {
    var input := Obj(PLAIN_CLAIM);
    assert input.fields.Keys == CLAIM_FIELDS - {Key.Report};
    assert Get(input, Key.Outcome) == Str(U("completed")) && Get(input, Key.Summary) == Str(U(""));
    assert Get(input, Key.Remaining) == Arr([]) == Get(input, Key.Questions) && Get(input, Key.Report) == Null;
    assert IsStringList(Arr([])) && Texts(Arr([])) == [];
    hide Get, Texts, IsStringList;
  }

  lemma ClaimEventIsFine()
    ensures Judge(CLAIM_EVENT).Supported? && Reserved(CLAIM_EVENT)
    ensures ClaimOf(CLAIM_EVENT) == Ok(Claim(U("completed"), U(""), [], [], None))
  {
    hide Judge, Reserved, ClaimOf, ReportEvent, ReadClaim;
    ReportEventIsFine(Obj(PLAIN_CLAIM));
    PlainClaimReads();
  }

  lemma ListTypedEventEndsReader()
    ensures Judge(LIST_TYPED_EVENT).Unhandled? && !Reserved(LIST_TYPED_EVENT)
    ensures Judge(Obj(map[Key.Type := Obj(map[])])).Unhandled?
  {
  }

  lemma TwoLines(first: byte, second: byte)
    requires first != LF && second != LF
    ensures Lines([first, LF, second, LF]) == [[first, LF], [second, LF]]
  {
    OneLine(first, [second, LF]);
    OneLine(second, []);
    assert [first, LF] + [second, LF] == [first, LF, second, LF];
    assert [second, LF] + [] == [second, LF];
  }

  lemma OneLine(b: byte, rest: bytes)
    requires b != LF
    ensures Lines([b, LF] + rest) == [[b, LF]] + Lines(rest)
  {
    var s := [b, LF] + rest;
    assert s[1..][0] == LF;
    assert FirstLine(s) == 1 + FirstLine(s[1..]) == 2;
    assert s[..2] == [b, LF] && s[2..] == rest;
  }

  function ScriptedDecode(): bytes -> Decoded {
    line => Value(if line == [1, LF] then CLAIM_EVENT else LIST_TYPED_EVENT)
  }

  lemma ScriptedRecords(writes: nat -> Writes)
    requires writes(0) == Writes(false, false, false)
    ensures var lines, decode := [[1, LF], [2, LF]], ScriptedDecode();
            && Good([1, LF], decode) && !Good([2, LF], decode)
            && StopIndex(lines, 0, decode, writes) == 1 && Taken(lines, 0, decode, writes) == lines
            && AllFine(lines, 0, decode, writes) && LogKept(lines, 0, decode, writes)
            && Events(lines, decode) == [CLAIM_EVENT, LIST_TYPED_EVENT]
  {
    var lines: seq<bytes>, decode := [[1, LF], [2, LF]], ScriptedDecode();
    ClaimEventIsFine();
    ListTypedEventEndsReader();
    hide Judge, Reserved, ClaimOf, Shows;
    assert decode([1, LF]) == Value(CLAIM_EVENT) && decode([2, LF]) == Value(LIST_TYPED_EVENT);
    assert !Stops(lines[0], decode, writes(0)) && Stops(lines[1], decode, writes(1));
    assert lines[1..] == [[2, LF]] && lines[1..][1..] == [];
    assert StopIndex(lines[1..], 1, decode, writes) == 0;
    assert Events(lines[1..], decode) == [LIST_TYPED_EVENT] + Events([], decode);
  }

  /**
   * A claim followed by an event with an unhashable type concludes as completed: the reader thread dies
   * without a transport error, although the second record is not a supported event.
   */
  lemma SilentReaderDeath(a: Surroundings, lib: Library, writes: nat -> Writes)
    requires Undisturbed(a) && writes(0) == Writes(false, false, false)
    ensures Lines([1, LF, 2, LF]) == [[1, LF], [2, LF]] && !Good([2, LF], ScriptedDecode())
    ensures SucceedsWith([1, LF, 2, LF], ScriptedDecode(), writes, a, lib, Claim(U("completed"), U(""), [], [], None))
  {
    hide Lines, Good, Events, StopIndex, Taken, AllFine, LogKept, Reserved, ClaimOf, SucceedsWith;
    hide Undisturbed, ScriptedDecode;
    var claim, decode := Claim(U("completed"), U(""), [], [], None), ScriptedDecode();
    TwoLines(1, 2);
    ScriptedRecords(writes);
    ClaimEventIsFine();
    ListTypedEventEndsReader();
    var events := [CLAIM_EVENT, LIST_TYPED_EVENT];
    assert events[..0] == [] && events[1..] == [LIST_TYPED_EVENT];
    assert OnlyClaim(events, 0, claim);
    assert EventsTaken([1, LF, 2, LF], decode, writes) == events;
    ConclusionExactly([1, LF, 2, LF], decode, writes, a, lib, claim);
  }

  // ----- reports that cannot be built -----

  /** A claim whose report UTF-8 cannot encode. */
  predicate Unreportable(claim: Claim) {
    claim.report.Some? && !Encodable(claim.report.value)
  }

  /**
   * For every stdout: `build_execution_report` raises exactly when the worker was started and supervised to
   * its end, and the only reserved event taken is a valid claim with a surrogate in its report.
   */
  lemma UnbuildableExactly(stdout: bytes, decode: bytes -> Decoded, writes: nat -> Writes, a: Surroundings,
                           identity: Identity, lib: Library)
    ensures BuildReport(identity, RunResult(stdout, decode, writes, a), lib).Err?
       <==> && a.escaped.None? && a.launchError.None?
            && exists i, claim :: OnlyClaim(EventsTaken(stdout, decode, writes), i, claim) && Unreportable(claim)
  {
    hide ReadAll, Lines, ConsumedAll, Taken, Events, TransportOf, BuildReport, OnlyClaim, Encodable;
    var run, events := RunResult(stdout, decode, writes, a), EventsTaken(stdout, decode, writes);
    ReadAllMeaning(Reader(Parsed(None, None), None, false, true), Lines(stdout), 0, decode, writes);
    BuildsExactly(identity, run, lib);
    if exists i, claim :: OnlyClaim(events, i, claim) && Unreportable(claim) {
      var i, claim :| OnlyClaim(events, i, claim) && Unreportable(claim);
      AcceptsExactlyOne(events, claim);
    }
    if run.claim.Some? { AcceptsExactlyOne(events, run.claim.value); }
  }

  /** A claim whose report is the escape \ud800, as the JSON decoder returns it. */
  const SURROGATE_EVENT: Json := ReportEvent(Obj(PLAIN_CLAIM[Key.Report := Str([0xD800])]))

  const SURROGATE_CLAIM: Claim := Claim(U("completed"), U(""), [], [], Some([0xD800]))

  lemma SurrogateEventIsFine()
    ensures Judge(SURROGATE_EVENT).Supported? && Reserved(SURROGATE_EVENT)
    ensures ClaimOf(SURROGATE_EVENT) == Ok(SURROGATE_CLAIM)
  {
    hide Judge, Reserved, ClaimOf, ReportEvent;
    ReportEventIsFine(Obj(PLAIN_CLAIM[Key.Report := Str([0xD800])]));
    assert PLAIN_CLAIM[Key.Report := Str([0xD800])].Keys == CLAIM_FIELDS;
    assert Texts(Arr([])) == [];
  }

  lemma SingleRecord(line: bytes, event: Json, writes: nat -> Writes)
    requires line != [] && |line| <= MAX_STDOUT_EVENT_BYTES && Judge(event).Supported?
    requires writes(0) == Writes(false, false, false)
    ensures var lines, decode := [line], (record: bytes) => Value(event);
            && AllFine(lines, 0, decode, writes) && LogKept(lines, 0, decode, writes)
            && Events(Taken(lines, 0, decode, writes), decode) == [event]
  {
    hide Judge, Shows;
    var lines, decode := [line], (record: bytes) => Value(event);
    assert lines[1..] == [];
    assert StopIndex(lines, 0, decode, writes) == 1;
    assert Events([], decode) == [];
  }

  /** One record with such a claim: the run concludes as completed, and its report cannot be built. */
  lemma SurrogateReport(a: Surroundings, identity: Identity, lib: Library, writes: nat -> Writes)
    requires Undisturbed(a) && writes(0) == Writes(false, false, false)
    ensures var decode := (record: bytes) => Value(SURROGATE_EVENT);
            && SucceedsWith([1, LF], decode, writes, a, lib, SURROGATE_CLAIM)
            && BuildReport(identity, RunResult([1, LF], decode, writes, a), lib).Err?
  {
    hide Lines, Good, Events, Taken, AllFine, LogKept, Reserved, ClaimOf, SucceedsWith, Judge, BuildReport, RunResult;
    var decode := (record: bytes) => Value(SURROGATE_EVENT);
    SurrogateEventIsFine();
    OneLine(1, []);
    assert [1, LF] + [] == [1, LF];
    NoLines();
    SingleRecord([1, LF], SURROGATE_EVENT, writes);
    var events := [SURROGATE_EVENT];
    assert events[..0] == [] && events[1..] == [];
    assert OnlyClaim(events, 0, SURROGATE_CLAIM);
    assert Lines([1, LF]) == [[1, LF]];
    assert EventsTaken([1, LF], decode, writes) == events;
    ConclusionExactly([1, LF], decode, writes, a, lib, SURROGATE_CLAIM);
    UnbuildableExactly([1, LF], decode, writes, a, identity, lib);
    assert IsSurrogate(SURROGATE_CLAIM.report.value[0]);
    assert Unreportable(SURROGATE_CLAIM);
  }
}
