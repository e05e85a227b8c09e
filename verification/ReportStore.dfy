/**
 * `ExecutionReportStore.write` and `read` for the path of one execution (execution_result.py), as file
 * operations of any number of writers, each of which may crash between any two of them.
 */
module ReportStore {
  import opened Bytes
  import opened Json
  import opened Unicode
  import opened ExecutionResult

  type Writer = nat

  // ----- text files -----

  /** What `read_text` makes of a file's text: universal newlines. */
  function Translate(text: Text): Text {
    if text == [] then []
    else if text[0] == RETURN then
      if |text| > 1 && text[1] == NEWLINE then [NEWLINE] + Translate(text[2..]) else [NEWLINE] + Translate(text[1..])
    else [text[0]] + Translate(text[1..])
  }

  predicate HasCR(text: Text) {
    exists i :: 0 <= i < |text| && text[i] == RETURN
  }

  /** Reading back changes a text exactly when it holds a carriage return. */
  lemma {:induction false} TranslateExactly(text: Text)
    ensures !HasCR(Translate(text))
    ensures Translate(text) == text <==> !HasCR(text)
    decreases |text|
  {
    if text != [] {
      var tail := if text[0] == RETURN && |text| > 1 && text[1] == NEWLINE then text[2..] else text[1..];
      TranslateExactly(tail);
      var head := if text[0] == RETURN then NEWLINE else text[0];
      assert Translate(text) == [head] + Translate(tail);
      assert forall i :: 0 < i < |Translate(text)| ==> Translate(text)[i] == Translate(tail)[i - 1];
      if text[0] == RETURN {
        assert Translate(text)[0] != text[0];
      } else {
        assert text == [text[0]] + tail;
        assert Translate(text)[1..] == Translate(tail);
        assert HasCR(text) ==> HasCR(tail) by {
          if HasCR(text) {
            var i :| 0 <= i < |text| && text[i] == RETURN;
            assert tail[i - 1] == RETURN;
          }
        }
        if HasCR(tail) {
          var i :| 0 <= i < |tail| && tail[i] == RETURN;
          assert text[i + 1] == RETURN;
        }
      }
    }
  }

  // ----- the store as file operations -----

  datatype Failure = Invalid | ArtifactExists | AlreadyExists | FileError

  /** Where a writer is in `write`. */
  datatype Place =
    | Checking            // from_dict(as_dict(report))
    | WritingArtifact     // filling the temporary artifact
    | LinkingArtifact     // link(temporary, artifact)
    | Comparing           // the artifact exists: read_text
    | WritingJson
    | LinkingJson         // link(temporary, path): the commit
    | Published
    | Failed(failure: Failure)
    | Crashed

  datatype WriterState = WriterState(report: ExecutionReport, place: Place)

  /** What a report's path is made of. */
  datatype Location = Location(ticketId: Text, executionId: Text)

  function LocationOf(report: ExecutionReport): Location {
    Location(report.identity.ticketId, report.identity.executionId)
  }

  /** The two visible files of one execution path, and the writers at work on it. */
  datatype Store = Store(
    at: Location, artifact: Option<Text>, json: Option<Json>, writers: map<Writer, WriterState>)

  function Empty(at: Location): Store {
    Store(at, None, None, map[])
  }

  datatype Step =
    | Start(writer: Writer, report: ExecutionReport)
    | Advance(writer: Writer)
    | Fail(writer: Writer)      // an OSError other than FileExistsError
    | Crash(writer: Writer)

  predicate Running(place: Place) {
    !place.Published? && !place.Failed? && !place.Crashed?
  }

  predicate Enabled(s: Store, step: Step) {
    match step
    case Start(w, report) => w !in s.writers && LocationOf(report) == s.at
    case Advance(w) => w in s.writers && Running(s.writers[w].place)
    case Fail(w) => w in s.writers && Running(s.writers[w].place) && !s.writers[w].place.Checking?
    case Crash(w) => w in s.writers && Running(s.writers[w].place)
  }

  function Put(s: Store, w: Writer, place: Place): Store
    requires w in s.writers
  {
    s.(writers := s.writers[w := s.writers[w].(place := place)])
  }

  function Long(report: ExecutionReport): Option<Text> {
    LongReport(report.result.claim)
  }

  /** The writer's next file operation. */
  function Next(s: Store, w: Writer, lib: Library): Store
    requires Enabled(s, Advance(w))
  {
    var report := s.writers[w].report;
    match s.writers[w].place
    case Checking =>
      if FromDict(AsDict(report), lib).Err? then Put(s, w, Failed(Invalid))
      else Put(s, w, if Long(report).Some? then WritingArtifact else WritingJson)
    case WritingArtifact => Put(s, w, LinkingArtifact)
    case LinkingArtifact =>
      if s.artifact.Some? then Put(s, w, Comparing)
      else Put(s, w, WritingJson).(artifact := Long(report))
    case Comparing =>
      if s.artifact.None? || Some(Translate(s.artifact.value)) != Long(report) then Put(s, w, Failed(ArtifactExists))
      else Put(s, w, WritingJson)
    case WritingJson => Put(s, w, LinkingJson)
    case LinkingJson =>
      if s.json.Some? then Put(s, w, Failed(AlreadyExists))
      else Put(s, w, Published).(json := Some(AsDict(report)))
    case _ => s
  }

  function Apply(s: Store, step: Step, lib: Library): Store
    requires Enabled(s, step)
  {
    match step
    case Start(w, report) => s.(writers := s.writers[w := WriterState(report, Checking)])
    case Advance(w) => Next(s, w, lib)
    case Fail(w) => Put(s, w, Failed(FileError))
    case Crash(w) => Put(s, w, Crashed)
  }

  predicate IsRun(s: Store, steps: seq<Step>, lib: Library)
    decreases |steps|
  {
    steps == [] || (Enabled(s, steps[0]) && IsRun(Apply(s, steps[0], lib), steps[1..], lib))
  }

  function Exec(s: Store, steps: seq<Step>, lib: Library): Store
    requires IsRun(s, steps, lib)
    decreases |steps|
  {
    if steps == [] then s else Exec(Apply(s, steps[0], lib), steps[1..], lib)
  }

  datatype ReadError = Unavailable | Malformed | IdentityMismatch | IntegrityMismatch

  /** `read` at this store's path. */
  function Read(s: Store, lib: Library): Result<ExecutionReport, ReadError> {
    if s.json.None? then Err(Unavailable)
    else match FromDict(s.json.value, lib)
      case Err(_) => Err(Malformed)
      case Ok(report) =>
        if LocationOf(report) != s.at then Err(IdentityMismatch)
        else if report.artifact.None? then Ok(report)
        else if s.artifact.None? then Err(Unavailable)
        else if Digest(Translate(s.artifact.value), lib) != report.sha256 then Err(IntegrityMismatch)
        else Ok(report)
  }

  // ----- the invariant -----

  /** The visible artifact belongs to this text: it is the text, or reads back as it. */
  predicate Backed(s: Store, long: Option<Text>) {
    long.Some? ==> s.artifact.Some? && (s.artifact == long || Some(Translate(s.artifact.value)) == long)
  }

  /** Past the artifact stage, the artifact is there; past the check, the report is coherent. */
  predicate WriterInv(s: Store, w: WriterState, lib: Library) {
    && LocationOf(w.report) == s.at
    && match w.place
       case Checking => true
       case WritingArtifact | LinkingArtifact => Coherent(w.report, lib) && Long(w.report).Some?
       case Comparing => Coherent(w.report, lib) && Long(w.report).Some? && s.artifact.Some?
       case WritingJson | LinkingJson => Coherent(w.report, lib) && Backed(s, Long(w.report))
       case Published => Coherent(w.report, lib) && s.json == Some(AsDict(w.report))
       case Failed(failure) =>
         && (failure == Invalid ==> !Coherent(w.report, lib))
         && (failure == AlreadyExists ==> s.json.Some?)
         && (failure == ArtifactExists ==>
               s.artifact.Some? && Long(w.report).Some? && Some(Translate(s.artifact.value)) != Long(w.report))
       case Crashed => true
  }

  /** The visible JSON is this coherent report of this path, and its artifact is visible. */
  predicate Holds(s: Store, report: ExecutionReport, lib: Library) {
    && s.json == Some(AsDict(report)) && LocationOf(report) == s.at
    && Coherent(report, lib) && Backed(s, Long(report))
  }

  /** JSON is the commit marker: once visible, it is a coherent report's, and its artifact is there. */
  ghost predicate JsonInv(s: Store, lib: Library) {
    s.json.Some? ==> exists report :: Holds(s, report, lib)
  }

  ghost predicate Inv(s: Store, lib: Library) {
    JsonInv(s, lib) && forall w <- s.writers :: WriterInv(s, s.writers[w], lib)
  }

  /** Visible files are never replaced or removed. */
  lemma FilesStay(s: Store, step: Step, lib: Library)
    requires Enabled(s, step)
    ensures var t := Apply(s, step, lib);
            t.at == s.at && (s.artifact.Some? ==> t.artifact == s.artifact) && (s.json.Some? ==> t.json == s.json)
  {
    hide FromDict, AsDict;
  }

  lemma OthersKeepInv(s: Store, t: Store, w: WriterState, lib: Library)
    requires WriterInv(s, w, lib)
    requires t.at == s.at && (s.artifact.Some? ==> t.artifact == s.artifact) && (s.json.Some? ==> t.json == s.json)
    ensures WriterInv(t, w, lib)
  {
    hide AsDict, Coherent, Translate;
  }

  lemma NextKeepsOwn(s: Store, w: Writer, lib: Library)
    requires Enabled(s, Advance(w)) && WriterInv(s, s.writers[w], lib)
    ensures WriterInv(Next(s, w, lib), Next(s, w, lib).writers[w], lib)
  {
    hide AsDict, Coherent, Translate, FromDict;
    AcceptsOwnDict(s.writers[w].report, lib);
  }

  lemma NextKeepsJson(s: Store, w: Writer, lib: Library)
    requires JsonInv(s, lib) && Enabled(s, Advance(w)) && WriterInv(s, s.writers[w], lib)
    ensures JsonInv(Next(s, w, lib), lib)
  {
    hide AsDict, Coherent, Translate, FromDict;
    var t := Next(s, w, lib);
    if s.json.Some? {
      var report :| Holds(s, report, lib);
      assert Holds(t, report, lib);
    } else if t.json.Some? {
      assert Holds(t, s.writers[w].report, lib);
    }
  }

  lemma StepKeepsInv(s: Store, step: Step, lib: Library)
    requires Inv(s, lib) && Enabled(s, step)
    ensures Inv(Apply(s, step, lib), lib)
  {
    hide AsDict, Coherent, Translate, FromDict, WriterInv, Next, JsonInv;
    var t := Apply(s, step, lib);
    FilesStay(s, step, lib);
    forall v | v in t.writers
      ensures WriterInv(t, t.writers[v], lib)
    {
      OneWriter(s, step, v, lib);
    }
    if step.Advance? {
      NextKeepsJson(s, step.writer, lib);
    } else {
      SameFiles(s, t, lib);
    }
  }

  lemma OneWriter(s: Store, step: Step, v: Writer, lib: Library)
    requires Enabled(s, step) && v in Apply(s, step, lib).writers
    requires forall w <- s.writers :: WriterInv(s, s.writers[w], lib)
    ensures WriterInv(Apply(s, step, lib), Apply(s, step, lib).writers[v], lib)
  {
    hide AsDict, Coherent, Translate, FromDict;
    FilesStay(s, step, lib);
    if step.writer != v {
      assert Apply(s, step, lib).writers[v] == s.writers[v];
      OthersKeepInv(s, Apply(s, step, lib), s.writers[v], lib);
    } else if step.Advance? {
      NextKeepsOwn(s, v, lib);
    }
  }

  lemma SameFiles(s: Store, t: Store, lib: Library)
    requires JsonInv(s, lib) && t.at == s.at && t.json == s.json && t.artifact == s.artifact
    ensures JsonInv(t, lib)
  {
    hide AsDict, Coherent, Translate;
    if s.json.Some? {
      var report :| Holds(s, report, lib);
      assert Holds(t, report, lib);
    }
  }

  lemma {:induction false} RunKeepsInv(s: Store, steps: seq<Step>, lib: Library)
    requires Inv(s, lib) && IsRun(s, steps, lib)
    ensures Inv(Exec(s, steps, lib), lib) && Exec(s, steps, lib).at == s.at
    decreases |steps|
  {
    hide Inv, Apply, Enabled;
    if steps != [] {
      StepKeepsInv(s, steps[0], lib);
      FilesStay(s, steps[0], lib);
      RunKeepsInv(Apply(s, steps[0], lib), steps[1..], lib);
    }
  }

  lemma EmptyInv(at: Location, lib: Library)
    ensures Inv(Empty(at), lib)
  {
  }

  // ----- main results over every run of every set of writers -----

  /** A visible JSON report is a coherent one of this path, and its artifact is visible and belongs to it. */
  lemma VisibleReportIsBacked(at: Location, steps: seq<Step>, lib: Library)
    requires IsRun(Empty(at), steps, lib) && Exec(Empty(at), steps, lib).json.Some?
    ensures var s := Exec(Empty(at), steps, lib);
            s.at == at && exists report :: && Holds(s, report, lib)
                             && (Long(report).Some? && !HasCR(Long(report).value) ==>
                                   Some(Translate(s.artifact.value)) == Long(report))
  {
    hide IsRun, Exec, AsDict, Coherent, Translate, WriterInv;
    EmptyInv(at, lib);
    RunKeepsInv(Empty(at), steps, lib);
    var s := Exec(Empty(at), steps, lib);
    var report :| Holds(s, report, lib);
    if Long(report).Some? { TranslateExactly(Long(report).value); }
  }

  /** Whatever happens later, visible files stay as they are. */
  lemma {:induction false} VisibleFilesAreFinal(s: Store, steps: seq<Step>, lib: Library)
    requires IsRun(s, steps, lib)
    ensures s.json.Some? ==> Exec(s, steps, lib).json == s.json
    ensures s.artifact.Some? ==> Exec(s, steps, lib).artifact == s.artifact
    decreases |steps|
  {
    hide Apply, Enabled;
    if steps != [] {
      FilesStay(s, steps[0], lib);
      VisibleFilesAreFinal(Apply(s, steps[0], lib), steps[1..], lib);
    }
  }

  ghost predicate CollisionFree(lib: Library) {
    forall a, b :: Encodable(a) && Encodable(b) && lib.sha256(a) == lib.sha256(b) ==> a == b
  }

  /** A visible report is read back exactly when its long text holds no carriage return. */
  lemma ReadsBackExactly(at: Location, steps: seq<Step>, lib: Library)
    requires IsRun(Empty(at), steps, lib) && Exec(Empty(at), steps, lib).json.Some? && CollisionFree(lib)
    ensures var s := Exec(Empty(at), steps, lib);
            exists report :: && Holds(s, report, lib)
                             && (Long(report).None? || !HasCR(Long(report).value) <==> Read(s, lib) == Ok(report))
  {
    hide IsRun, Exec, AsDict, FromDict, Translate, HasCR, CanonicalResult;
    VisibleReportIsBacked(at, steps, lib);
    var s := Exec(Empty(at), steps, lib);
    var report :| && Holds(s, report, lib)
                  && (Long(report).Some? && !HasCR(Long(report).value) ==>
                        Some(Translate(s.artifact.value)) == Long(report));
    AcceptsOwnDict(report, lib);
    if Long(report).Some? {
      TranslateExactly(s.artifact.value);
      assert report.sha256 == Digest(Long(report).value, lib);
    }
  }

  /** A long text is stored under the path that the report names. */
  lemma ArtifactIsAtLocation(report: ExecutionReport, lib: Library)
    requires Coherent(report, lib)
    ensures report.artifact == if Long(report).None? then None
                               else Some(ArtifactPath(LocationOf(report).ticketId, LocationOf(report).executionId))
  {
    hide CanonicalResult, IsIdentifier, ArtifactPath;
  }

  /** A writer may crash anywhere, and any of its file operations may fail; either way it changes no file. */
  lemma InterruptedWriter(s: Store, w: Writer, lib: Library)
    requires w in s.writers && Running(s.writers[w].place)
    ensures Enabled(s, Crash(w)) && (Enabled(s, Fail(w)) <==> !s.writers[w].place.Checking?)
    ensures Apply(s, Crash(w), lib) == Put(s, w, Crashed)
    ensures Enabled(s, Fail(w)) ==> Apply(s, Fail(w), lib) == Put(s, w, Failed(FileError))
  {
  }

  // ----- replaying one write -----

  /** Every writer writes this report. */
  predicate Replays(steps: seq<Step>, report: ExecutionReport) {
    forall i :: 0 <= i < |steps| && steps[i].Start? ==> steps[i].report == report
  }

  predicate OnlyFrom(s: Store, report: ExecutionReport) {
    && (s.artifact.Some? ==> s.artifact == Long(report))
    && (s.json.Some? ==> s.json.value == AsDict(report))
    && forall w <- s.writers :: s.writers[w].report == report
  }

  lemma {:induction false} ReplaysOnlyWrite(s: Store, steps: seq<Step>, report: ExecutionReport, lib: Library)
    requires IsRun(s, steps, lib) && Replays(steps, report) && OnlyFrom(s, report)
    ensures OnlyFrom(Exec(s, steps, lib), report)
    decreases |steps|
  {
    hide AsDict, FromDict, Translate;
    if steps != [] {
      assert Replays(steps[1..], report) by {
        assert forall i :: 0 <= i < |steps| - 1 ==> steps[1..][i] == steps[i + 1];
      }
      ReplaysOnlyWrite(Apply(s, steps[0], lib), steps[1..], report, lib);
    }
  }

  /** Neither file of this report exists yet. */
  function Unwritten(report: ExecutionReport): Store {
    Empty(LocationOf(report))
  }

  predicate IsReplay(report: ExecutionReport, steps: seq<Step>, lib: Library) {
    IsRun(Unwritten(report), steps, lib) && Replays(steps, report)
  }

  function Replayed(report: ExecutionReport, steps: seq<Step>, lib: Library): Store
    requires IsReplay(report, steps, lib)
  {
    Exec(Unwritten(report), steps, lib)
  }

  /** No replay of this report, crashed or not, ever meets an artifact it does not recognise. */
  ghost predicate ReplaysNeverConflict(report: ExecutionReport, lib: Library) {
    forall steps, w ::
      IsReplay(report, steps, lib) && w in Replayed(report, steps, lib).writers ==>
        Replayed(report, steps, lib).writers[w].place != Failed(ArtifactExists)
  }

  /** Replays of a report without carriage returns end as published or "already exists", with that report visible. */
  lemma ReplayOutcome(steps: seq<Step>, w: Writer, report: ExecutionReport, lib: Library)
    requires Coherent(report, lib) && (Long(report).None? || !HasCR(Long(report).value))
    requires IsReplay(report, steps, lib) && w in Replayed(report, steps, lib).writers
    ensures var s := Replayed(report, steps, lib);
            var place := s.writers[w].place;
            && place != Failed(ArtifactExists) && place != Failed(Invalid)
            && (place == Published || place == Failed(AlreadyExists) ==> s.json == Some(AsDict(report)))
  {
    hide IsRun, Exec, AsDict, Coherent, Translate, HasCR, JsonInv;
    EmptyInv(LocationOf(report), lib);
    RunKeepsInv(Unwritten(report), steps, lib);
    ReplaysOnlyWrite(Unwritten(report), steps, report, lib);
    assert WriterInv(Replayed(report, steps, lib), Replayed(report, steps, lib).writers[w], lib);
    if Long(report).Some? { TranslateExactly(Long(report).value); }
  }

  /** A run may go on with any enabled step. */
  lemma {:induction false} OneMore(s: Store, steps: seq<Step>, step: Step, lib: Library)
    requires IsRun(s, steps, lib) && Enabled(Exec(s, steps, lib), step)
    ensures IsRun(s, steps + [step], lib)
    ensures Exec(s, steps + [step], lib) == Apply(Exec(s, steps, lib), step, lib)
    decreases |steps|
  {
    hide Enabled, Apply;
    if steps == [] {
      assert [] + [step] == [step] && [step][1..] == [];
      assert IsRun(Apply(s, step, lib), [], lib) && Exec(Apply(s, step, lib), [], lib) == Apply(s, step, lib);
    } else {
      assert (steps + [step])[0] == steps[0] && (steps + [step])[1..] == steps[1..] + [step];
      OneMore(Apply(s, steps[0], lib), steps[1..], step, lib);
    }
  }

  /** A writer that crashed right after its artifact became visible. */
  lemma OrphanRun(report: ExecutionReport, lib: Library) returns (steps: seq<Step>)
    requires Coherent(report, lib) && Long(report).Some?
    ensures IsReplay(report, steps, lib)
    ensures Replayed(report, steps, lib)
         == Store(LocationOf(report), Long(report), None, map[0 := WriterState(report, Crashed)])
  {
    hide IsRun, Exec, AsDict, FromDict, Coherent;
    AcceptsOwnDict(report, lib);
    NoSteps(Unwritten(report), lib);
    OneMore(Unwritten(report), [], Start(0, report), lib);
    steps := [] + [Start(0, report)];
    OneMore(Unwritten(report), steps, Advance(0), lib);
    steps := steps + [Advance(0)];
    OneMore(Unwritten(report), steps, Advance(0), lib);
    steps := steps + [Advance(0)];
    OneMore(Unwritten(report), steps, Advance(0), lib);
    steps := steps + [Advance(0)];
    OneMore(Unwritten(report), steps, Crash(0), lib);
    steps := steps + [Crash(0)];
  }

  lemma NoSteps(s: Store, lib: Library)
    ensures IsRun(s, [], lib) && Exec(s, [], lib) == s
  {
  }

  /** Replaying after a crash that left the artifact behind fails for a text with a carriage return. */
  lemma ConflictingReplay(report: ExecutionReport, lib: Library) returns (steps: seq<Step>)
    requires Coherent(report, lib) && Long(report).Some? && HasCR(Long(report).value)
    ensures IsReplay(report, steps, lib)
    ensures 1 in Replayed(report, steps, lib).writers
    ensures Replayed(report, steps, lib).writers[1].place == Failed(ArtifactExists)
  {
    hide IsRun, Exec, AsDict, FromDict, Coherent, Translate, HasCR;
    AcceptsOwnDict(report, lib);
    TranslateExactly(Long(report).value);
    steps := OrphanRun(report, lib);
    OneMore(Unwritten(report), steps, Start(1, report), lib);
    steps := steps + [Start(1, report)];
    OneMore(Unwritten(report), steps, Advance(1), lib);
    steps := steps + [Advance(1)];
    OneMore(Unwritten(report), steps, Advance(1), lib);
    steps := steps + [Advance(1)];
    OneMore(Unwritten(report), steps, Advance(1), lib);
    steps := steps + [Advance(1)];
    OneMore(Unwritten(report), steps, Advance(1), lib);
    steps := steps + [Advance(1)];
  }

  /** Replaying is safe exactly for reports whose long text, if any, holds no carriage return. */
  lemma ReplaysAreSafeExactly(report: ExecutionReport, lib: Library)
    requires Coherent(report, lib)
    ensures ReplaysNeverConflict(report, lib) <==> Long(report).None? || !HasCR(Long(report).value)
  {
    hide IsRun, Exec, Coherent, HasCR, Replays;
    if Long(report).Some? && HasCR(Long(report).value) {
      var steps := ConflictingReplay(report, lib);
    } else {
      forall steps, w | IsReplay(report, steps, lib) && w in Replayed(report, steps, lib).writers
        ensures Replayed(report, steps, lib).writers[w].place != Failed(ArtifactExists)
      {
        ReplayOutcome(steps, w, report, lib);
      }
    }
  }

  // ----- one undisturbed write -----

  /** What one write does to the two files when nobody else is at work: `before` and `after` it. */
  predicate WriteOutcome(before: (Option<Text>, Option<Json>), report: ExecutionReport, lib: Library,
                         after: (Option<Text>, Option<Json>), failure: Option<Failure>)
  {
    var long := Long(report);
    if !Coherent(report, lib) then failure == Some(Invalid) && after == before
    else if long.Some? && before.0.Some? && Some(Translate(before.0.value)) != long then
      failure == Some(ArtifactExists) && after == before
    else
      && after.0 == (if before.0.None? then long else before.0)
      && (if before.1.Some? then failure == Some(AlreadyExists) && after.1 == before.1
          else failure == None && after.1 == Some(AsDict(report)))
  }

  /** The two files of one execution path as a single process uses them. */
  class ReportFiles {
    const at: Location
    var artifact: Option<Text>
    var json: Option<Json>

    constructor (at: Location)
      ensures this.at == at && artifact == None && json == None
    {
      this.at, artifact, json := at, None, None;
    }

    method Write(report: ExecutionReport, lib: Library) returns (failure: Option<Failure>)
      requires LocationOf(report) == at
      modifies this
      ensures WriteOutcome(old((artifact, json)), report, lib, (artifact, json), failure)
    {
      hide AsDict, FromDict, Translate, Coherent;
      AcceptsOwnDict(report, lib);
      if FromDict(AsDict(report), lib).Err? {
        return Some(Invalid);
      }
      var long := Long(report);
      if long.Some? {
        if artifact.None? {
          artifact := long;
        } else if Some(Translate(artifact.value)) != long {
          return Some(ArtifactExists);
        }
      }
      if json.Some? {
        return Some(AlreadyExists);
      }
      json := Some(AsDict(report));
      return None;
    }
  }

  /** How many of its own steps a writer has left at most. */
  function Rank(place: Place): nat {
    match place
    case Checking => 6
    case WritingArtifact => 5
    case LinkingArtifact => 4
    case Comparing => 3
    case WritingJson => 2
    case LinkingJson => 1
    case _ => 0
  }

  /** One writer's steps to its end, with no crash, no file error and nobody else in between. */
  function Alone(s: Store, w: Writer, lib: Library): Store
    requires w in s.writers
    decreases Rank(s.writers[w].place)
  {
    if !Running(s.writers[w].place) then s
    else
      NextRanksLower(s, w, lib);
      Alone(Next(s, w, lib), w, lib)
  }

  lemma NextRanksLower(s: Store, w: Writer, lib: Library)
    requires w in s.writers && Running(s.writers[w].place)
    ensures w in Next(s, w, lib).writers && Rank(Next(s, w, lib).writers[w].place) < Rank(s.writers[w].place)
  {
    hide AsDict, FromDict, Translate;
  }

  predicate EndsAs(s: Store, w: Writer, t: Store, lib: Library)
    requires w in s.writers
  {
    && w in t.writers && (t.writers[w].place.Published? || t.writers[w].place.Failed?)
    && WriteOutcome((s.artifact, s.json), s.writers[w].report, lib, (t.artifact, t.json),
                    if t.writers[w].place.Failed? then Some(t.writers[w].place.failure) else None)
  }

  lemma CommitAlone(s: Store, w: Writer, lib: Library)
    requires w in s.writers && s.writers[w].place == WritingJson
    ensures Alone(s, w, lib) == if s.json.Some? then Put(s, w, Failed(AlreadyExists))
                                else Put(s, w, Published).(json := Some(AsDict(s.writers[w].report)))
  {
    hide AsDict, FromDict, Translate;
    var linking := Next(s, w, lib);
    var end := Next(linking, w, lib);
    assert Alone(s, w, lib) == Alone(linking, w, lib) == Alone(end, w, lib) == end;
    assert end == if s.json.Some? then Put(s, w, Failed(AlreadyExists))
                  else Put(s, w, Published).(json := Some(AsDict(s.writers[w].report)));
  }

  /** The file operations of one writer, left alone, do what the single-process write does. */
  lemma AloneOutcome(s: Store, w: Writer, lib: Library)
    requires w in s.writers && s.writers[w].place == Checking
    ensures EndsAs(s, w, Alone(s, w, lib), lib)
  {
    hide AsDict, FromDict, Translate, Coherent, Alone;
    var report := s.writers[w].report;
    AcceptsOwnDict(report, lib);
    var checked := Next(s, w, lib);
    AloneStep(s, w, lib);
    if !Coherent(report, lib) {
      AloneStep(checked, w, lib);
    } else if Long(report).None? {
      CommitAlone(checked, w, lib);
    } else {
      var linking := Next(checked, w, lib);
      AloneStep(checked, w, lib);
      var linked := Next(linking, w, lib);
      AloneStep(linking, w, lib);
      if s.artifact.None? {
        CommitAlone(linked, w, lib);
      } else {
        AloneStep(linked, w, lib);
        var compared := Next(linked, w, lib);
        if compared.writers[w].place == WritingJson { CommitAlone(compared, w, lib); }
        else { AloneStep(compared, w, lib); }
      }
    }
  }

  lemma AloneStep(s: Store, w: Writer, lib: Library)
    requires w in s.writers
    ensures Alone(s, w, lib) == if Running(s.writers[w].place) then Alone(Next(s, w, lib), w, lib) else s
  {
    hide Next, Running;
  }
}
