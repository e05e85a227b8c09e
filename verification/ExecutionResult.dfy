/** Interpretation of a worker run and its durable report dictionary (execution_result.py). */
module ExecutionResult {
  import opened Bytes
  import opened Json
  import opened Unicode
  import opened WorkerEgress

  datatype WorkerRunResult = WorkerRunResult(
    returncode: int,
    transportError: Option<Text>,
    claim: Option<Claim>,
    egressError: Option<Text>,
    interruptionKind: Option<Text>,
    retired: bool,
    started: bool)

  datatype ExecutionResult = ExecutionResult(
    returncode: int,
    transportError: Option<Text>,
    egressError: Option<Text>,
    claim: Option<Claim>,
    conclusion: Text,
    questions: seq<Text>,
    remaining: seq<Text>,
    reason: Text,
    started: bool)

  /** What Devlegate itself knows about one execution. */
  datatype Identity = Identity(
    executionId: Text,
    ticketId: Text,
    codeBaseHead: Text,
    controlHead: Text,
    executionBranch: Text,
    executionPath: Text,
    workspaceHead: Option<Text>)

  datatype ExecutionReport = ExecutionReport(
    identity: Identity, result: ExecutionResult, artifact: Option<Text>, sha256: Option<Text>)

  /**
   * Library functions: the name of a signal number, if it has one, and the SHA-256 of the UTF-8 bytes of a text
   * that can be encoded.
   */
  datatype Library = Library(signalName: int -> Option<Text>, sha256: Text -> Text)

  /** The digest of a text; None stands for the UnicodeEncodeError of a text with a surrogate. */
  function Digest(text: Text, lib: Library): (digest: Option<Text>)
    ensures digest.Some? <==> Encodable(text)
  {
    if Encodable(text) then Some(lib.sha256(text)) else None
  }

  const CONCLUSIONS: set<Text> := {U("completed"), U("incomplete"), U("blocked"), U("failed")}

  /** A run concludes as one of the outcomes that a claim may have, or as failed. */
  lemma OutcomesAndFailed(text: Text)
    ensures text in CONCLUSIONS <==> IsOutcome(text) || text == U("failed")
    ensures !IsOutcome(U("failed"))
  {
  }

  const REPORT_SCHEMA := U("devlegate.execution-report.v1")

  function DigitText(n: nat): Text
    requires n < 10
  {
    [48 + n]
  }

  function IntText(i: int): Text
    decreases if i < 0 then 1 - i else i
  {
    if i < 0 then U("-") + IntText(0 - i)
    else if i < 10 then DigitText(i)
    else IntText(i / 10) + DigitText(i % 10)
  }

  /** Python's `text or fallback`: an empty text counts as none. */
  function Or(text: Option<Text>, fallback: Text): Text {
    if text.Some? && text.value != [] then text.value else fallback
  }

  /** Conclusion and reason of a run; an error when a claim comes together with an egress error. */
  function CanonicalResult(returncode: int, transportError: Option<Text>, egressError: Option<Text>,
                           claim: Option<Claim>, started: bool, lib: Library): Result<(Text, Text), string> {
    if claim.Some? && egressError.Some? then Err("worker claim cannot coexist with typed-egress error")
    else if !started then Ok((U("failed"), U("worker launch failed: ") + Or(transportError, U("unknown error"))))
    else if returncode < 0 then
      var name := lib.signalName(0 - returncode);
      Ok((U("failed"), U("worker terminated by signal ") + IntText(0 - returncode)
          + U(" (") + Or(name, U("UNKNOWN")) + U(")")))
    else if returncode != 0 then Ok((U("failed"), U("worker exited with status ") + IntText(returncode)))
    else if transportError.Some? then Ok((U("failed"), transportError.value))
    else if egressError.Some? || claim.None? then Ok((U("failed"), Or(egressError, U("worker claim is unavailable"))))
    else Ok((claim.value.outcome, U("valid worker claim")))
  }

  function BuildResult(run: WorkerRunResult, lib: Library): Result<ExecutionResult, string> {
    match CanonicalResult(run.returncode, run.transportError, run.egressError, run.claim, run.started, lib)
    case Err(error) => Err(error)
    case Ok((conclusion, reason)) =>
      var questions := if run.claim.Some? then run.claim.value.questions else [];
      var remaining := if run.claim.Some? then run.claim.value.remaining else [];
      Ok(ExecutionResult(run.returncode, run.transportError, run.egressError, run.claim, conclusion, questions,
                         remaining, reason, run.started))
  }

  function ArtifactPath(ticketId: Text, executionId: Text): Text {
    U("executions/") + ticketId + U("/") + executionId + U(".md")
  }

  function LongReport(claim: Option<Claim>): Option<Text> {
    if claim.Some? then claim.value.report else None
  }

  function BuildReport(identity: Identity, run: WorkerRunResult, lib: Library): Result<ExecutionReport, string> {
    match BuildResult(run, lib)
    case Err(error) => Err(error)
    case Ok(result) =>
      var long := LongReport(result.claim);
      if long.None? then Ok(ExecutionReport(identity, result, None, None))
      else
        var digest := Digest(long.value, lib);
        if digest.None? then Err("report cannot be encoded")
        else Ok(ExecutionReport(identity, result, Some(ArtifactPath(identity.ticketId, identity.executionId)), digest))
  }

  // ----- the dictionary form -----

  function ClaimDict(claim: Claim): (d: Json)
    ensures d.Obj?
  {
    Obj(map[
      Key.Outcome := Str(claim.outcome),
      Key.Summary := Str(claim.summary),
      Key.Remaining := FromTexts(claim.remaining),
      Key.Questions := FromTexts(claim.questions),
      Key.Report := FromOption(claim.report)])
  }

  const REQUIRED: set<Key> := {
    Schema, ExecutionId, TicketId, CodeBaseHead, ControlHead, ExecutionBranch, ExecutionPath, WorkspaceHead,
    ProcessReturncode, TransportError, TransportOk, EgressError, EgressOk, WorkerClaim, Conclusion, Key.Questions,
    Key.Remaining, Reason}

  const OPTIONAL: set<Key> := {ReportArtifact, ReportSha256, ProcessStarted}

  /** The value `as_dict` writes under a key. */
  function ValueOf(report: ExecutionReport, key: Key): Json {
    var id, result := report.identity, report.result;
    match key
    case Schema => Str(REPORT_SCHEMA)
    case ExecutionId => Str(id.executionId)
    case TicketId => Str(id.ticketId)
    case CodeBaseHead => Str(id.codeBaseHead)
    case ControlHead => Str(id.controlHead)
    case ExecutionBranch => Str(id.executionBranch)
    case ExecutionPath => Str(id.executionPath)
    case WorkspaceHead => FromOption(id.workspaceHead)
    case ProcessReturncode => Int(result.returncode)
    case ProcessStarted => Bool(result.started)
    case TransportError => FromOption(result.transportError)
    case TransportOk => Bool(result.transportError.None?)
    case EgressError => FromOption(result.egressError)
    case EgressOk => Bool(result.egressError.None? && result.claim.Some?)
    case WorkerClaim => if result.claim.Some? then ClaimDict(result.claim.value) else Null
    case Conclusion => Str(result.conclusion)
    case Questions => FromTexts(result.questions)
    case Remaining => FromTexts(result.remaining)
    case Reason => Str(result.reason)
    case ReportArtifact => FromOption(report.artifact)
    case ReportSha256 => FromOption(report.sha256)
    case _ => Null
  }

  function AsDict(report: ExecutionReport): (d: Json)
    ensures d.Obj?
  {
    Obj(map key | key in REQUIRED + OPTIONAL :: ValueOf(report, key))
  }

  predicate IsIdentifierChar(c: CodePoint) {
    'A' as int <= c <= 'Z' as int || 'a' as int <= c <= 'z' as int || '0' as int <= c <= '9' as int
  }

  predicate IsIdentifier(text: Text) {
    && text != [] && IsIdentifierChar(text[0])
    && forall i :: 0 < i < |text| ==> IsIdentifierChar(text[i]) || text[i] == '_' as int || text[i] == '-' as int
  }

  const ALPHANUMERIC: Text :=
    U("ABCDEFGHIJKLMNOPQRSTUVWXYZ") + U("abcdefghijklmnopqrstuvwxyz") + U("0123456789")

  lemma RunOfLetters(s: string, first: CodePoint, c: CodePoint)
    requires forall i :: 0 <= i < |s| ==> s[i] as int == first + i
    ensures c in U(s) <==> first <= c < first + |s|
  {
    if first <= c < first + |s| { assert U(s)[c - first] == c; }
  }

  lemma LettersAndDigits(c: CodePoint)
    ensures IsIdentifierChar(c) <==> c in ALPHANUMERIC
  {
    RunOfLetters("ABCDEFGHIJKLMNOPQRSTUVWXYZ", 65, c);
    RunOfLetters("abcdefghijklmnopqrstuvwxyz", 97, c);
    RunOfLetters("0123456789", 48, c);
  }

  /** An identifier starts with a letter or digit, and goes on with these, underscores and hyphens. */
  lemma IdentifierExactly(text: Text)
    ensures IsIdentifier(text)
       <==> text != [] && text[0] in ALPHANUMERIC && forall c <- text :: c in ALPHANUMERIC + U("_-")
  {
    assert U("_-") == [95, 45];
    forall c: CodePoint ensures IsIdentifierChar(c) <==> c in ALPHANUMERIC { LettersAndDigits(c); }
    hide IsIdentifierChar;
    if text != [] && text[0] in ALPHANUMERIC && forall c <- text :: c in ALPHANUMERIC + U("_-") {
      forall i | 0 <= i < |text| ensures text[i] in ALPHANUMERIC + U("_-") { assert text[i] in text; }
    }
  }

  /** `_parse_claim`. */
  function ParseClaim(value: Json): Result<Claim, string> {
    if !HasClaimFields(value) then Err("execution report worker claim is invalid")
    else
      var outcome, summary, report := Get(value, Key.Outcome), Get(value, Key.Summary), Get(value, Key.Report);
      var remaining, questions := Get(value, Key.Remaining), Get(value, Key.Questions);
      if !outcome.Str? || !IsOutcome(outcome.s) then Err("execution report worker claim outcome is invalid")
      else if !summary.Str? then Err("execution report worker claim summary is invalid")
      else if !IsOptionalText(report) then Err("execution report worker claim report is invalid")
      else if !IsStringList(remaining) then Err("execution report worker claim remaining is invalid")
      else if !IsStringList(questions) then Err("execution report worker claim questions is invalid")
      else Ok(Claim(outcome.s, summary.s, Texts(remaining), Texts(questions), OptionalText(report)))
  }

  function ParseOptionalClaim(value: Json): Result<Option<Claim>, string> {
    if value.Null? then Ok(None)
    else match ParseClaim(value)
      case Ok(claim) => Ok(Some(claim))
      case Err(error) => Err(error)
  }

  function StartedOf(payload: Json): Json
    requires payload.Obj?
  {
    if ProcessStarted in payload.fields then payload.fields[ProcessStarted] else Bool(true)
  }

  /** The checks of `from_dict` up to the worker claim: the fields and their types. */
  function CheckFields(payload: Json): (problem: Option<string>) {
    if !payload.Obj? then Some("execution report must be an object")
    else if !(REQUIRED <= payload.fields.Keys <= REQUIRED + OPTIONAL) then Some("execution report fields are invalid")
    else if Get(payload, Schema) != Str(REPORT_SCHEMA) then Some("unsupported execution report schema")
    else if !Get(payload, ExecutionId).Str? || !Get(payload, TicketId).Str? || !Get(payload, CodeBaseHead).Str?
      || !Get(payload, ControlHead).Str? || !Get(payload, ExecutionBranch).Str? || !Get(payload, ExecutionPath).Str?
      || !Get(payload, Reason).Str?
    then Some("execution report identity fields are invalid")
    else if !IsIdentifier(Get(payload, ExecutionId).s) then Some("invalid execution report execution_id")
    else if !IsIdentifier(Get(payload, TicketId).s) then Some("invalid execution report ticket_id")
    else if !IsOptionalText(Get(payload, WorkspaceHead)) then Some("execution report workspace head is invalid")
    else if !IsOptionalText(Get(payload, ReportArtifact)) then Some("execution report artifact is invalid")
    else if Get(payload, ReportArtifact)
        !in {Null, Str(ArtifactPath(Get(payload, TicketId).s, Get(payload, ExecutionId).s))}
    then Some("execution report artifact identity is invalid")
    else if !IsOptionalText(Get(payload, ReportSha256)) then Some("execution report digest is invalid")
    else if !Get(payload, ProcessReturncode).Int? then Some("execution report process status is invalid")
    else if !StartedOf(payload).Bool? then Some("execution report process provenance is invalid")
    else if !IsOptionalText(Get(payload, TransportError)) then Some("execution report transport error is invalid")
    else if !IsOptionalText(Get(payload, EgressError)) then Some("execution report egress error is invalid")
    else if Get(payload, TransportOk) != Bool(Get(payload, TransportError).Null?)
    then Some("execution report transport status is inconsistent")
    else None
  }

  function IdentityOf(payload: Json): Identity
    requires CheckFields(payload).None?
  {
    Identity(Get(payload, ExecutionId).s, Get(payload, TicketId).s, Get(payload, CodeBaseHead).s,
             Get(payload, ControlHead).s, Get(payload, ExecutionBranch).s, Get(payload, ExecutionPath).s,
             OptionalText(Get(payload, WorkspaceHead)))
  }

  /** The checks of `from_dict` that tie the other fields to the claim. */
  function CheckClaim(payload: Json, claim: Option<Claim>, lib: Library): (problem: Option<string>)
    requires CheckFields(payload).None?
  {
    var long := LongReport(claim);
    if Get(payload, ReportArtifact).Null? != long.None? || Get(payload, ReportSha256).Null? != long.None?
    then Some("execution report artifact binding is inconsistent")
    else if long.Some? && Digest(long.value, lib).None? then Some("report cannot be encoded")
    else if long.Some? && Get(payload, ReportSha256) != FromOption(Digest(long.value, lib))
    then Some("execution report digest is inconsistent")
    else if Get(payload, EgressOk) != Bool(claim.Some? && Get(payload, EgressError).Null?)
    then Some("execution report egress status is inconsistent")
    else if !Get(payload, Conclusion).Str?
      || Get(payload, Conclusion).s !in CONCLUSIONS
    then Some("execution report conclusion is invalid")
    else if !IsStringList(Get(payload, Key.Questions)) then Some("execution report questions is invalid")
    else if !IsStringList(Get(payload, Key.Remaining)) then Some("execution report remaining is invalid")
    else
      var questions, remaining := Texts(Get(payload, Key.Questions)), Texts(Get(payload, Key.Remaining));
      if claim.None? && (questions != [] || remaining != [])
      then Some("execution report has semantic data without claim")
      else if claim.Some? && (questions != claim.value.questions || remaining != claim.value.remaining)
      then Some("execution report claim data is inconsistent")
      else None
  }

  function FromDict(payload: Json, lib: Library): Result<ExecutionReport, string> {
    if CheckFields(payload).Some? then Err(CheckFields(payload).value)
    else match ParseOptionalClaim(Get(payload, WorkerClaim))
      case Err(error) => Err(error)
      case Ok(claim) =>
        if CheckClaim(payload, claim, lib).Some? then Err(CheckClaim(payload, claim, lib).value)
        else
          var returncode, started := Get(payload, ProcessReturncode).i, StartedOf(payload).b;
          var transport, egress := OptionalText(Get(payload, TransportError)), OptionalText(Get(payload, EgressError));
          match CanonicalResult(returncode, transport, egress, claim, started, lib)
          case Err(error) => Err(error)
          case Ok((conclusion, reason)) =>
            if Get(payload, Conclusion).s != conclusion then Err("execution report conclusion is inconsistent")
            else if Get(payload, Reason).s != reason then Err("execution report reason is inconsistent")
            else
              var result := ExecutionResult(returncode, transport, egress, claim, conclusion,
                Texts(Get(payload, Key.Questions)), Texts(Get(payload, Key.Remaining)), reason, started);
              Ok(ExecutionReport(IdentityOf(payload), result, OptionalText(Get(payload, ReportArtifact)),
                                 OptionalText(Get(payload, ReportSha256))))
  }

  // ----- round trips -----

  /** A claim dictionary with its optional key filled in. */
  function FilledClaim(value: Json): Json {
    if value.Obj? then Obj(value.fields[Key.Report := Get(value, Key.Report)]) else value
  }

  /** The value under a key, with the defaults of the keys a writer may leave out. */
  function ReadOf(payload: Json, key: Key): Json
    requires payload.Obj?
  {
    match key
    case WorkerClaim => FilledClaim(Get(payload, WorkerClaim))
    case ProcessStarted => StartedOf(payload)
    case _ => Get(payload, key)
  }

  /** A report dictionary with the keys a writer may leave out filled in. */
  function Filled(payload: Json): Json
    requires payload.Obj?
  {
    Obj(map key | key in payload.fields.Keys + OPTIONAL :: ReadOf(payload, key))
  }

  predicate ValidClaim(claim: Option<Claim>) {
    claim.Some? ==> IsOutcome(claim.value.outcome)
  }

  predicate ValidIdentity(id: Identity) {
    IsIdentifier(id.executionId) && IsIdentifier(id.ticketId)
  }

  lemma ParseOfClaimDict(claim: Claim)
    requires IsOutcome(claim.outcome)
    ensures ParseClaim(ClaimDict(claim)) == Ok(claim)
  {
    hide FromTexts, Texts, IsStringList;
    TextsOfFromTexts(claim.remaining);
    TextsOfFromTexts(claim.questions);
    assert ClaimDict(claim).fields.Keys == CLAIM_FIELDS;
  }

  lemma ClaimDictOfParse(value: Json)
    requires ParseClaim(value).Ok?
    ensures ClaimDict(ParseClaim(value).value) == FilledClaim(value) && IsOutcome(ParseClaim(value).value.outcome)
  {
    hide FromTexts, Texts, IsStringList;
    FromTextsOfTexts(Get(value, Key.Remaining));
    FromTextsOfTexts(Get(value, Key.Questions));
    assert ClaimDict(ParseClaim(value).value).fields == FilledClaim(value).fields;
  }

  /** A dictionary is parsed to a claim exactly when, with its optional key filled in, it is that claim's own. */
  lemma ParsedExactly(value: Json, claim: Claim)
    ensures ParseClaim(value) == Ok(claim)
       <==> value.Obj? && IsOutcome(claim.outcome) && FilledClaim(value) == ClaimDict(claim)
  {
    hide ParseClaim, FilledClaim, ClaimDict, IsOutcome;
    if ParseClaim(value).Ok? {
      ClaimDictOfParse(value);
      ParsedIsObject(value);
    }
    if value.Obj? && IsOutcome(claim.outcome) && FilledClaim(value) == ClaimDict(claim) {
      FilledClaimParsesAlike(value);
      ParseOfClaimDict(claim);
    }
  }

  lemma ParsedIsObject(value: Json)
    requires ParseClaim(value).Ok?
    ensures value.Obj?
  {
  }

  // ----- what an event claims -----

  lemma ReadAsParsed(value: Json)
    ensures ReadClaim(value).Ok? <==> ParseClaim(value).Ok?
    ensures ReadClaim(value).Ok? ==> ReadClaim(value).value == ParseClaim(value).value
  {
    hide Texts, IsStringList, Get, HasClaimFields;
  }

  /** The worker's arguments are read as a claim exactly when, filled in, they are that claim's dictionary. */
  lemma ReadExactly(arguments: Json, claim: Claim)
    ensures ReadClaim(arguments) == Ok(claim)
       <==> arguments.Obj? && IsOutcome(claim.outcome) && FilledClaim(arguments) == ClaimDict(claim)
  {
    hide ReadClaim, ParseClaim, FilledClaim, ClaimDict;
    ReadAsParsed(arguments);
    ParsedExactly(arguments, claim);
  }

  /** The value at the end of a path of keys; a missing key, or one of something else, gives null. */
  function At(value: Json, path: seq<Key>): Json
    decreases |path|
  {
    if path == [] then value else if value.Obj? then At(Get(value, path[0]), path[1..]) else Null
  }

  lemma AtOne(value: Json, key: Key)
    ensures At(value, [key]) == if value.Obj? then Get(value, key) else Null
  {
    assert [key][1..] == [];
  }

  lemma AtTwo(value: Json, first: Key, second: Key)
    ensures At(value, [first, second]) == At(At(value, [first]), [second])
  {
    AtOne(value, first);
    assert [first, second][1..] == [second];
    AtOne(Null, second);
  }

  lemma AtThree(value: Json, first: Key, second: Key, third: Key)
    ensures At(value, [first, second, third]) == At(At(value, [first, second]), [third])
  {
    AtOne(value, first);
    assert [first, second, third][1..] == [second, third];
    assert [first, second][1..] == [second];
    AtTwo(At(value, [first]), second, third);
    AtOne(Null, third);
    AtTwo(value, first, second);
  }

  /** Which events are reserved, and which of them claim what, read off the event's paths. */
  lemma ClaimedExactly(event: Json, claim: Claim)
    ensures Reserved(event)
       <==> At(event, [Type]) == Str(U("tool_use")) && At(event, [Part, Tool]) == Str(U("devlegate_report"))
    ensures Reserved(event) && ClaimOf(event) == Ok(claim)
       <==> && At(event, [Type]) == Str(U("tool_use"))
            && At(event, [Part, Tool]) == Str(U("devlegate_report")) && At(event, [Part, Type]) == Str(U("tool"))
            && At(event, [Part, State, Status]) == Str(U("completed"))
            && At(event, [Part, State, Input]).Obj? && IsOutcome(claim.outcome)
            && FilledClaim(At(event, [Part, State, Input])) == ClaimDict(claim)
  {
    hide ReadClaim, FilledClaim, ClaimDict, IsOutcome, At;
    AtOne(event, Type);
    AtTwo(event, Part, Tool);
    AtTwo(event, Part, Type);
    AtTwo(event, Part, State);
    AtThree(event, Part, State, Status);
    AtThree(event, Part, State, Input);
    AtOne(event, Part);
    var part := At(event, [Part]);
    AtOne(part, Tool);
    AtOne(part, Type);
    AtOne(part, State);
    var state := At(event, [Part, State]);
    AtOne(state, Status);
    AtOne(state, Input);
    ReadExactly(At(event, [Part, State, Input]), claim);
  }

  // ----- why a run concludes as it does -----

  /** The decimal digits of a text, most significant first. */
  function ReadDigits(text: Text): Option<nat> {
    if text == [] then Some(0)
    else
      var last := text[|text| - 1];
      match ReadDigits(text[..|text| - 1])
      case None => None
      case Some(front) => if 48 <= last <= 57 then Some(10 * front + (last - 48)) else None
  }

  function ReadInt(text: Text): Option<int> {
    if text != [] && text[0] == 45 then
      match ReadDigits(text[1..])
      case None => None
      case Some(n) => Some(0 - n)
    else ReadDigits(text)
  }

  lemma {:induction false} DigitsReadBack(n: nat)
    ensures ReadDigits(IntText(n)) == Some(n) && IntText(n) != [] && IntText(n)[0] != 45
    decreases n
  {
    if n < 10 {
      assert IntText(n) == [48 + n] && [48 + n][..0] == [];
      assert ReadDigits([]) == Some(0);
    } else {
      DigitsReadBack(n / 10);
      var front, text := IntText(n / 10), IntText(n);
      assert text == front + [48 + n % 10] && text[..|text| - 1] == front;
    }
  }

  /** The numbers in a reason are decimal. */
  lemma IntTextReadsBack(i: int)
    ensures ReadInt(IntText(i)) == Some(i)
  {
    DigitsReadBack(if i < 0 then 0 - i else i);
    if i < 0 { assert IntText(i)[1..] == IntText(0 - i) && IntText(i)[0] == 45; }
  }

  function First(reasons: seq<Option<Text>>): Option<Text> {
    if reasons == [] then None else if reasons[0].Some? then reasons[0] else First(reasons[1..])
  }

  /** A text that says something, or the words used when there is none. */
  function Known(text: Option<Text>, unknown: Text): Text {
    match text
    case None => unknown
    case Some(known) => if known == [] then unknown else known
  }

  /** Everything that can be wrong with a run, by precedence. */
  function Flaws(run: WorkerRunResult, lib: Library): (flaws: seq<Option<Text>>)
    ensures |flaws| == 5
  {
    var signal := 0 - run.returncode;
    [ if run.started then None else Some(U("worker launch failed: ") + Known(run.transportError, U("unknown error"))),
      if run.returncode >= 0 then None
      else Some(U("worker terminated by signal ") + IntText(signal) + U(" (")
                + Known(lib.signalName(signal), U("UNKNOWN")) + U(")")),
      if run.returncode == 0 then None else Some(U("worker exited with status ") + IntText(run.returncode)),
      run.transportError,
      if run.claim.Some? && run.egressError.None? then None
      else Some(Known(run.egressError, U("worker claim is unavailable")))]
  }

  /** A run fails with the first flaw it has as the reason; without one it concludes as its claim says. */
  lemma ReasonIsFirstFlaw(run: WorkerRunResult, lib: Library)
    requires run.claim.None? || run.egressError.None?
    ensures BuildResult(run, lib).Ok?
    ensures var r, flaw := BuildResult(run, lib).value, First(Flaws(run, lib));
            && (flaw.Some? ==> r.conclusion == U("failed") && r.reason == flaw.value)
            && (flaw.None? ==> run.claim.Some? && r.conclusion == run.claim.value.outcome
                               && r.reason == U("valid worker claim"))
  {
    assert forall text, unknown :: Or(text, unknown) == Known(text, unknown);
    hide IntText, Or, Known;
    FirstOfFive(Flaws(run, lib));
  }

  lemma FirstOfFive(s: seq<Option<Text>>)
    requires |s| == 5
    ensures First(s) == if s[0].Some? then s[0] else if s[1].Some? then s[1] else if s[2].Some? then s[2]
                        else if s[3].Some? then s[3] else s[4]
  {
    assert s[1..][1..] == s[2..] && s[2..][1..] == s[3..] && s[3..][1..] == s[4..] && s[4..][1..] == [];
    assert First(s[4..]) == s[4];
    assert First(s[2..]) == if s[2].Some? then s[2] else First(s[3..]);
  }

  /** What a report must satisfy beyond its types: it is what `build_execution_report` makes of some run. */
  predicate Coherent(report: ExecutionReport, lib: Library) {
    var r := report.result;
    var long := LongReport(r.claim);
    && ValidIdentity(report.identity) && ValidClaim(r.claim)
    && CanonicalResult(r.returncode, r.transportError, r.egressError, r.claim, r.started, lib)
       == Ok((r.conclusion, r.reason))
    && r.questions == (if r.claim.Some? then r.claim.value.questions else [])
    && r.remaining == (if r.claim.Some? then r.claim.value.remaining else [])
    && report.sha256 == (if long.Some? then Digest(long.value, lib) else None)
    && (long.Some? ==> report.sha256.Some?)
    && report.artifact == (if long.Some? then Some(ArtifactPath(report.identity.ticketId, report.identity.executionId))
                           else None)
  }

  function RunOf(report: ExecutionReport): WorkerRunResult {
    var r := report.result;
    WorkerRunResult(r.returncode, r.transportError, r.claim, r.egressError, None, true, r.started)
  }

  /** Coherent reports are exactly the ones that can be built with valid identifiers and claims. */
  lemma BuiltExactly(report: ExecutionReport, lib: Library)
    ensures Coherent(report, lib)
       <==> exists run :: BuildReport(report.identity, run, lib) == Ok(report) && ValidIdentity(report.identity)
                          && ValidClaim(run.claim)
  {
    hide CanonicalResult, IsIdentifier, ArtifactPath;
    if Coherent(report, lib) {
      assert BuildReport(report.identity, RunOf(report), lib) == Ok(report);
    }
  }

  /** The dictionary holds the report's identity and artifact. */
  predicate MatchesIdentity(d: Json, report: ExecutionReport) {
    var id := report.identity;
    && d.Obj? && Get(d, Schema) == Str(REPORT_SCHEMA)
    && Get(d, ExecutionId) == Str(id.executionId) && Get(d, TicketId) == Str(id.ticketId)
    && Get(d, CodeBaseHead) == Str(id.codeBaseHead) && Get(d, ControlHead) == Str(id.controlHead)
    && Get(d, ExecutionBranch) == Str(id.executionBranch) && Get(d, ExecutionPath) == Str(id.executionPath)
    && Get(d, WorkspaceHead) == FromOption(id.workspaceHead)
    && Get(d, ReportArtifact) == FromOption(report.artifact) && Get(d, ReportSha256) == FromOption(report.sha256)
  }

  /** The dictionary holds what is known of the process. */
  predicate MatchesProcess(d: Json, r: ExecutionResult) {
    && d.Obj? && Get(d, ProcessReturncode) == Int(r.returncode) && StartedOf(d) == Bool(r.started)
    && Get(d, TransportError) == FromOption(r.transportError) && Get(d, EgressError) == FromOption(r.egressError)
    && Get(d, TransportOk) == Bool(r.transportError.None?)
  }

  /** The dictionary holds the claim, perhaps without its optional key, and what follows from it. */
  predicate MatchesClaim(d: Json, r: ExecutionResult) {
    && d.Obj? && Get(d, EgressOk) == Bool(r.egressError.None? && r.claim.Some?)
    && FilledClaim(Get(d, WorkerClaim)) == (if r.claim.Some? then ClaimDict(r.claim.value) else Null)
    && Get(d, Conclusion) == Str(r.conclusion) && Get(d, Reason) == Str(r.reason)
    && Get(d, Key.Questions) == FromTexts(r.questions) && Get(d, Key.Remaining) == FromTexts(r.remaining)
  }

  predicate Matches(d: Json, report: ExecutionReport) {
    && d.Obj? && REQUIRED <= d.fields.Keys <= REQUIRED + OPTIONAL
    && MatchesIdentity(d, report) && MatchesProcess(d, report.result) && MatchesClaim(d, report.result)
  }

  // ----- matching is equality with the written dictionary -----

  predicate IsReportKey(key: Key) {
    match key
    case Schema | ExecutionId | TicketId | CodeBaseHead | ControlHead | ExecutionBranch | ExecutionPath
      | WorkspaceHead | ProcessReturncode | ProcessStarted | TransportError | TransportOk | EgressError | EgressOk
      | WorkerClaim | Conclusion | Questions | Remaining | Reason | ReportArtifact | ReportSha256 => true
    case _ => false
  }

  lemma ReportKeys(key: Key)
    ensures key in REQUIRED + OPTIONAL <==> IsReportKey(key)
  {
  }

  lemma MatchesByKey(d: Json, report: ExecutionReport, key: Key)
    requires d.Obj? && MatchesIdentity(d, report) && MatchesProcess(d, report.result) && MatchesClaim(d, report.result)
    requires IsReportKey(key)
    ensures ReadOf(d, key) == ValueOf(report, key)
  {
    hide FromTexts, FromOption, ClaimDict, FilledClaim, Get, StartedOf;
  }

  ghost predicate KeyByKey(d: Json, report: ExecutionReport)
    requires d.Obj?
  {
    forall key :: IsReportKey(key) ==> ReadOf(d, key) == ValueOf(report, key)
  }

  lemma OneKey(d: Json, report: ExecutionReport, key: Key)
    requires d.Obj? && KeyByKey(d, report) && IsReportKey(key)
    ensures ReadOf(d, key) == ValueOf(report, key)
  {
    hide ReadOf, ValueOf, IsReportKey;
  }

  lemma KeysMatchIdentity(d: Json, report: ExecutionReport)
    requires d.Obj? && KeyByKey(d, report)
    ensures MatchesIdentity(d, report)
  {
    hide FromTexts, FromOption, ClaimDict, FilledClaim, Get, StartedOf, KeyByKey;
    OneKey(d, report, Schema);
    OneKey(d, report, ExecutionId);
    OneKey(d, report, TicketId);
    OneKey(d, report, CodeBaseHead);
    OneKey(d, report, ControlHead);
    OneKey(d, report, ExecutionBranch);
    OneKey(d, report, ExecutionPath);
    OneKey(d, report, WorkspaceHead);
    OneKey(d, report, ReportArtifact);
    OneKey(d, report, ReportSha256);
  }

  lemma KeysMatchProcess(d: Json, report: ExecutionReport)
    requires d.Obj? && KeyByKey(d, report)
    ensures MatchesProcess(d, report.result)
  {
    hide FromTexts, FromOption, ClaimDict, FilledClaim, Get, StartedOf, KeyByKey;
    OneKey(d, report, ProcessReturncode);
    OneKey(d, report, ProcessStarted);
    OneKey(d, report, TransportError);
    OneKey(d, report, EgressError);
    OneKey(d, report, TransportOk);
  }

  lemma KeysMatchClaim(d: Json, report: ExecutionReport)
    requires d.Obj? && KeyByKey(d, report)
    ensures MatchesClaim(d, report.result)
  {
    hide FromTexts, FromOption, ClaimDict, FilledClaim, Get, StartedOf, KeyByKey;
    OneKey(d, report, EgressOk);
    OneKey(d, report, WorkerClaim);
    OneKey(d, report, Conclusion);
    OneKey(d, report, Reason);
    OneKey(d, report, Key.Questions);
    OneKey(d, report, Key.Remaining);
  }

  lemma MatchesExactly(d: Json, report: ExecutionReport)
    requires d.Obj?
    ensures Matches(d, report) <==> REQUIRED <= d.fields.Keys && Filled(d) == AsDict(report)
  {
    hide MatchesIdentity, MatchesProcess, MatchesClaim, ReadOf, ValueOf, IsReportKey;
    if Matches(d, report) {
      forall key | key in REQUIRED + OPTIONAL
        ensures ReadOf(d, key) == ValueOf(report, key)
      {
        ReportKeys(key);
        MatchesByKey(d, report, key);
      }
      assert Filled(d).fields == AsDict(report).fields;
    } else if REQUIRED <= d.fields.Keys && Filled(d) == AsDict(report) {
      assert Filled(d).fields.Keys == d.fields.Keys + OPTIONAL && AsDict(report).fields.Keys == REQUIRED + OPTIONAL;
      forall key | IsReportKey(key)
        ensures ReadOf(d, key) == ValueOf(report, key)
      {
        ReportKeys(key);
        assert ReadOf(d, key) == Filled(d).fields[key] == AsDict(report).fields[key] == ValueOf(report, key);
      }
      KeysMatchIdentity(d, report);
      KeysMatchProcess(d, report);
      KeysMatchClaim(d, report);
    }
  }

  /** The written dictionary has every key, so it is its own filled form. */
  lemma WrittenMatches(report: ExecutionReport)
    ensures Matches(AsDict(report), report)
  {
    hide ValueOf, FilledClaim, Matches, AsDict, Filled, ReadOf;
    WrittenIsFilled(report);
    MatchesExactly(AsDict(report), report);
  }

  lemma WrittenIsFilled(report: ExecutionReport)
    ensures REQUIRED <= AsDict(report).fields.Keys && Filled(AsDict(report)) == AsDict(report)
  {
    hide ValueOf, FilledClaim, ReadOf;
    var d := AsDict(report);
    assert d.fields.Keys == REQUIRED + OPTIONAL;
    UnionTwice(REQUIRED, OPTIONAL);
    forall key | key in REQUIRED + OPTIONAL
      ensures ReadOf(d, key) == ValueOf(report, key)
    {
      WrittenReadsBack(report, key);
    }
    assert Filled(d).fields == d.fields;
  }

  lemma UnionTwice<T>(a: set<T>, b: set<T>)
    ensures a + b + b == a + b && a <= a + b
  {
  }

  lemma WrittenReadsBack(report: ExecutionReport, key: Key)
    requires key in REQUIRED + OPTIONAL
    ensures ReadOf(AsDict(report), key) == ValueOf(report, key)
  {
    hide ValueOf, FilledClaim;
    WrittenClaimIsFilled(report);
  }

  lemma WrittenClaimIsFilled(report: ExecutionReport)
    ensures ValueOf(report, WorkerClaim) == FilledClaim(ValueOf(report, WorkerClaim))
  {
    hide FromTexts, FromOption;
    if report.result.claim.Some? {
      var claim := ClaimDict(report.result.claim.value);
      assert FilledClaim(claim).fields == claim.fields;
    }
  }

  // ----- matching and coherence are acceptance -----

  lemma FilledClaimParsesAlike(value: Json)
    ensures ParseClaim(FilledClaim(value)) == ParseClaim(value) && (FilledClaim(value).Null? <==> value.Null?)
  {
    hide Texts, IsStringList;
    if value.Obj? {
      var filled := FilledClaim(value);
      assert forall key :: Get(filled, key) == Get(value, key);
      assert filled.fields.Keys == value.fields.Keys + {Key.Report};
      assert HasClaimFields(filled) <==> HasClaimFields(value);
    }
  }

  lemma MatchedClaimParses(d: Json, claim: Option<Claim>)
    requires FilledClaim(d) == (if claim.Some? then ClaimDict(claim.value) else Null) && ValidClaim(claim)
    ensures ParseOptionalClaim(d) == Ok(claim)
  {
    hide ParseClaim, FilledClaim;
    FilledClaimParsesAlike(d);
    if claim.Some? { ParseOfClaimDict(claim.value); }
  }

  lemma MatchedFieldsPass(d: Json, report: ExecutionReport, lib: Library)
    requires Matches(d, report) && Coherent(report, lib)
    ensures CheckFields(d).None? && IdentityOf(d) == report.identity
  {
    hide CanonicalResult, IsIdentifier, ArtifactPath, Get, StartedOf, FromTexts, FilledClaim, ClaimDict;
  }

  lemma ConclusionIsKnown(report: ExecutionReport, lib: Library)
    requires Coherent(report, lib)
    ensures report.result.conclusion in CONCLUSIONS
  {
    hide IsIdentifier, ArtifactPath, IntText, Or, Digest;
  }

  lemma MatchedClaimPasses(d: Json, report: ExecutionReport, lib: Library)
    requires Matches(d, report) && Coherent(report, lib) && CheckFields(d).None?
    ensures CheckClaim(d, report.result.claim, lib).None?
  {
    ConclusionIsKnown(report, lib);
    hide IsIdentifier, ArtifactPath, ClaimDict, CheckFields, FromTexts, Texts, IsStringList, CanonicalResult, Get;
    hide FilledClaim;
    TextsOfFromTexts(report.result.remaining);
    TextsOfFromTexts(report.result.questions);
  }

  lemma MatchedIsAccepted(d: Json, report: ExecutionReport, lib: Library)
    requires Matches(d, report) && Coherent(report, lib)
    ensures FromDict(d, lib) == Ok(report)
  {
    hide CanonicalResult, IsIdentifier, ArtifactPath, ClaimDict, CheckFields, CheckClaim, ParseOptionalClaim;
    hide FromTexts, Texts, IsStringList, Get, StartedOf, IdentityOf, FilledClaim;
    MatchedFieldsPass(d, report, lib);
    MatchedClaimPasses(d, report, lib);
    MatchedClaimParses(Get(d, WorkerClaim), report.result.claim);
    TextsOfFromTexts(report.result.remaining);
    TextsOfFromTexts(report.result.questions);
  }

  lemma OptionalTextBack(value: Json)
    requires IsOptionalText(value)
    ensures FromOption(OptionalText(value)) == value
  {
  }

  lemma AcceptedMatchesIdentity(d: Json, lib: Library)
    requires FromDict(d, lib).Ok?
    ensures MatchesIdentity(d, FromDict(d, lib).value)
  {
    hide CanonicalResult, IsIdentifier, ArtifactPath, ParseOptionalClaim, Texts, IsStringList, Get;
    hide CheckClaim, StartedOf;
    OptionalTextBack(Get(d, WorkspaceHead));
    OptionalTextBack(Get(d, ReportArtifact));
    OptionalTextBack(Get(d, ReportSha256));
  }

  lemma AcceptedMatchesProcess(d: Json, lib: Library)
    requires FromDict(d, lib).Ok?
    ensures MatchesProcess(d, FromDict(d, lib).value.result)
  {
    hide CanonicalResult, IsIdentifier, ArtifactPath, ParseOptionalClaim, Texts, IsStringList, Get;
    hide CheckClaim, IdentityOf;
    OptionalTextBack(Get(d, TransportError));
    OptionalTextBack(Get(d, EgressError));
  }

  lemma AcceptedMatchesClaim(d: Json, lib: Library)
    requires FromDict(d, lib).Ok?
    ensures MatchesClaim(d, FromDict(d, lib).value.result) && ValidClaim(FromDict(d, lib).value.result.claim)
  {
    hide CanonicalResult, IsIdentifier, ArtifactPath, ParseClaim, Texts, IsStringList, Get, IdentityOf, StartedOf;
    hide FromTexts, FilledClaim, ClaimDict;
    OptionalTextBack(Get(d, EgressError));
    FromTextsOfTexts(Get(d, Key.Questions));
    FromTextsOfTexts(Get(d, Key.Remaining));
    var value := Get(d, WorkerClaim);
    FilledClaimParsesAlike(value);
    if !value.Null? { ClaimDictOfParse(value); }
  }

  /** A dictionary that is accepted holds a coherent report: its conclusion and reason are derivable. */
  lemma AcceptedIsCoherent(d: Json, lib: Library)
    requires FromDict(d, lib).Ok?
    ensures Coherent(FromDict(d, lib).value, lib)
  {
    hide CanonicalResult, IsIdentifier, ArtifactPath, ParseOptionalClaim, Texts, IsStringList, Get, StartedOf;
    AcceptedMatchesClaim(d, lib);
    hide MatchesClaim;
  }

  // ----- main results -----

  /** Reading an accepted dictionary and writing the report gives the dictionary back, filled in. */
  lemma AsDictOfFromDict(payload: Json, lib: Library)
    requires FromDict(payload, lib).Ok?
    ensures AsDict(FromDict(payload, lib).value) == Filled(payload)
  {
    hide CheckClaim, ParseOptionalClaim, AsDict, Filled, MatchesIdentity, MatchesProcess, MatchesClaim;
    AcceptedMatchesIdentity(payload, lib);
    AcceptedMatchesProcess(payload, lib);
    AcceptedMatchesClaim(payload, lib);
    MatchesExactly(payload, FromDict(payload, lib).value);
  }

  /**
   * `from_dict` accepts exactly the dictionaries of reports that `build_execution_report` can make (with
   * valid identifiers and claims), up to the optional keys, and returns that report.
   */
  lemma AcceptedExactly(payload: Json, report: ExecutionReport, lib: Library)
    requires payload.Obj?
    ensures FromDict(payload, lib) == Ok(report)
       <==> REQUIRED <= payload.fields.Keys && Filled(payload) == AsDict(report)
            && exists run :: BuildReport(report.identity, run, lib) == Ok(report) && ValidIdentity(report.identity)
                             && ValidClaim(run.claim)
  {
    hide FromDict, AsDict, Filled, Coherent, BuildReport, Matches;
    BuiltExactly(report, lib);
    MatchesExactly(payload, report);
    if FromDict(payload, lib) == Ok(report) {
      AsDictOfFromDict(payload, lib);
      AcceptedIsCoherent(payload, lib);
      AcceptedHasFields(payload, lib);
    } else if Matches(payload, report) && Coherent(report, lib) {
      MatchedIsAccepted(payload, report, lib);
    }
  }

  /** A report written before `process_started` existed reads as one of a worker that was started. */
  lemma OldReportsWereStarted(payload: Json, lib: Library)
    requires FromDict(payload, lib).Ok?
    ensures FromDict(payload, lib).value.result.started
       <==> ProcessStarted !in payload.fields || payload.fields[ProcessStarted] == Bool(true)
  {
    hide CanonicalResult, IsIdentifier, ArtifactPath, ParseOptionalClaim, Texts, IsStringList, Get, CheckClaim;
    hide IdentityOf;
  }

  /** A claim together with an egress error is the one thing that cannot be interpreted, nor read back. */
  lemma NeverBoth(run: WorkerRunResult, lib: Library)
    ensures BuildResult(run, lib).Err? <==> run.claim.Some? && run.egressError.Some?
  {
    hide IntText, Or;
  }

  lemma ReadNeverBoth(payload: Json, lib: Library)
    requires FromDict(payload, lib).Ok?
    ensures Get(payload, WorkerClaim).Null? || Get(payload, EgressError).Null?
  {
    hide IsIdentifier, ArtifactPath, ParseClaim, Texts, IsStringList, Get, IntText, Or, CheckClaim, StartedOf;
    hide IdentityOf;
  }

  lemma AcceptedHasFields(payload: Json, lib: Library)
    requires FromDict(payload, lib).Ok?
    ensures payload.Obj? && REQUIRED <= payload.fields.Keys
  {
  }

  /** A report can be built from any run of the egress parser whose long report, if any, can be encoded. */
  lemma BuildsExactly(identity: Identity, run: WorkerRunResult, lib: Library)
    requires run.claim.None? || run.egressError.None?
    ensures BuildReport(identity, run, lib).Ok?
       <==> LongReport(run.claim).None? || Encodable(LongReport(run.claim).value)
  {
    hide IntText, ArtifactPath;
  }

  lemma KeepsIdentity(identity: Identity, run: WorkerRunResult, lib: Library)
    requires BuildReport(identity, run, lib).Ok?
    ensures BuildReport(identity, run, lib).value.identity == identity
  {
    hide BuildResult;
  }

  /** The report of any such run survives its dictionary form. */
  lemma ReportRoundTrip(identity: Identity, run: WorkerRunResult, lib: Library)
    requires ValidIdentity(identity) && ValidClaim(run.claim)
    requires BuildReport(identity, run, lib).Ok?
    ensures FromDict(AsDict(BuildReport(identity, run, lib).value), lib) == BuildReport(identity, run, lib)
  {
    var report := BuildReport(identity, run, lib).value;
    KeepsIdentity(identity, run, lib);
    hide BuildReport, Coherent, FromDict, AsDict, ValidIdentity, ValidClaim, Matches;
    BuiltExactly(report, lib);
    WrittenMatches(report);
    MatchedIsAccepted(AsDict(report), report, lib);
  }

  /** What `write` checks first: a report survives its dictionary form exactly when it is coherent. */
  lemma AcceptsOwnDict(report: ExecutionReport, lib: Library)
    ensures FromDict(AsDict(report), lib).Ok? <==> Coherent(report, lib)
    ensures Coherent(report, lib) ==> FromDict(AsDict(report), lib) == Ok(report)
  {
    hide FromDict, AsDict, Coherent, Matches;
    WrittenMatches(report);
    if Coherent(report, lib) {
      MatchedIsAccepted(AsDict(report), report, lib);
    } else if FromDict(AsDict(report), lib).Ok? {
      AcceptedIsCoherent(AsDict(report), lib);
      AcceptedIsSelf(AsDict(report), report, lib);
    }
  }

  lemma AcceptedIsSelf(d: Json, report: ExecutionReport, lib: Library)
    requires Matches(d, report) && FromDict(d, lib).Ok?
    ensures FromDict(d, lib).value == report
  {
    hide CanonicalResult, IsIdentifier, ArtifactPath, ClaimDict, CheckClaim, ParseOptionalClaim;
    hide FromTexts, Texts, IsStringList, Get, StartedOf, FilledClaim;
    TextsOfFromTexts(report.result.remaining);
    TextsOfFromTexts(report.result.questions);
    AcceptedClaimIsSelf(Get(d, WorkerClaim), report.result.claim);
  }

  lemma AcceptedClaimIsSelf(value: Json, claim: Option<Claim>)
    requires FilledClaim(value) == (if claim.Some? then ClaimDict(claim.value) else Null)
    requires ParseOptionalClaim(value).Ok?
    ensures ParseOptionalClaim(value) == Ok(claim)
  {
    hide ParseClaim, FilledClaim, ClaimDict;
    FilledClaimParsesAlike(value);
    if claim.Some? {
      ParsedOutcome(claim.value);
      ParseOfClaimDict(claim.value);
    }
  }

  lemma ParsedOutcome(claim: Claim)
    requires ParseClaim(ClaimDict(claim)).Ok?
    ensures IsOutcome(claim.outcome)
  {
    hide Texts, IsStringList, FromTexts;
  }
}
