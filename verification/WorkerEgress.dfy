/** The worker's reserved report event and the parser that accepts exactly one (worker_egress.py). */
module WorkerEgress {
  import opened Bytes
  import opened Json
  import opened Unicode

  datatype Claim = Claim(
    outcome: Text, summary: Text, remaining: seq<Text>, questions: seq<Text>, report: Option<Text>)

  predicate IsOutcome(text: Text) {
    text == U("completed") || text == U("incomplete") || text == U("blocked")
  }

  const CLAIM_FIELDS: set<Key> := {Key.Outcome, Key.Summary, Key.Remaining, Key.Questions, Key.Report}

  /** Exactly the claim's fields, the report being optional. */
  predicate HasClaimFields(arguments: Json) {
    arguments.Obj? && (arguments.fields.Keys == CLAIM_FIELDS || arguments.fields.Keys == CLAIM_FIELDS - {Key.Report})
  }

  function ReadClaim(arguments: Json): Result<Claim, Text> {
    if !HasClaimFields(arguments) then Err(U("devlegate_report arguments must have exact fields"))
    else
      var outcome, summary := Get(arguments, Key.Outcome), Get(arguments, Key.Summary);
      var remaining, questions := Get(arguments, Key.Remaining), Get(arguments, Key.Questions);
      var report := Get(arguments, Key.Report);
      if !outcome.Str? || !IsOutcome(outcome.s) then Err(U("devlegate_report outcome is invalid"))
      else if !summary.Str? then Err(U("devlegate_report summary must be a string"))
      else if !IsStringList(remaining) then Err(U("devlegate_report remaining must be list[string]"))
      else if !IsStringList(questions) then Err(U("devlegate_report questions must be list[string]"))
      else if !IsOptionalText(report) then Err(U("devlegate_report report must be a string or null"))
      else Ok(Claim(outcome.s, summary.s, Texts(remaining), Texts(questions), OptionalText(report)))
  }

  /** An event of the reserved tool, well formed or not. */
  predicate Reserved(event: Json) {
    && event.Obj? && Get(event, Key.Type) == Str(U("tool_use"))
    && Get(event, Key.Part).Obj? && Get(Get(event, Key.Part), Key.Tool) == Str(U("devlegate_report"))
  }

  /** What a reserved event claims by itself. */
  function ClaimOf(event: Json): Result<Claim, Text>
    requires Reserved(event)
  {
    var part := Get(event, Key.Part);
    var state := Get(part, Key.State);
    if Get(part, Key.Type) != Str(U("tool")) then Err(U("devlegate_report event has invalid tool type"))
    else if !state.Obj? || Get(state, Key.Status) != Str(U("completed")) then
      Err(U("devlegate_report event is not completed"))
    else ReadClaim(Get(state, Key.Input))
  }

  datatype Parsed = Parsed(claim: Option<Claim>, error: Option<Text>)

  function Consumed(p: Parsed, event: Json): Parsed {
    if p.error.Some? || !Reserved(event) then p
    else
      var part := Get(event, Key.Part);
      var state := Get(part, Key.State);
      if Get(part, Key.Type) != Str(U("tool")) then p.(error := Some(U("devlegate_report event has invalid tool type")))
      else if !state.Obj? || Get(state, Key.Status) != Str(U("completed")) then
        p.(error := Some(U("devlegate_report event is not completed")))
      else if p.claim.Some? then p.(error := Some(U("duplicate devlegate_report event")))
      else match ReadClaim(Get(state, Key.Input))
        case Ok(claim) => p.(claim := Some(claim))
        case Err(error) => p.(error := Some(error))
  }

  class WorkerEgressParser {
    var claim: Option<Claim>
    var error: Option<Text>

    constructor ()
      ensures State() == Parsed(None, None)
    {
      claim, error := None, None;
    }

    function State(): Parsed
      reads this
    {
      Parsed(claim, error)
    }

    method Consume(event: Json)
      modifies this
      ensures State() == Consumed(old(State()), event)
    {
      if error.Some? {
        return;
      }
      if !event.Obj? || Get(event, Key.Type) != Str(U("tool_use")) {
        return;
      }
      var part := Get(event, Key.Part);
      if !part.Obj? || Get(part, Key.Tool) != Str(U("devlegate_report")) {
        return;
      }
      if Get(part, Key.Type) != Str(U("tool")) {
        error := Some(U("devlegate_report event has invalid tool type"));
        return;
      }
      var state := Get(part, Key.State);
      if !state.Obj? || Get(state, Key.Status) != Str(U("completed")) {
        error := Some(U("devlegate_report event is not completed"));
        return;
      }
      if claim.Some? {
        error := Some(U("duplicate devlegate_report event"));
        return;
      }
      var read := ReadClaim(Get(state, Key.Input));
      if read.Ok? {
        claim := Some(read.value);
      } else {
        error := Some(read.error);
      }
    }

    /** The accepted claim, or why there is none. */
    method Finish() returns (accepted: Option<Claim>, problem: Option<Text>)
      ensures (accepted, problem) == Finished(State())
    {
      if error.Some? {
        return None, error;
      }
      if claim.None? {
        return None, Some(U("exactly one devlegate_report event is required"));
      }
      return claim, None;
    }
  }

  function Finished(p: Parsed): (Option<Claim>, Option<Text>) {
    if p.error.Some? then (None, p.error)
    else if p.claim.None? then (None, Some(U("exactly one devlegate_report event is required")))
    else (p.claim, None)
  }

  function ConsumedAll(p: Parsed, events: seq<Json>): Parsed
    decreases |events|
  {
    if events == [] then p else ConsumedAll(Consumed(p, events[0]), events[1..])
  }

  // ----- what the parser accepts -----

  predicate NoneReserved(events: seq<Json>) {
    forall i :: 0 <= i < |events| ==> !Reserved(events[i])
  }

  /** Event `i` is the only reserved one, and it is a valid claim. */
  predicate OnlyClaim(events: seq<Json>, i: nat, claim: Claim) {
    && i < |events| && Reserved(events[i]) && ClaimOf(events[i]) == Ok(claim)
    && NoneReserved(events[..i]) && NoneReserved(events[i + 1..])
  }

  lemma {:induction false} ErrorIsFinal(p: Parsed, events: seq<Json>)
    requires p.error.Some?
    ensures ConsumedAll(p, events) == p
    decreases |events|
  {
    if events != [] { ErrorIsFinal(p, events[1..]); }
  }

  /** After a claim, any further reserved event is an error. */
  lemma {:induction false} AfterAClaim(claim: Claim, events: seq<Json>)
    ensures var p := ConsumedAll(Parsed(Some(claim), None), events);
            if NoneReserved(events) then p == Parsed(Some(claim), None) else p.error.Some?
    decreases |events|
  {
    hide ReadClaim, Reserved;
    if events != [] {
      var p := Consumed(Parsed(Some(claim), None), events[0]);
      if Reserved(events[0]) {
        assert p.error.Some?;
        ErrorIsFinal(p, events[1..]);
      } else {
        AfterAClaim(claim, events[1..]);
        assert NoneReserved(events) <==> NoneReserved(events[1..]);
      }
    }
  }

  /** The parser accepts a claim exactly when one event is reserved and that one is the valid claim. */
  lemma {:induction false} AcceptsExactlyOne(events: seq<Json>, claim: Claim)
    ensures Finished(ConsumedAll(Parsed(None, None), events)).0 == Some(claim)
       <==> exists i :: OnlyClaim(events, i, claim)
    decreases |events|
  {
    hide ReadClaim, Reserved;
    if events != [] {
      var p, rest := Consumed(Parsed(None, None), events[0]), events[1..];
      if Reserved(events[0]) {
        assert forall i :: OnlyClaim(events, i, claim) ==> i == 0;
        assert events[1..] == rest && events[..0] == [];
        match ClaimOf(events[0]) {
          case Ok(first) =>
            assert p == Parsed(Some(first), None);
            AfterAClaim(first, rest);
            assert OnlyClaim(events, 0, claim) <==> first == claim && NoneReserved(rest);
          case Err(error) =>
            assert p.error.Some?;
            ErrorIsFinal(p, rest);
        }
      } else {
        AcceptsExactlyOne(rest, claim);
        LaterClaim(events, claim);
      }
    }
  }

  lemma LaterClaim(events: seq<Json>, claim: Claim)
    requires events != [] && !Reserved(events[0])
    ensures (exists i :: OnlyClaim(events, i, claim)) <==> (exists i :: OnlyClaim(events[1..], i, claim))
  {
    hide ReadClaim, ClaimOf, Reserved;
    forall i: nat | OnlyClaim(events, i, claim)
      ensures i > 0 && OnlyClaim(events[1..], i - 1, claim)
    {
      assert events[1..][..i - 1] == events[..i][1..] && events[1..][i - 1 + 1..] == events[i + 1..];
    }
    forall i: nat | OnlyClaim(events[1..], i, claim)
      ensures OnlyClaim(events, i + 1, claim)
    {
      assert events[..i + 1] == [events[0]] + events[1..][..i] && events[i + 1 + 1..] == events[1..][i + 1..];
    }
  }
}
