/** JSON values as the Python decoder returns them. The text form itself is not modelled. */
module Json {
  import opened Bytes
  import opened Unicode

  /** The names the program looks up in dictionaries; every other name is Other. */
  datatype Key =
    // events on stdout
    | Type | Part | Tool | State | Status | Input | Text | Error | Message | Data | Name
    // claims
    | Outcome | Summary | Remaining | Questions | Report
    // execution reports
    | Schema | ExecutionId | TicketId | CodeBaseHead | ControlHead | ExecutionBranch | ExecutionPath
    | WorkspaceHead | ProcessReturncode | ProcessStarted | TransportError | TransportOk | EgressError | EgressOk
    | WorkerClaim | Conclusion | Reason | ReportArtifact | ReportSha256
    | Other(name: string)

  datatype Json =
    | Null
    | Bool(b: bool)
    | Int(i: int)
    | Real(r: real)
    | Str(s: Text)
    | Arr(items: seq<Json>)
    | Obj(fields: map<Key, Json>)

  /** `dict.get(key)`: an absent key reads as None, like a null value. */
  function Get(value: Json, key: Key): Json
    requires value.Obj?
  {
    if key in value.fields then value.fields[key] else Null
  }

  /** Lists and dictionaries cannot be looked up in a set. */
  predicate Unhashable(value: Json) {
    value.Arr? || value.Obj?
  }

  predicate IsStringList(value: Json) {
    value.Arr? && forall i :: 0 <= i < |value.items| ==> value.items[i].Str?
  }

  function Texts(value: Json): (texts: seq<Text>)
    requires IsStringList(value)
  {
    seq(|value.items|, i requires 0 <= i < |value.items| => value.items[i].s)
  }

  function FromTexts(texts: seq<Text>): Json {
    Arr(seq(|texts|, i requires 0 <= i < |texts| => Str(texts[i])))
  }

  function FromOption(text: Option<Text>): Json {
    if text.Some? then Str(text.value) else Null
  }

  predicate IsOptionalText(value: Json) {
    value.Null? || value.Str?
  }

  function OptionalText(value: Json): Option<Text>
    requires IsOptionalText(value)
  {
    if value.Str? then Some(value.s) else None
  }

  lemma TextsOfFromTexts(texts: seq<Text>)
    ensures IsStringList(FromTexts(texts)) && Texts(FromTexts(texts)) == texts
  {
    assert Texts(FromTexts(texts)) == texts;
  }

  lemma FromTextsOfTexts(value: Json)
    requires IsStringList(value)
    ensures FromTexts(Texts(value)) == value
  {
    assert FromTexts(Texts(value)).items == value.items;
  }
}
