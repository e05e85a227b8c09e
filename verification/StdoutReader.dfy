/** `consume_stdout`: the bounded reader of the worker's JSON events (worker_supervisor.py). */
module StdoutReader {
  import opened Bytes
  import opened Json
  import opened Unicode
  import opened WorkerEgress

  const MAX_STDOUT_EVENT_BYTES: nat := 1024 * 1024

  // ----- lines -----

  predicate HoldsLF(s: bytes) {
    exists i :: 0 <= i < |s| && s[i] == LF
  }

  /** The first line of `s`, with its LF; all of `s` when there is none. */
  function FirstLine(s: bytes): (n: nat)
    requires s != []
    ensures 0 < n <= |s|
    ensures forall i :: 0 <= i < n - 1 ==> s[i] != LF
    ensures n == |s| || s[n - 1] == LF
  {
    if s[0] == LF || |s| == 1 then 1 else
      var n := 1 + FirstLine(s[1..]);
      assert forall i :: 0 < i < n - 1 ==> s[i] == s[1..][i - 1];
      n
  }

  function Lines(s: bytes): (lines: seq<bytes>)
    decreases |s|
  {
    if s == [] then [] else [s[..FirstLine(s)]] + Lines(s[FirstLine(s)..])
  }

  /** A line has its only LF at its end, and only the last line may lack one. */
  predicate IsLine(line: bytes, last: bool) {
    line != [] && !HoldsLF(line[..|line| - 1]) && (last || line[|line| - 1] == LF)
  }

  lemma {:induction false} LinesPartition(s: bytes)
    ensures Join(Lines(s)) == s
    ensures forall i :: 0 <= i < |Lines(s)| ==> IsLine(Lines(s)[i], i == |Lines(s)| - 1)
    decreases |s|
  {
    if s != [] {
      var n := FirstLine(s);
      LinesPartition(s[n..]);
      assert s == s[..n] + s[n..];
      assert n == |s| ==> s[n..] == [];
      forall i | 0 <= i < |Lines(s)|
        ensures IsLine(Lines(s)[i], i == |Lines(s)| - 1)
      {
        if i > 0 { assert Lines(s)[i] == Lines(s[n..])[i - 1]; }
      }
    }
  }

  /** A cut strictly inside the first line leaves the rest of that line first. */
  lemma FirstLineFromInside(s: bytes, k: nat)
    requires s != [] && k < FirstLine(s)
    ensures FirstLine(s[k..]) == FirstLine(s) - k
    decreases k
  {
    if k > 0 {
      assert s[0] != LF;
      assert s[1..][k - 1..] == s[k..];
      FirstLineFromInside(s[1..], k - 1);
    } else {
      assert s[0..] == s;
    }
  }

  /** The worker's stdout: a byte stream with Python's bounded `readline`. */
  class Pipe {
    const data: bytes
    var position: nat

    constructor (data: bytes)
      ensures Valid() && this.data == data && Rest() == data
    {
      this.data, position := data, 0;
    }

    predicate Valid()
      reads this
    {
      position <= |data|
    }

    function Rest(): bytes
      reads this
      requires Valid()
    {
      data[position..]
    }

    method Readline(limit: nat) returns (line: bytes)
      requires Valid() && limit > 0
      modifies this
      ensures Valid() && line + Rest() == old(Rest())
      ensures old(Rest()) == [] ==> line == []
      ensures old(Rest()) != [] ==> |line| == if FirstLine(old(Rest())) < limit then FirstLine(old(Rest())) else limit
    {
      if position == |data| {
        return [];
      }
      var n := FirstLine(Rest());
      var count := if n < limit then n else limit;
      line := Rest()[..count];
      position := position + count;
    }
  }

  /** How much of the first line one call of the reader's `readline` returns. */
  function Chunk(s: bytes): nat
    requires s != []
  {
    if FirstLine(s) < MAX_STDOUT_EVENT_BYTES + 1 then FirstLine(s) else MAX_STDOUT_EVENT_BYTES + 1
  }

  /** Reading `k` bytes without reaching the line's LF leaves the rest of that line, or the end. */
  lemma SkipsOneLine(s: bytes, k: nat)
    requires s != [] && 0 < k <= FirstLine(s) && s[k - 1] != LF
    ensures if s[k..] == [] then FirstLine(s) == |s| else s[FirstLine(s)..] == s[k..][FirstLine(s[k..])..]
  {
    if k < FirstLine(s) { FirstLineFromInside(s, k); }
  }

  // ----- records -----

  /** `json.loads(line.decode("utf-8"))`: a value, an error the reader catches, or one it does not. */
  datatype Decoded = Value(event: Json) | Invalid | Raises

  /**
   * What happened to what a record writes: its text to the execution log and to the operator's terminal, and
   * the notice of a protocol error to the service log.
   */
  datatype Writes = Writes(logFailed: bool, displayRaised: bool, noticeRaised: bool)

  /** How the reader takes an event: as supported, with a transport error, or with an uncaught TypeError. */
  datatype Verdict = Supported | Rejected(message: Text) | Unhandled

  predicate IsEventType(text: Json) {
    text.Str? && text.s in {U("error"), U("reasoning"), U("step_finish"), U("step_start"), U("text"), U("tool_use")}
  }

  predicate IsStatus(status: Json) {
    status.Str? && status.s in {U("pending"), U("running"), U("completed"), U("error")}
  }

  function Judge(event: Json): Verdict {
    if !event.Obj? then Rejected(U("unsupported event on stdout"))
    else if Unhashable(Get(event, Key.Type)) then Unhandled
    else if !IsEventType(Get(event, Key.Type)) then Rejected(U("unsupported event on stdout"))
    else
      var kind, part := Get(event, Key.Type).s, Get(event, Key.Part);
      if kind == U("text") || kind == U("reasoning") then
        if !part.Obj? || !Get(part, Key.Text).Str? then Rejected(U("text event has no text part")) else Supported
      else if kind == U("tool_use") then
        if !part.Obj? || !Get(part, Key.Tool).Str? || !Get(part, Key.State).Obj? then
          Rejected(U("invalid tool event on stdout"))
        else if Unhashable(Get(Get(part, Key.State), Key.Status)) then Unhandled
        else if !IsStatus(Get(Get(part, Key.State), Key.Status)) then Rejected(U("invalid tool event on stdout"))
        else Supported
      else Supported
  }

  /** `_extract_error_message`. */
  function ErrorMessage(error: Json): Option<Text> {
    if error.Str? then Some(error.s)
    else if !error.Obj? then None
    else if Get(error, Key.Message).Str? then Some(Get(error, Key.Message).s)
    else if Get(error, Key.Data).Obj? && Get(Get(error, Key.Data), Key.Message).Str? then
      Some(Get(Get(error, Key.Data), Key.Message).s)
    else if Get(error, Key.Name).Str? then Some(Get(error, Key.Name).s)
    else None
  }

  /** Whether a supported event writes any text. */
  predicate Shows(event: Json)
    requires Judge(event).Supported?
  {
    var kind := Get(event, Key.Type).s;
    if kind == U("error") then ErrorMessage(Get(event, Key.Error)) !in {None, Some(U(""))}
    else kind == U("text") || kind == U("reasoning") || kind == U("tool_use")
  }

  /** What the reader thread has done so far; `alive` is false once an exception has ended it. */
  datatype Reader = Reader(parsed: Parsed, transport: Option<Text>, logFailed: bool, alive: bool)

  /** A protocol error: it is kept before it is logged, and a service log that raises ends the thread. */
  function Noticed(r: Reader, message: Text, writes: Writes): Reader {
    r.(transport := Some(message), alive := !writes.noticeRaised)
  }

  function Handled(r: Reader, event: Json, writes: Writes): Reader {
    var next := r.(parsed := Consumed(r.parsed, event));
    match Judge(event)
    case Rejected(message) => Noticed(next, message, writes)
    case Unhandled => next.(alive := false)
    case Supported =>
      if Shows(event) then next.(logFailed := r.logFailed || writes.logFailed, alive := !writes.displayRaised)
      else next
  }

  /** One record, with its own LF. */
  function Read(r: Reader, line: bytes, decode: bytes -> Decoded, writes: Writes): Reader {
    if |line| > MAX_STDOUT_EVENT_BYTES then Noticed(r, U("stdout event exceeds maximum size"), writes)
    else match decode(line)
      case Invalid => Noticed(r, U("invalid JSON event on stdout"), writes)
      case Raises => r.(alive := false)
      case Value(event) => Handled(r, event, writes)
  }

  /** All records from number `k` on, until the thread ends. */
  function ReadAll(r: Reader, lines: seq<bytes>, k: nat, decode: bytes -> Decoded, writes: nat -> Writes): Reader
    decreases |lines|
  {
    if lines == [] || !r.alive then r
    else ReadAll(Read(r, lines[0], decode, writes(k)), lines[1..], k + 1, decode, writes)
  }

  /** Where a piece of a stream ends, and what comes after it. */
  lemma Halves(all: bytes, done: nat, piece: bytes, rest: bytes)
    requires done <= |all| && all[done..] == piece + rest && piece != []
    ensures done + |piece| <= |all| && all[done + |piece|..] == rest
    ensures all[done + |piece| - 1] == piece[|piece| - 1]
  {
    assert all[done..][|piece|..] == rest && all[done..][|piece| - 1] == piece[|piece| - 1];
  }

  /** The rest of an oversized record: everything up to the next LF, or to the end of the stream. */
  method Discard(pipe: Pipe)
    requires pipe.Valid()
    modifies pipe
    ensures pipe.Valid()
    ensures pipe.Rest() == if old(pipe.Rest()) == [] then [] else old(pipe.Rest())[FirstLine(old(pipe.Rest()))..]
  {
    ghost var all := pipe.Rest();
    ghost var n := if all == [] then 0 else FirstLine(all);
    ghost var done := 0;
    var discarded := pipe.Readline(MAX_STDOUT_EVENT_BYTES + 1);
    while discarded != []
      invariant pipe.Valid() && 0 <= done <= n
      invariant discarded + pipe.Rest() == all[done..]
      invariant if discarded == [] then done == n else done + |discarded| <= n
      invariant discarded != [] ==> |discarded| == MAX_STDOUT_EVENT_BYTES + 1 || done + |discarded| == n
      decreases n - done
    {
      Halves(all, done, discarded, pipe.Rest());
      if discarded[|discarded| - 1] == LF {
        break;
      }
      done := done + |discarded|;
      if done < n {
        FirstLineFromInside(all, done);
      }
      discarded := pipe.Readline(MAX_STDOUT_EVENT_BYTES + 1);
    }
  }

  /** The effect of one decoded event on the parser and on the thread's own variables. */
  method HandleEvent(parser: WorkerEgressParser, event: Json, writes: Writes, transport: Option<Text>, logFailed: bool)
    returns (transport': Option<Text>, logFailed': bool, alive: bool)
    modifies parser
    ensures Reader(parser.State(), transport', logFailed', alive)
         == Handled(Reader(old(parser.State()), transport, logFailed, true), event, writes)
  {
    transport', logFailed', alive := transport, logFailed, true;
    parser.Consume(event);
    if event.Obj? && Unhashable(Get(event, Key.Type)) {
      alive := false;
      return;
    }
    if !event.Obj? || !IsEventType(Get(event, Key.Type)) {
      transport' := Some(U("unsupported event on stdout"));
      alive := !writes.noticeRaised;
      return;
    }
    var kind, part := Get(event, Key.Type).s, Get(event, Key.Part);
    if kind == U("text") || kind == U("reasoning") {
      if !part.Obj? || !Get(part, Key.Text).Str? {
        transport' := Some(U("text event has no text part"));
        alive := !writes.noticeRaised;
        return;
      }
    } else if kind == U("tool_use") {
      if !part.Obj? || !Get(part, Key.Tool).Str? || !Get(part, Key.State).Obj? {
        transport' := Some(U("invalid tool event on stdout"));
        alive := !writes.noticeRaised;
        return;
      }
      var status := Get(Get(part, Key.State), Key.Status);
      if Unhashable(status) {
        alive := false;
        return;
      }
      if !IsStatus(status) {
        transport' := Some(U("invalid tool event on stdout"));
        alive := !writes.noticeRaised;
        return;
      }
    } else if kind == U("error") {
      if ErrorMessage(Get(event, Key.Error)) in {None, Some(U(""))} {
        return;
      }
    } else {
      return;
    }
    logFailed' := logFailed || writes.logFailed;
    alive := !writes.displayRaised;
  }

  /** A record of acceptable length: decode it and handle its event. */
  method HandleRecord(parser: WorkerEgressParser, line: bytes, decode: bytes -> Decoded, writes: Writes,
                      transport: Option<Text>, logFailed: bool)
    returns (transport': Option<Text>, logFailed': bool, alive: bool)
    requires |line| <= MAX_STDOUT_EVENT_BYTES
    modifies parser
    ensures Reader(parser.State(), transport', logFailed', alive)
         == Read(Reader(old(parser.State()), transport, logFailed, true), line, decode, writes)
  {
    hide Handled;
    match decode(line) {
      case Invalid => return Some(U("invalid JSON event on stdout")), logFailed, !writes.noticeRaised;
      case Raises => return transport, logFailed, false;
      case Value(event) =>
        transport', logFailed', alive := HandleEvent(parser, event, writes, transport, logFailed);
    }
  }

  lemma ReadAllStep(r: Reader, rest: bytes, k: nat, decode: bytes -> Decoded, writes: nat -> Writes)
    requires r.alive && rest != []
    ensures ReadAll(r, Lines(rest), k, decode, writes)
         == ReadAll(Read(r, rest[..FirstLine(rest)], decode, writes(k)),
                    Lines(rest[FirstLine(rest)..]), k + 1, decode, writes)
  {
    hide Read, FirstLine;
    var n := FirstLine(rest);
    assert Lines(rest) == [rest[..n]] + Lines(rest[n..]);
    assert Lines(rest)[1..] == Lines(rest[n..]);
  }

  lemma ReadAllEnds(r: Reader, lines: seq<bytes>, k: nat, decode: bytes -> Decoded, writes: nat -> Writes)
    requires !r.alive || lines == []
    ensures ReadAll(r, lines, k, decode, writes) == r
  {
  }

  /**
   * The reader thread. It splits at LF and drops records over the limit, whatever the record lengths:
   * after a dropped record it is at the start of the next one.
   */
  method ConsumeStdout(pipe: Pipe, parser: WorkerEgressParser, decode: bytes -> Decoded, writes: nat -> Writes)
    returns (transport: Option<Text>, logFailed: bool, alive: bool)
    requires pipe.Valid()
    modifies pipe, parser
    ensures Reader(parser.State(), transport, logFailed, alive)
         == ReadAll(Reader(old(parser.State()), None, false, true), Lines(old(pipe.Rest())), 0, decode, writes)
    ensures pipe.Valid() && (alive ==> pipe.Rest() == [])
  {
    hide Handled, Lines, FirstLine, ReadAll, Read;
    transport, logFailed, alive := None, false, true;
    var k: nat := 0;
    ghost var end := ReadAll(Reader(parser.State(), None, false, true), Lines(pipe.Rest()), 0, decode, writes);
    ghost var rest := pipe.Rest();
    var line := pipe.Readline(MAX_STDOUT_EVENT_BYTES + 1);
    while line != []
      invariant pipe.Valid() && rest == line + pipe.Rest()
      invariant if rest == [] then line == [] else |line| == Chunk(rest)
      invariant alive
      invariant end == ReadAll(Reader(parser.State(), transport, logFailed, true), Lines(rest), k, decode, writes)
      decreases |rest|
    {
      ghost var n := FirstLine(rest);
      ReadAllStep(Reader(parser.State(), transport, logFailed, true), rest, k, decode, writes);
      assert line == rest[..|line|] && pipe.Rest() == rest[|line|..];
      if |line| > MAX_STDOUT_EVENT_BYTES {
        OversizedRead(Reader(parser.State(), transport, logFailed, true), rest[..n], decode, writes(k));
        transport, alive := Some(U("stdout event exceeds maximum size")), !writes(k).noticeRaised;
        if !alive {
          ReadAllEnds(Reader(parser.State(), transport, logFailed, alive), Lines(rest[n..]), k + 1, decode, writes);
          return;
        }
        if line[|line| - 1] != LF {
          SkipsOneLine(rest, |line|);
          Discard(pipe);
        } else {
          assert n == |line|;
        }
      } else {
        transport, logFailed, alive := HandleRecord(parser, line, decode, writes(k), transport, logFailed);
        if !alive {
          ReadAllEnds(Reader(parser.State(), transport, logFailed, alive), Lines(rest[n..]), k + 1, decode, writes);
          return;
        }
      }
      assert pipe.Rest() == rest[n..];
      rest := rest[n..];
      k := k + 1;
      line := pipe.Readline(MAX_STDOUT_EVENT_BYTES + 1);
    }
    NoLines();
    ReadAllEnds(Reader(parser.State(), transport, logFailed, true), Lines(rest), k, decode, writes);
  }

  lemma NoLines()
    ensures Lines([]) == []
  {
  }

  lemma OversizedRead(r: Reader, line: bytes, decode: bytes -> Decoded, writes: Writes)
    requires |line| > MAX_STDOUT_EVENT_BYTES
    ensures Read(r, line, decode, writes) == Noticed(r, U("stdout event exceeds maximum size"), writes)
  {
  }

  // ----- what the reader found -----

  /** A record the reader accepts without complaint: short enough, decodable, and a supported event. */
  predicate Good(line: bytes, decode: bytes -> Decoded) {
    && |line| <= MAX_STDOUT_EVENT_BYTES
    && decode(line).Value? && Judge(decode(line).event).Supported?
  }

  /** A record that raises an exception the reader does not catch: in the decoder, or on an unhashable value. */
  predicate Uncaught(line: bytes, decode: bytes -> Decoded) {
    && |line| <= MAX_STDOUT_EVENT_BYTES
    && (decode(line).Raises? || (decode(line).Value? && Judge(decode(line).event).Unhandled?))
  }

  /** A record the reader reports as a protocol error. */
  predicate Refused(line: bytes, decode: bytes -> Decoded) {
    || |line| > MAX_STDOUT_EVENT_BYTES || decode(line).Invalid?
    || (decode(line).Value? && Judge(decode(line).event).Rejected?)
  }

  /** A record on which an exception ends the reader thread: its own, or one from writing about it. */
  predicate Stops(line: bytes, decode: bytes -> Decoded, writes: Writes) {
    || Uncaught(line, decode)
    || (Refused(line, decode) && writes.noticeRaised)
    || (Good(line, decode) && Shows(decode(line).event) && writes.displayRaised)
  }

  /** A record whose text could not be written to the execution log. */
  predicate LosesLog(line: bytes, decode: bytes -> Decoded, writes: Writes) {
    Good(line, decode) && Shows(decode(line).event) && writes.logFailed
  }

  /** The first record that ends the thread, or the number of records. */
  function StopIndex(lines: seq<bytes>, k: nat, decode: bytes -> Decoded, writes: nat -> Writes): (m: nat)
    ensures m <= |lines|
    ensures m < |lines| ==> Stops(lines[m], decode, writes(k + m))
    ensures forall i :: 0 <= i < m ==> !Stops(lines[i], decode, writes(k + i))
    decreases |lines|
  {
    if lines == [] || Stops(lines[0], decode, writes(k)) then 0
    else
      var m := 1 + StopIndex(lines[1..], k + 1, decode, writes);
      assert forall i :: 0 < i < m ==> lines[i] == lines[1..][i - 1] && k + i == k + 1 + (i - 1);
      m
  }

  /** The records the thread takes before it ends, the one that ends it included. */
  function Taken(lines: seq<bytes>, k: nat, decode: bytes -> Decoded, writes: nat -> Writes): seq<bytes> {
    var m := StopIndex(lines, k, decode, writes);
    if m < |lines| then lines[..m + 1] else lines
  }

  /** The decoded values of the records that are short enough. */
  function Events(lines: seq<bytes>, decode: bytes -> Decoded): seq<Json>
    decreases |lines|
  {
    if lines == [] then []
    else if |lines[0]| <= MAX_STDOUT_EVENT_BYTES && decode(lines[0]).Value? then
      [decode(lines[0]).event] + Events(lines[1..], decode)
    else Events(lines[1..], decode)
  }

  /** One record: what it adds, and whether it spoils the transport, the log or the thread. */
  lemma ReadMeaning(r: Reader, line: bytes, decode: bytes -> Decoded, writes: Writes)
    requires r.alive
    ensures var n := Read(r, line, decode, writes);
            && n.parsed == ConsumedAll(r.parsed, Events([line], decode))
            && (n.alive <==> !Stops(line, decode, writes))
            && (n.transport.None? <==> r.transport.None? && !Refused(line, decode))
            && (n.logFailed <==> r.logFailed || LosesLog(line, decode, writes))
  {
    hide Judge, Shows, Consumed;
    assert [line][1..] == [];
    assert Events([], decode) == [];
    if |line| <= MAX_STDOUT_EVENT_BYTES && decode(line).Value? {
      var event := decode(line).event;
      assert [event][1..] == [];
      assert ConsumedAll(r.parsed, [event]) == ConsumedAll(Consumed(r.parsed, event), []);
    }
  }

  lemma {:induction false} ConsumedAppend(p: Parsed, a: seq<Json>, b: seq<Json>)
    ensures ConsumedAll(p, a + b) == ConsumedAll(ConsumedAll(p, a), b)
    decreases |a|
  {
    if a == [] {
      assert a + b == b;
    } else {
      assert (a + b)[0] == a[0] && (a + b)[1..] == a[1..] + b;
      ConsumedAppend(Consumed(p, a[0]), a[1..], b);
    }
  }

  /** The records before the one that ends the thread are good, and that one, if any, is not refused. */
  predicate AllFine(lines: seq<bytes>, k: nat, decode: bytes -> Decoded, writes: nat -> Writes) {
    var m := StopIndex(lines, k, decode, writes);
    (forall i :: 0 <= i < m ==> Good(lines[i], decode)) && (m < |lines| ==> !Refused(lines[m], decode))
  }

  predicate LogKept(lines: seq<bytes>, k: nat, decode: bytes -> Decoded, writes: nat -> Writes) {
    var taken := Taken(lines, k, decode, writes);
    forall i :: 0 <= i < |taken| ==> !LosesLog(taken[i], decode, writes(k + i))
  }

  /** The whole stream, read off the records the thread takes. */
  lemma {:induction false} ReadAllMeaning(r: Reader, lines: seq<bytes>, k: nat, decode: bytes -> Decoded,
                                          writes: nat -> Writes)
    requires r.alive
    ensures var n := ReadAll(r, lines, k, decode, writes);
            && n.parsed == ConsumedAll(r.parsed, Events(Taken(lines, k, decode, writes), decode))
            && (n.alive <==> StopIndex(lines, k, decode, writes) == |lines|)
            && (n.transport.None? <==> r.transport.None? && AllFine(lines, k, decode, writes))
            && (n.logFailed <==> r.logFailed || !LogKept(lines, k, decode, writes))
    decreases |lines|
  {
    hide Read, Good, Refused, Stops, LosesLog, Consumed, AllFine, LogKept, Taken, Events, ConsumedAll;
    if lines == [] {
      NothingTaken(r.parsed, k, decode, writes);
    } else {
      var next := Read(r, lines[0], decode, writes(k));
      ReadMeaning(r, lines[0], decode, writes(k));
      FineSplit(lines, k, decode, writes);
      if Stops(lines[0], decode, writes(k)) {
        ReadAllEnds(next, lines[1..], k + 1, decode, writes);
      } else {
        ReadAllMeaning(next, lines[1..], k + 1, decode, writes);
        var later := Taken(lines[1..], k + 1, decode, writes);
        EventsSplit(lines[0], later, decode);
        ConsumedAppend(r.parsed, Events([lines[0]], decode), Events(later, decode));
      }
    }
  }

  lemma NothingTaken(p: Parsed, k: nat, decode: bytes -> Decoded, writes: nat -> Writes)
    ensures ConsumedAll(p, Events(Taken([], k, decode, writes), decode)) == p
    ensures AllFine([], k, decode, writes) && LogKept([], k, decode, writes)
  {
  }

  lemma EventsSplit(line: bytes, lines: seq<bytes>, decode: bytes -> Decoded)
    ensures Events([line] + lines, decode) == Events([line], decode) + Events(lines, decode)
  {
    assert ([line] + lines)[1..] == lines && [line][1..] == [];
    assert Events([], decode) == [];
  }

  lemma RefusedUnlessGood(line: bytes, decode: bytes -> Decoded, writes: Writes)
    ensures !Stops(line, decode, writes) ==> (Good(line, decode) <==> !Refused(line, decode))
  {
    hide Judge, Shows;
  }

  /** What the first record decides, and what it leaves to the others. */
  lemma FineSplit(lines: seq<bytes>, k: nat, decode: bytes -> Decoded, writes: nat -> Writes)
    requires lines != []
    ensures Stops(lines[0], decode, writes(k)) ==>
              && Taken(lines, k, decode, writes) == [lines[0]]
              && (AllFine(lines, k, decode, writes) <==> !Refused(lines[0], decode))
              && (LogKept(lines, k, decode, writes) <==> !LosesLog(lines[0], decode, writes(k)))
    ensures !Stops(lines[0], decode, writes(k)) ==>
              && Taken(lines, k, decode, writes) == [lines[0]] + Taken(lines[1..], k + 1, decode, writes)
              && (AllFine(lines, k, decode, writes)
                  <==> !Refused(lines[0], decode) && AllFine(lines[1..], k + 1, decode, writes))
              && (LogKept(lines, k, decode, writes)
                  <==> !LosesLog(lines[0], decode, writes(k)) && LogKept(lines[1..], k + 1, decode, writes))
  {
    hide Good, Refused, Stops, LosesLog, AllFine, LogKept;
    FirstFine(lines, k, decode, writes);
    if !Stops(lines[0], decode, writes(k)) {
      LaterFine(lines, k, decode, writes);
      LaterKept(lines, k, decode, writes);
    } else {
      FirstKept(lines, k, decode, writes);
    }
  }

  lemma FirstFine(lines: seq<bytes>, k: nat, decode: bytes -> Decoded, writes: nat -> Writes)
    requires lines != []
    ensures Stops(lines[0], decode, writes(k)) ==> (AllFine(lines, k, decode, writes) <==> !Refused(lines[0], decode))
  {
    hide Good, Refused, Stops;
  }

  lemma FirstKept(lines: seq<bytes>, k: nat, decode: bytes -> Decoded, writes: nat -> Writes)
    requires lines != [] && Stops(lines[0], decode, writes(k))
    ensures LogKept(lines, k, decode, writes) <==> !LosesLog(lines[0], decode, writes(k))
  {
    hide LosesLog, Stops;
    assert writes(k + 0) == writes(k);
  }

  lemma LaterFine(lines: seq<bytes>, k: nat, decode: bytes -> Decoded, writes: nat -> Writes)
    requires lines != [] && !Stops(lines[0], decode, writes(k))
    ensures AllFine(lines, k, decode, writes)
       <==> !Refused(lines[0], decode) && AllFine(lines[1..], k + 1, decode, writes)
  {
    RefusedUnlessGood(lines[0], decode, writes(k));
    hide Good, Refused, Stops;
    var m := StopIndex(lines, k, decode, writes);
    assert m == 1 + StopIndex(lines[1..], k + 1, decode, writes);
    if AllFine(lines, k, decode, writes) {
      forall i | 0 <= i < m - 1 ensures Good(lines[1..][i], decode) { assert Good(lines[i + 1], decode); }
    }
  }

  lemma LaterKept(lines: seq<bytes>, k: nat, decode: bytes -> Decoded, writes: nat -> Writes)
    requires lines != [] && !Stops(lines[0], decode, writes(k))
    ensures LogKept(lines, k, decode, writes)
       <==> !LosesLog(lines[0], decode, writes(k)) && LogKept(lines[1..], k + 1, decode, writes)
  {
    hide Stops, LosesLog;
    var taken, later := Taken(lines, k, decode, writes), Taken(lines[1..], k + 1, decode, writes);
    assert taken == [lines[0]] + later;
    if LogKept(lines, k, decode, writes) {
      forall i | 0 <= i < |later| ensures !LosesLog(later[i], decode, writes(k + 1 + i)) {
        assert !LosesLog(taken[i + 1], decode, writes(k + (i + 1)));
      }
    }
  }
}
