/**
 The length-prefixed frames of ipc_protocol.py over byte streams that may read and write short.
 */
module Framing {
  import opened Bytes

  const MAX_PAYLOAD: nat := 1_048_576

  datatype FrameError = OversizedFrame | NoProgress | OversizedAdvertised | TruncatedFrame

  /** `struct.Struct(">I")`: four bytes, most significant first. */
  function Pack(n: nat): (s: bytes)
    requires n < 0x1_0000_0000
    ensures |s| == 4
  {
    [n / 0x100_0000, n / 65536 % 256, n / 256 % 256, n % 256]
  }

  function Unpack(s: bytes): (n: nat)
    requires |s| == 4
  {
    0x100_0000 * (s[0] as int) + 65536 * (s[1] as int) + 256 * (s[2] as int) + (s[3] as int)
  }

  lemma UnpackInvertsPack(n: nat)
    requires n < 0x1_0000_0000
    ensures Unpack(Pack(n)) == n
  {
    var high := n / 256;
    assert n / 65536 == high / 256 && n / 0x100_0000 == high / 256 / 256;
    assert high / 256 / 256 < 256;
  }

  function EncodeFrame(payload: bytes): Result<bytes, FrameError> {
    if |payload| > MAX_PAYLOAD then Err(OversizedFrame) else Ok(Pack(|payload|) + payload)
  }

  /** Payloads a sender may frame. */
  predicate Framable(payloads: seq<bytes>) {
    forall i :: 0 <= i < |payloads| ==> |payloads[i]| <= MAX_PAYLOAD
  }

  /** The stream that carries the given payloads. */
  function Wire(payloads: seq<bytes>): bytes
    requires Framable(payloads)
  {
    if payloads == [] then [] else EncodeFrame(payloads[0]).value + Wire(payloads[1..])
  }

  /** The receiving end of a stream: `data` is what is still to be read before the end of the stream. */
  class Source {
    var data: bytes
    var schedule: seq<nat>

    constructor (data: bytes, schedule: seq<nat>)
      ensures this.data == data && this.schedule == schedule
    {
      this.data := data;
      this.schedule := schedule;
    }

    /** `stream.read(n)`: any non-empty part of what was asked for; nothing only at the end. */
    method Read(n: nat) returns (chunk: bytes)
      requires n > 0
      modifies this
      ensures |chunk| <= n && chunk <= old(data) && data == old(data)[|chunk|..]
      ensures chunk == [] <==> old(data) == []
    {
      if data == [] {
        return [];
      }
      var most := if n < |data| then n else |data|;
      var size := most;
      if schedule != [] {
        size := 1 + schedule[0] % most;
        schedule := schedule[1..];
      }
      chunk := data[..size];
      data := data[size..];
    }
  }

  /** The sending end: a write may take only a part, or nothing. */
  class Sink {
    var written: bytes
    var schedule: seq<nat>

    constructor (schedule: seq<nat>)
      ensures written == [] && this.schedule == schedule
    {
      this.written := [];
      this.schedule := schedule;
    }

    /** `stream.write(chunk)`: the next scheduled size, zero for no progress; all of it after the schedule. */
    method Write(chunk: bytes) returns (count: nat)
      modifies this
      ensures count <= |chunk| && written == old(written) + chunk[..count]
      ensures schedule == if old(schedule) == [] then [] else old(schedule)[1..]
      ensures chunk != [] ==> (count == 0 <==> old(schedule) != [] && old(schedule)[0] == 0)
    {
      count := |chunk|;
      if schedule != [] {
        count := if schedule[0] < |chunk| then schedule[0] else |chunk|;
        schedule := schedule[1..];
      }
      written := written + chunk[..count];
    }
  }

  /** Every write of the schedule makes progress. */
  predicate Progressing(schedule: seq<nat>) {
    forall i :: 0 <= i < |schedule| ==> schedule[i] > 0
  }

  /** Write one complete frame, or stop when a write makes no progress. */
  method SendFrame(sink: Sink, payload: bytes) returns (r: Result<(), FrameError>)
    modifies sink
    ensures EncodeFrame(payload).Err? ==> r == Err(OversizedFrame) && sink.written == old(sink.written)
    ensures EncodeFrame(payload).Ok? ==> r == Ok(()) || r == Err(NoProgress)
    ensures r.Ok? ==> sink.written == old(sink.written) + EncodeFrame(payload).value
    ensures r == Err(NoProgress) ==>
      exists k :: 0 <= k < |EncodeFrame(payload).value| &&
                  sink.written == old(sink.written) + EncodeFrame(payload).value[..k]
    ensures Progressing(old(sink.schedule)) ==> Progressing(sink.schedule) && r != Err(NoProgress)
  {
    var encoded := EncodeFrame(payload);
    if encoded.Err? {
      return Err(encoded.error);
    }
    var frame := encoded.value;
    var offset := 0;
    assert frame[..0] == [];
    while offset < |frame|
      invariant 0 <= offset <= |frame|
      invariant sink.written == old(sink.written) + frame[..offset]
      invariant Progressing(old(sink.schedule)) ==> Progressing(sink.schedule)
    {
      var count := sink.Write(frame[offset..]);
      if count == 0 {
        return Err(NoProgress);
      }
      assert frame[..offset + count] == frame[..offset] + frame[offset..][..count];
      offset := offset + count;
    }
    assert frame[..|frame|] == frame;
    r := Ok(());
  }

  /** What `_read_exact` gives: the bytes, a clean end of the stream, or a truncation. */
  datatype Exact = Whole(content: bytes) | CleanEnd | Cut

  function ExactOf(data: bytes, size: nat, allowCleanEnd: bool): Exact {
    if |data| >= size then Whole(data[..size])
    else if allowCleanEnd && data == [] then CleanEnd
    else Cut
  }

  lemma JoinNothing()
    ensures Join([]) == []
  {
  }

  lemma JoinOneMore(chunks: seq<bytes>, chunk: bytes)
    ensures Join(chunks + [chunk]) == Join(chunks) + chunk
  {
    JoinAppend(chunks, [chunk]);
    assert Join([chunk]) == chunk + Join([]);
  }

  method ReadExact(source: Source, size: nat, allowCleanEnd: bool) returns (r: Exact)
    modifies source
    ensures r == ExactOf(old(source.data), size, allowCleanEnd)
    ensures r.Whole? ==> source.data == old(source.data)[size..]
  {
    hide Join;
    var chunks: seq<bytes> := [];
    var remaining := size;
    ghost var all := source.data;
    JoinNothing();
    while remaining > 0
      invariant 0 <= remaining <= size && |Join(chunks)| == size - remaining
      invariant all == Join(chunks) + source.data
      invariant chunks == [] <==> remaining == size
      decreases remaining
    {
      ghost var before := source.data;
      var chunk := source.Read(remaining);
      if chunk == [] {
        if allowCleanEnd && chunks == [] {
          return CleanEnd;
        }
        return Cut;
      }
      JoinOneMore(chunks, chunk);
      assert before == chunk + source.data;
      chunks := chunks + [chunk];
      remaining := remaining - |chunk|;
    }
    r := Whole(Join(chunks));
  }

  /** One receive: a payload and the bytes after it, a clean end, or a fatal error. */
  datatype Received = Frame(payload: bytes, rest: bytes) | End | Fatal(error: FrameError)

  function Receive(data: bytes): Received {
    match ExactOf(data, 4, true)
    case CleanEnd => End
    case Cut => Fatal(TruncatedFrame)
    case Whole(header) =>
      var length := Unpack(header);
      if length > MAX_PAYLOAD then Fatal(OversizedAdvertised)
      else match ExactOf(data[4..], length, false)
        case Whole(payload) => Frame(payload, data[4 + length..])
        case _ => Fatal(TruncatedFrame)
  }

  method ReceiveFrame(source: Source) returns (r: Result<Option<bytes>, FrameError>)
    modifies source
    ensures match Receive(old(source.data))
      case Frame(payload, rest) => r == Ok(Some(payload)) && source.data == rest
      case End => r == Ok(None)
      case Fatal(error) => r == Err(error)
  {
    var header := ReadExact(source, 4, true);
    if header.CleanEnd? {
      return Ok(None);
    }
    if header.Cut? {
      return Err(TruncatedFrame);
    }
    var length := Unpack(header.content);
    if length > MAX_PAYLOAD {
      return Err(OversizedAdvertised);
    }
    var payload := ReadExact(source, length, false);
    if !payload.Whole? {
      return Err(TruncatedFrame);
    }
    r := Ok(Some(payload.content));
  }

  /** The payloads received until the stream ends, and how it ended (None: cleanly). */
  datatype Session = Session(payloads: seq<bytes>, failure: Option<FrameError>)

  function ReceiveAll(data: bytes): Session
    decreases |data|
  {
    match Receive(data)
    case Frame(payload, rest) =>
      var later := ReceiveAll(rest);
      Session([payload] + later.payloads, later.failure)
    case End => Session([], None)
    case Fatal(error) => Session([], Some(error))
  }

  /** A session that began with other payloads. */
  function After(payloads: seq<bytes>, s: Session): Session {
    s.(payloads := payloads + s.payloads)
  }

  lemma ReceiveAllStep(data: bytes, payload: bytes, rest: bytes)
    requires Receive(data) == Frame(payload, rest)
    ensures |rest| < |data|
    ensures ReceiveAll(data) == After([payload], ReceiveAll(rest))
    ensures forall before :: After(before, ReceiveAll(data)) == After(before + [payload], ReceiveAll(rest))
  {
    forall before
      ensures After(before, ReceiveAll(data)) == After(before + [payload], ReceiveAll(rest))
    {
      assert before + ([payload] + ReceiveAll(rest).payloads) == before + [payload] + ReceiveAll(rest).payloads;
    }
  }

  /** The number that some bytes write, most significant first. */
  function BigEndian(s: bytes): nat {
    if s == [] then 0 else 256 * BigEndian(s[..|s| - 1]) + s[|s| - 1] as int
  }

  lemma UnpackIsBigEndian(s: bytes)
    requires |s| == 4
    ensures Unpack(s) == BigEndian(s)
  {
    var a, b, c := s[..3], s[..2], s[..1];
    assert s[..3][..2] == b && b[..1] == c && c[..0] == [];
    assert BigEndian(c) == s[0] as int;
    assert BigEndian(b) == 256 * BigEndian(c) + s[1] as int;
    assert BigEndian(a) == 256 * BigEndian(b) + s[2] as int;
  }

  lemma PackInvertsUnpack(s: bytes)
    requires |s| == 4
    ensures Unpack(s) < 0x1_0000_0000 && Pack(Unpack(s)) == s
  {
    var n := Unpack(s);
    assert n / 256 == 65536 * (s[0] as int) + 256 * (s[1] as int) + s[2] as int;
    assert n / 65536 == 256 * (s[0] as int) + s[1] as int;
    assert n / 0x100_0000 == s[0] as int;
  }

  /**
   What a receiver makes of any stream: a frame exactly when the stream starts with one of at most the maximum
   size, a clean end exactly when it is over, and "oversized" exactly when the header says more than the maximum.
   */
  lemma ReceivesExactly(data: bytes, payload: bytes, rest: bytes)
    ensures Receive(data) == Frame(payload, rest)
       <==> |payload| <= MAX_PAYLOAD && data == EncodeFrame(payload).value + rest
    ensures Receive(data) == End <==> data == []
    ensures Receive(data) == Fatal(OversizedAdvertised) <==> |data| >= 4 && BigEndian(data[..4]) > MAX_PAYLOAD
  {
    hide Pack, Unpack, BigEndian;
    if |data| >= 4 {
      PackInvertsUnpack(data[..4]);
      UnpackIsBigEndian(data[..4]);
      if Receive(data) == Frame(payload, rest) {
        assert data == data[..4] + (data[4..][..|payload|] + data[4 + |payload|..]);
        assert data == Pack(|payload|) + payload + rest;
      }
    }
    if |payload| <= MAX_PAYLOAD && data == EncodeFrame(payload).value + rest {
      ReceiveWhole(payload, rest);
    }
  }

  /** Receiving from a stream that starts with a whole frame. */
  lemma ReceiveWhole(payload: bytes, rest: bytes)
    requires |payload| <= MAX_PAYLOAD
    ensures Receive(EncodeFrame(payload).value + rest) == Frame(payload, rest)
  {
    var data := Pack(|payload|) + payload + rest;
    assert data[..4] == Pack(|payload|);
    UnpackInvertsPack(|payload|);
    assert data[4..][..|payload|] == payload && data[4 + |payload|..] == rest;
  }

  /** Receiving from a proper part of one frame. */
  lemma ReceiveCut(payload: bytes, k: nat)
    requires |payload| <= MAX_PAYLOAD && k < |EncodeFrame(payload).value|
    ensures Receive(EncodeFrame(payload).value[..k]) == if k == 0 then End else Fatal(TruncatedFrame)
  {
    var frame := Pack(|payload|) + payload;
    var data := frame[..k];
    if k >= 4 {
      assert data[..4] == frame[..4] == Pack(|payload|);
      UnpackInvertsPack(|payload|);
      assert data[4..] == payload[..k - 4];
    }
  }

  lemma ReceiveNothing()
    ensures Receive([]) == End
  {
  }

  /**
   Cut the wire of any payloads anywhere: the receiver gets exactly the payloads that lie wholly
   before the cut, then a clean end if the cut is between two frames and a fatal truncation if not.
   */
  lemma {:induction false} CutWire(payloads: seq<bytes>, cut: nat) returns (m: nat)
    requires Framable(payloads) && cut <= |Wire(payloads)|
    ensures m <= |payloads| && Framable(payloads[..m])
    ensures |Wire(payloads[..m])| <= cut
    ensures m < |payloads| ==> Framable(payloads[..m + 1]) && cut < |Wire(payloads[..m + 1])|
    ensures ReceiveAll(Wire(payloads)[..cut]) ==
            Session(payloads[..m], if cut == |Wire(payloads[..m])| then None else Some(TruncatedFrame))
    decreases |payloads|
  {
    hide Receive, Pack, EncodeFrame, Wire;
    WireStep(payloads);
    if payloads == [] {
      m := 0;
      ReceiveNothing();
    } else {
      var first, rest := payloads[0], payloads[1..];
      var frame := EncodeFrame(first).value;
      if cut < |frame| {
        m := 0;
        assert Wire(payloads)[..cut] == frame[..cut];
        ReceiveCut(first, cut);
        WirePrefix(payloads, 1);
      } else {
        var inner := CutWire(rest, cut - |frame|);
        m := inner + 1;
        assert Wire(payloads)[..cut] == frame + Wire(rest)[..cut - |frame|];
        ReceiveWhole(first, Wire(rest)[..cut - |frame|]);
        ReceiveAllStep(frame + Wire(rest)[..cut - |frame|], first, Wire(rest)[..cut - |frame|]);
        WirePrefix(payloads, m);
        if m < |payloads| {
          WirePrefix(payloads, m + 1);
        }
      }
    }
  }

  lemma WireStep(payloads: seq<bytes>)
    requires Framable(payloads)
    ensures Wire(payloads) == if payloads == [] then [] else EncodeFrame(payloads[0]).value + Wire(payloads[1..])
    ensures payloads != [] ==> EncodeFrame(payloads[0]).Ok? && Wire(payloads[..0]) == []
  {
  }

  lemma WirePrefix(payloads: seq<bytes>, m: nat)
    requires Framable(payloads) && 0 < m <= |payloads|
    ensures payloads[..m] == [payloads[0]] + payloads[1..][..m - 1]
    ensures Framable(payloads[..m])
    ensures Wire(payloads[..m]) == EncodeFrame(payloads[0]).value + Wire(payloads[1..][..m - 1])
  {
    assert payloads[..m][1..] == payloads[1..][..m - 1];
  }

  lemma {:induction false} WireAppend(a: seq<bytes>, payload: bytes)
    requires Framable(a) && |payload| <= MAX_PAYLOAD
    ensures Wire(a + [payload]) == Wire(a) + EncodeFrame(payload).value
  {
    if a == [] {
      assert a + [payload] == [payload] && [payload][1..] == [];
      assert Wire([payload]) == EncodeFrame(payload).value + [];
    } else {
      assert (a + [payload])[0] == a[0] && (a + [payload])[1..] == a[1..] + [payload];
      WireAppend(a[1..], payload);
    }
  }

  /** The receive loop of a connection: frames until the stream ends or fails. */
  method Drain(source: Source) returns (s: Session)
    modifies source
    ensures s == ReceiveAll(old(source.data))
  {
    hide Receive;
    var payloads: seq<bytes> := [];
    ghost var start := source.data;
    while true
      invariant ReceiveAll(start) == After(payloads, ReceiveAll(source.data))
      decreases |source.data|
    {
      ghost var data := source.data;
      var r := ReceiveFrame(source);
      if r.Err? {
        return Session(payloads, Some(r.error));
      }
      if r.value.None? {
        return Session(payloads, None);
      }
      ReceiveAllStep(data, r.value.value, source.data);
      payloads := payloads + [r.value.value];
    }
  }

  /**
   End to end: send the payloads through any sink, lose everything after `cut`, and receive the
   rest through any source. Whatever the write and read schedules, and also when a write made no
   progress, the received payloads are exactly the `m` that lie wholly before the `arrived` bytes.
   */
  method Exchange(payloads: seq<bytes>, writeSizes: seq<nat>, readSizes: seq<nat>, cut: nat)
    returns (sent: bool, s: Session, ghost arrived: nat, ghost m: nat)
    requires Framable(payloads)
    ensures Progressing(writeSizes) ==> sent
    ensures arrived <= cut && arrived <= |Wire(payloads)|
    ensures sent ==> arrived == if cut < |Wire(payloads)| then cut else |Wire(payloads)|
    ensures m <= |payloads| && Framable(payloads[..m]) && |Wire(payloads[..m])| <= arrived
    ensures m < |payloads| ==> Framable(payloads[..m + 1]) && arrived < |Wire(payloads[..m + 1])|
    ensures s == Session(payloads[..m], if arrived == |Wire(payloads[..m])| then None else Some(TruncatedFrame))
  {
    hide ReceiveAll, Wire, EncodeFrame;
    WireOfNothing();
    var sink := new Sink(writeSizes);
    sent := true;
    var i := 0;
    assert payloads[..0] == [];
    while i < |payloads| && sent
      invariant 0 <= i <= |payloads| && sink.written <= Wire(payloads)
      invariant sent ==> sink.written == Wire(payloads[..i])
      invariant Progressing(writeSizes) ==> sent && Progressing(sink.schedule)
      decreases |payloads| - i, sent
    {
      WireThrough(payloads, i);
      var r := SendFrame(sink, payloads[i]);
      if r.Err? {
        sent := false;
      } else {
        i := i + 1;
      }
    }
    assert payloads[..|payloads|] == payloads;
    var data := if cut < |sink.written| then sink.written[..cut] else sink.written;
    var source := new Source(data, readSizes);
    s := Drain(source);
    arrived := |data|;
    m := CutWire(payloads, arrived);
    assert Wire(payloads)[..arrived] == data;
  }

  /** The wire up to and including frame `i`. */
  lemma WireThrough(payloads: seq<bytes>, i: nat)
    requires Framable(payloads) && i < |payloads|
    ensures Framable(payloads[..i]) && Framable(payloads[..i + 1]) && EncodeFrame(payloads[i]).Ok?
    ensures Wire(payloads[..i + 1]) == Wire(payloads[..i]) + EncodeFrame(payloads[i]).value
    ensures Wire(payloads[..i + 1]) <= Wire(payloads)
  {
    hide Wire, Pack;
    TakeOneMore(payloads, i);
    FramableParts(payloads, i);
    FramableParts(payloads, i + 1);
    WireAppend(payloads[..i], payloads[i]);
    WireSplit(payloads, i + 1);
  }

  lemma TakeOneMore<T>(s: seq<T>, i: nat)
    requires i < |s|
    ensures s[..i] + [s[i]] == s[..i + 1]
  {
  }

  lemma FramableParts(payloads: seq<bytes>, i: nat)
    requires Framable(payloads) && i <= |payloads|
    ensures Framable(payloads[..i]) && Framable(payloads[i..])
  {
  }

  lemma {:induction false} WireSplit(payloads: seq<bytes>, m: nat)
    requires Framable(payloads) && m <= |payloads|
    ensures Framable(payloads[..m]) && Framable(payloads[m..])
    ensures Wire(payloads) == Wire(payloads[..m]) + Wire(payloads[m..])
    decreases |payloads|
  {
    if m > 0 {
      WirePrefix(payloads, m);
      WireSplit(payloads[1..], m - 1);
      assert payloads[1..][m - 1..] == payloads[m..];
    } else {
      assert payloads[0..] == payloads;
    }
  }

  lemma WireOfNothing()
    ensures Wire([]) == []
  {
  }
}
