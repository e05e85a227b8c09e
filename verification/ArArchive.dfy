/**
 The Debian ar container of deb_format.py: `_ar_member` and `build` write it, `members` reads it.
 The reader trusts a decimal size field that may parse as a negative number, so it can walk
 backwards; it still stops, because the name at a revisited offset is already taken.
 */
module ArArchive {
  import opened Bytes

  datatype ArError =
    | NotAnArchive
    | BadHeader
    | NameNotAscii
    | BadSize
    | Truncated
    | DuplicateOrEmptyName
    | NoDebianBinary
    | UnsupportedFormat
    | NameTooLong

  const MAGIC: bytes := [33, 60, 97, 114, 99, 104, 62, 10] // !<arch>\n
  const TERMINATOR: bytes := [96, 10] // `\n
  const SPACE: byte := 32
  const SLASH: byte := 47
  const MINUS: byte := 45
  const PLUS: byte := 43
  const UNDERSCORE: byte := 95
  const DEBIAN_BINARY: bytes := [100, 101, 98, 105, 97, 110, 45, 98, 105, 110, 97, 114, 121]
  const CONTROL_NAME: bytes := [99, 111, 110, 116, 114, 111, 108, 46, 116, 97, 114, 46, 103, 122]
  const DATA_NAME: bytes := [100, 97, 116, 97, 46, 116, 97, 114, 46, 103, 122]
  const FORMAT_VERSION: bytes := [50, 46, 48, 10] // 2.0\n
  const ZERO: bytes := [48]
  const MODE: bytes := [49, 48, 48, 54, 52, 52] // 100644

  datatype Member = Member(name: bytes, payload: bytes)

  // ----- Python text and slicing primitives on ASCII -----

  /** An index of a Python slice: negative counts from the end, then clamped to the sequence. */
  function Clamp(i: int, length: nat): (k: nat)
    ensures k <= length
  {
    if i + length < 0 then 0 else if i < 0 then i + length else if i > length then length else i
  }

  /** Python's `s[a:b]` for any integers. */
  function Slice(s: bytes, a: int, b: int): bytes {
    var low, high := Clamp(a, |s|), Clamp(b, |s|);
    if low < high then s[low..high] else []
  }

  /** Inside the sequence a slice is the plain one, negative indices count from its end, and the rest is clamped. */
  lemma SlicesLikePython(s: bytes, a: int, b: int)
    ensures 0 <= a <= b <= |s| ==> Slice(s, a, b) == s[a..b]
    ensures -|s| <= a < 0 ==> Slice(s, a, b) == Slice(s, a + |s|, b)
    ensures -|s| <= b < 0 ==> Slice(s, a, b) == Slice(s, a, b + |s|)
    ensures a < -|s| ==> Slice(s, a, b) == Slice(s, 0, b)
    ensures b < -|s| || a > |s| ==> Slice(s, a, b) == []
    ensures b > |s| ==> Slice(s, a, b) == Slice(s, a, |s|)
  {
  }

  predicate IsAscii(s: bytes) {
    forall c <- s :: c < 128
  }

  /** The ASCII characters `str.strip()` removes. */
  predicate IsSpace(c: byte) {
    9 <= c <= 13 || 28 <= c <= 32
  }

  function StripLeft(s: bytes): bytes {
    if s != [] && IsSpace(s[0]) then StripLeft(s[1..]) else s
  }

  function StripRight(s: bytes): bytes {
    if s != [] && IsSpace(s[|s| - 1]) then StripRight(s[..|s| - 1]) else s
  }

  function StripSlashes(s: bytes): bytes {
    if s != [] && s[|s| - 1] == SLASH then StripSlashes(s[..|s| - 1]) else s
  }

  function Strip(s: bytes): bytes {
    StripRight(StripLeft(s))
  }

  /** Digits with single underscores between them; `afterDigit` says the previous character was a digit. */
  function ParseDigits(s: bytes, value: nat, afterDigit: bool): Option<nat> {
    if s == [] then (if afterDigit then Some(value) else None)
    else if 48 <= s[0] <= 57 then ParseDigits(s[1..], 10 * value + (s[0] as int - 48), true)
    else if s[0] == UNDERSCORE && afterDigit then ParseDigits(s[1..], value, false)
    else None
  }

  /** Python's `int(text)`. */
  function ParseInt(s: bytes): Option<int> {
    var t := Strip(s);
    if t == [] then None
    else if t[0] == MINUS then
      (match ParseDigits(t[1..], 0, false) case Some(n) => Some(0 - n) case None => None)
    else if t[0] == PLUS then ParseDigits(t[1..], 0, false)
    else ParseDigits(t, 0, false)
  }

  /** Python's `str(n)` for a natural number. */
  function Decimal(n: nat): (s: bytes)
    ensures s != [] && forall c <- s :: 48 <= c <= 57
  {
    if n < 10 then [48 + n] else Decimal(n / 10) + [48 + n % 10]
  }

  function IntText(n: int): bytes {
    if n < 0 then [MINUS] + Decimal(-n) else Decimal(n)
  }

  function Spaces(k: nat): (s: bytes)
    ensures |s| == k && forall c <- s :: c == SPACE
  {
    seq(k, _ => SPACE)
  }

  /** `s.ljust(width, b" ")`. */
  function Pad(s: bytes, width: nat): bytes {
    s + Spaces(if |s| < width then width - |s| else 0)
  }

  // ----- writing -----

  function Header(name: bytes, size: nat, timestamp: int): bytes {
    Pad(name, 16) + Pad(IntText(timestamp), 12) + Pad(ZERO, 6) + Pad(ZERO, 6) + Pad(MODE, 8)
    + Pad(Decimal(size), 10) + TERMINATOR
  }

  function EncodeMember(m: Member, timestamp: int): Result<bytes, ArError> {
    if !IsAscii(m.name) then Err(NameNotAscii)
    else if |m.name| > 16 then Err(NameTooLong)
    else Ok(Header(m.name, |m.payload|, timestamp) + m.payload + (if |m.payload| % 2 == 1 then [LF] else []))
  }

  /** The members of an archive one after the other. */
  function EncodeMembers(ms: seq<Member>, timestamp: int): bytes
    requires forall m <- ms :: EncodeMember(m, timestamp).Ok?
  {
    if ms == [] then [] else EncodeMember(ms[0], timestamp).value + EncodeMembers(ms[1..], timestamp)
  }

  /** `build`: the three members of a Debian package. */
  function Build(control: bytes, data: bytes, timestamp: int): bytes {
    BuildNames();
    MAGIC
    + EncodeMember(Member(DEBIAN_BINARY, FORMAT_VERSION), timestamp).value
    + EncodeMember(Member(CONTROL_NAME, control), timestamp).value
    + EncodeMember(Member(DATA_NAME, data), timestamp).value
  }

  /** A name the reader gives back unchanged. */
  predicate WellFormedName(name: bytes) {
    && 1 <= |name| <= 16
    && IsAscii(name)
    && !IsSpace(name[0])
    && !IsSpace(name[|name| - 1])
    && name[|name| - 1] != SLASH
  }

  /** The numbers fit their header fields. */
  predicate FieldSized(m: Member, timestamp: int) {
    |IntText(timestamp)| <= 12 && |Decimal(|m.payload|)| <= 10
  }

  predicate WellFormed(ms: seq<Member>, timestamp: int) {
    && (forall m <- ms :: WellFormedName(m.name) && FieldSized(m, timestamp))
    && (forall i, j :: 0 <= i < j < |ms| ==> ms[i].name != ms[j].name)
  }

  function AsMap(ms: seq<Member>): map<bytes, bytes> {
    if ms == [] then map[] else AsMap(ms[..|ms| - 1])[ms[|ms| - 1].name := ms[|ms| - 1].payload]
  }

  // ----- reading -----

  /** A parsed member header. */
  datatype Fields = Fields(name: bytes, size: int)

  function ParseHeader(header: bytes): Result<Fields, ArError> {
    var rawName, rawSize := Slice(header, 0, 16), Slice(header, 48, 58);
    if !IsAscii(rawName) then Err(NameNotAscii)
    else if !IsAscii(rawSize) || ParseInt(rawSize).None? then Err(BadSize)
    else Ok(Fields(StripSlashes(Strip(rawName)), ParseInt(rawSize).value))
  }

  /** The outcome of looking at one offset: the member there and the next offset. */
  datatype Entry = Entry(name: bytes, payload: bytes, next: int)

  function ReadEntry(data: bytes, position: int): Result<Entry, ArError> {
    if position + 60 > |data| || Slice(data, position + 58, position + 60) != TERMINATOR then Err(BadHeader)
    else match ParseHeader(Slice(data, position, position + 60))
      case Err(e) => Err(e)
      case Ok(Fields(name, size)) =>
        var start := position + 60;
        if start + size > |data| then Err(Truncated)
        else Ok(Entry(name, Slice(data, start, start + size), start + size + size % 2))
  }

  lemma SliceOfSlice(data: bytes, position: nat, a: nat, b: nat)
    requires position + 60 <= |data| && a <= b <= 60
    ensures data[position..position + 60][a..b] == data[position + a..position + b]
  {
    var inner, outer := data[position..position + 60][a..b], data[position + a..position + b];
    assert |inner| == |outer| && forall k :: 0 <= k < b - a ==> inner[k] == outer[k];
  }

  /** What is read at an offset is there: a terminated header, its size field, and as many bytes after it. */
  lemma EntryIsThere(data: bytes, position: nat)
    requires ReadEntry(data, position).Ok?
    ensures position + 60 <= |data| && data[position + 58..position + 60] == TERMINATOR
    ensures var entry, size := ReadEntry(data, position).value, ParseInt(data[position + 48..position + 58]);
            && size.Some? && entry.next == position + 60 + size.value + size.value % 2
            && position + 60 + size.value <= |data|
            && (size.value >= 0 ==> entry.payload == data[position + 60..position + 60 + size.value])
            && entry.name == StripSlashes(Strip(data[position..position + 16]))
  {
    hide ParseInt, Strip, StripSlashes;
    var header := Slice(data, position, position + 60);
    assert header == data[position..position + 60];
    SliceOfSlice(data, position, 48, 58);
    SliceOfSlice(data, position, 0, 16);
    assert Slice(header, 48, 58) == header[48..58] && Slice(header, 0, 16) == header[0..16];
  }

  function Interval(low: int, high: int): (s: set<int>)
    ensures forall p :: p in s <==> low <= p < high
    decreases high - low
  {
    if low >= high then {} else {low} + Interval(low + 1, high)
  }

  /** The offsets at which a header can be found at all. */
  function Offsets(data: bytes): set<int> {
    Interval(-|data| - 59, |data|)
  }

  lemma EntryInOffsets(data: bytes, position: int)
    requires position < |data| && ReadEntry(data, position).Ok?
    ensures position in Offsets(data)
  {
  }

  /** Everything in `visited` was read, and its name was taken. */
  predicate Visited(data: bytes, found: map<bytes, bytes>, visited: set<int>) {
    && visited <= Offsets(data)
    && forall p <- visited :: ReadEntry(data, p).Ok? && ReadEntry(data, p).value.name in found
  }

  lemma VisitStep(data: bytes, position: int, found: map<bytes, bytes>, visited: set<int>)
    requires Visited(data, found, visited) && position < |data|
    requires ReadEntry(data, position).Ok? && ReadEntry(data, position).value.name !in found
    ensures position in Offsets(data) - visited
    ensures
      var entry := ReadEntry(data, position).value;
      Visited(data, found[entry.name := entry.payload], visited + {position})
  {
    EntryInOffsets(data, position);
  }

  /** The reader's loop as a function; `visited` are the offsets already read. */
  function Scan(data: bytes, position: int, found: map<bytes, bytes>, visited: set<int>)
    : Result<map<bytes, bytes>, ArError>
    requires Visited(data, found, visited)
    decreases Offsets(data) - visited
  {
    if position >= |data| then Ok(found)
    else match ReadEntry(data, position)
      case Err(e) => Err(e)
      case Ok(entry) =>
        if entry.name == [] || entry.name in found then Err(DuplicateOrEmptyName)
        else
          VisitStep(data, position, found, visited);
          Scan(data, entry.next, found[entry.name := entry.payload], visited + {position})
  }

  function CheckFormat(found: map<bytes, bytes>): Result<map<bytes, bytes>, ArError> {
    if DEBIAN_BINARY !in found then Err(NoDebianBinary)
    else if found[DEBIAN_BINARY] != FORMAT_VERSION then Err(UnsupportedFormat)
    else Ok(found)
  }

  function ReadMembers(data: bytes): Result<map<bytes, bytes>, ArError> {
    if !(MAGIC <= data) then Err(NotAnArchive)
    else match Scan(data, 8, map[], {})
      case Ok(found) => CheckFormat(found)
      case Err(e) => Err(e)
  }

  /** `members`: it stops on every byte string. */
  method Members(data: bytes) returns (r: Result<map<bytes, bytes>, ArError>)
    ensures r == ReadMembers(data)
  {
    if !(MAGIC <= data) {
      return Err(NotAnArchive);
    }
    var position: int := 8;
    var found: map<bytes, bytes> := map[];
    ghost var visited: set<int> := {};
    while position < |data|
      invariant Visited(data, found, visited)
      invariant Scan(data, 8, map[], {}) == Scan(data, position, found, visited)
      decreases Offsets(data) - visited
    {
      var read := ReadEntry(data, position);
      if read.Err? {
        return Err(read.error);
      }
      var entry := read.value;
      if entry.name == [] || entry.name in found {
        return Err(DuplicateOrEmptyName);
      }
      VisitStep(data, position, found, visited);
      found := found[entry.name := entry.payload];
      visited := visited + {position};
      position := entry.next;
    }
    if DEBIAN_BINARY !in found {
      return Err(NoDebianBinary);
    }
    if found[DEBIAN_BINARY] != FORMAT_VERSION {
      return Err(UnsupportedFormat);
    }
    r := Ok(found);
  }

  // ----- the reader inverts the writer -----

  lemma {:induction false} ParseDecimal(n: nat, rest: bytes)
    ensures ParseDigits(Decimal(n) + rest, 0, false) == ParseDigits(rest, n, true)
  {
    if n < 10 {
      assert (Decimal(n) + rest)[1..] == rest;
    } else {
      var digit: bytes := [48 + n % 10];
      assert Decimal(n) + rest == Decimal(n / 10) + (digit + rest);
      ParseDecimal(n / 10, digit + rest);
      assert (digit + rest)[1..] == rest;
    }
  }

  lemma {:induction false} StripRightOfSpaces(s: bytes, k: nat)
    requires s != [] && !IsSpace(s[|s| - 1])
    ensures StripRight(s + Spaces(k)) == s
  {
    if k == 0 {
      assert s + Spaces(0) == s;
    } else {
      assert (s + Spaces(k))[..|s| + k - 1] == s + Spaces(k - 1);
      StripRightOfSpaces(s, k - 1);
    }
  }

  lemma StripPadded(s: bytes, width: nat)
    requires s != [] && !IsSpace(s[0]) && !IsSpace(s[|s| - 1])
    ensures Strip(Pad(s, width)) == s
  {
    StripRightOfSpaces(s, if |s| < width then width - |s| else 0);
  }

  lemma ParsePaddedSize(n: nat)
    ensures ParseInt(Pad(Decimal(n), 10)) == Some(n)
    ensures IsAscii(Pad(Decimal(n), 10))
  {
    var s := Decimal(n);
    assert s[0] in s && s[|s| - 1] in s;
    StripPadded(s, 10);
    assert s + [] == s;
    ParseDecimal(n, []);
  }

  /** The fields of a written header are where the reader looks for them. */
  lemma HeaderFields(name: bytes, size: nat, timestamp: int)
    requires WellFormedName(name) && |IntText(timestamp)| <= 12 && |Decimal(size)| <= 10
    ensures |Header(name, size, timestamp)| == 60
    ensures Header(name, size, timestamp)[..16] == Pad(name, 16)
    ensures Header(name, size, timestamp)[48..58] == Pad(Decimal(size), 10)
    ensures Header(name, size, timestamp)[58..60] == TERMINATOR
  {
    var front := Pad(name, 16) + Pad(IntText(timestamp), 12) + Pad(ZERO, 6) + Pad(ZERO, 6) + Pad(MODE, 8);
    assert |front| == 48 && front[..16] == Pad(name, 16);
    assert Header(name, size, timestamp) == front + Pad(Decimal(size), 10) + TERMINATOR;
  }

  lemma ParseWrittenHeader(name: bytes, size: nat, timestamp: int)
    requires WellFormedName(name) && |IntText(timestamp)| <= 12 && |Decimal(size)| <= 10
    ensures ParseHeader(Header(name, size, timestamp)) == Ok(Fields(name, size))
  {
    HeaderFields(name, size, timestamp);
    ParsePaddedSize(size);
    StripPadded(name, 16);
  }

  /** Reading at the offset of any well-shaped member. */
  lemma ReadShaped(before: bytes, header: bytes, fields: Fields, payload: bytes, pad: bytes, after: bytes)
    requires |header| == 60 && header[58..60] == TERMINATOR
    requires ParseHeader(header) == Ok(fields) && fields.size == |payload| && |pad| == |payload| % 2
    ensures ReadEntry(before + (header + payload + pad) + after, |before|) ==
            Ok(Entry(fields.name, payload, |before| + 60 + |payload| + |pad|))
  {
    var data, p := before + (header + payload + pad) + after, |before|;
    assert data[p..p + 60] == header;
    assert data[p + 58..p + 60] == header[58..60];
    assert data[p + 60..p + 60 + |payload|] == payload;
  }

  /** Reading at the offset of a written member gives that member and the offset after it. */
  lemma ReadWritten(before: bytes, m: Member, after: bytes, timestamp: int)
    requires WellFormedName(m.name) && FieldSized(m, timestamp)
    ensures EncodeMember(m, timestamp).Ok?
    ensures
      var encoded := EncodeMember(m, timestamp).value;
      && |encoded| >= 60
      && ReadEntry(before + encoded + after, |before|) == Ok(Entry(m.name, m.payload, |before| + |encoded|))
  {
    hide ReadEntry, ParseHeader, Pad, IntText;
    var size := |m.payload|;
    HeaderFields(m.name, size, timestamp);
    ParseWrittenHeader(m.name, size, timestamp);
    ReadShaped(before, Header(m.name, size, timestamp), Fields(m.name, size), m.payload,
               if size % 2 == 1 then [LF] else [], after);
  }

  /** One step of the scan past a member that was read and whose name is new. */
  lemma ScanStep(data: bytes, position: int, found: map<bytes, bytes>, visited: set<int>, entry: Entry)
    requires Visited(data, found, visited) && position < |data|
    requires ReadEntry(data, position) == Ok(entry) && entry.name != [] && entry.name !in found
    ensures Visited(data, found[entry.name := entry.payload], visited + {position})
    ensures Scan(data, position, found, visited) ==
            Scan(data, entry.next, found[entry.name := entry.payload], visited + {position})
  {
    VisitStep(data, position, found, visited);
  }

  lemma AsMapKeys(ms: seq<Member>, k: nat)
    requires k <= |ms|
    ensures forall name :: name in AsMap(ms[..k]) <==> exists i :: 0 <= i < k && ms[i].name == name
  {
    if k > 0 {
      assert ms[..k][..k - 1] == ms[..k - 1];
      AsMapKeys(ms, k - 1);
    }
  }

  lemma FirstMember(before: bytes, ms: seq<Member>, k: nat, timestamp: int, tail: bytes)
    requires k < |ms| && forall m <- ms :: EncodeMember(m, timestamp).Ok?
    ensures var encoded, after := EncodeMember(ms[k], timestamp).value, EncodeMembers(ms[k + 1..], timestamp);
            && before + EncodeMembers(ms[k..], timestamp) + tail == before + encoded + (after + tail)
            && before + EncodeMembers(ms[k..], timestamp) + tail == before + encoded + after + tail
  {
    hide EncodeMember;
    assert ms[k..][0] == ms[k] && ms[k..][1..] == ms[k + 1..];
    var encoded, after := EncodeMember(ms[k], timestamp).value, EncodeMembers(ms[k + 1..], timestamp);
    assert EncodeMembers(ms[k..], timestamp) == encoded + after;
    hide EncodeMembers;
    assert before + (encoded + after) + tail == before + encoded + (after + tail);
    assert before + (encoded + after) + tail == before + encoded + after + tail;
  }

  /** Scanning members that were written takes them all, and goes on with what follows them. */
  lemma {:induction false} ScanWritten(data: bytes, before: bytes, ms: seq<Member>, k: nat, timestamp: int,
                                       tail: bytes, visited: set<int>) returns (later: set<int>)
    requires k <= |ms| && WellFormed(ms, timestamp)
    requires forall m <- ms :: EncodeMember(m, timestamp).Ok?
    requires data == before + EncodeMembers(ms[k..], timestamp) + tail
    requires Visited(data, AsMap(ms[..k]), visited)
    ensures Visited(data, AsMap(ms), later)
    ensures Scan(data, |before|, AsMap(ms[..k]), visited) == Scan(data, |data| - |tail|, AsMap(ms), later)
    decreases |ms| - k
  {
    hide ReadEntry, EncodeMember, Offsets;
    if k == |ms| {
      assert ms[..k] == ms && EncodeMembers(ms[k..], timestamp) == [];
      later := visited;
    } else {
      var m := ms[k];
      var encoded, after := EncodeMember(m, timestamp).value, EncodeMembers(ms[k + 1..], timestamp);
      FirstMember(before, ms, k, timestamp, tail);
      ReadWritten(before, m, after + tail, timestamp);
      AsMapKeys(ms, k);
      hide FieldSized, WellFormedName;
      ScanStep(data, |before|, AsMap(ms[..k]), visited, Entry(m.name, m.payload, |before + encoded|));
      assert ms[..k + 1][..k] == ms[..k];
      later := ScanWritten(data, before + encoded, ms, k + 1, timestamp, tail, visited + {|before|});
    }
  }

  /** Reading members that were written, then whatever follows them. */
  lemma ReadWrittenMembers(ms: seq<Member>, timestamp: int, tail: bytes) returns (visited: set<int>)
    requires WellFormed(ms, timestamp) && forall m <- ms :: EncodeMember(m, timestamp).Ok?
    ensures var data := MAGIC + EncodeMembers(ms, timestamp) + tail;
            && Visited(data, AsMap(ms), visited)
            && ReadMembers(data) == match Scan(data, |data| - |tail|, AsMap(ms), visited)
                                    case Ok(found) => CheckFormat(found)
                                    case Err(e) => Err(e)
  {
    hide EncodeMember, CheckFormat;
    var data := MAGIC + EncodeMembers(ms, timestamp) + tail;
    assert ms[0..] == ms && ms[..0] == [];
    assert data[..8] == MAGIC && MAGIC <= data;
    visited := ScanWritten(data, MAGIC, ms, 0, timestamp, tail, {});
  }

  /** Every well-formed member can be written. */
  lemma WellFormedEncodes(ms: seq<Member>, timestamp: int)
    requires WellFormed(ms, timestamp)
    ensures forall m <- ms :: EncodeMember(m, timestamp).Ok?
  {
  }

  /**
   The reader inverts the writer: any members with distinct well-formed names, numbers that fit
   their fields and a valid `debian-binary` come back exactly.
   */
  lemma ReadInvertsWrite(ms: seq<Member>, timestamp: int)
    requires WellFormed(ms, timestamp)
    requires Member(DEBIAN_BINARY, FORMAT_VERSION) in ms
    ensures forall m <- ms :: EncodeMember(m, timestamp).Ok?
    ensures ReadMembers(MAGIC + EncodeMembers(ms, timestamp)) == Ok(AsMap(ms))
  {
    hide EncodeMember, ReadMembers;
    WellFormedEncodes(ms, timestamp);
    var visited := ReadWrittenMembers(ms, timestamp, []);
    assert MAGIC + EncodeMembers(ms, timestamp) + [] == MAGIC + EncodeMembers(ms, timestamp);
    AsMapValue(ms, Member(DEBIAN_BINARY, FORMAT_VERSION));
  }

  // ----- an archive that was cut -----

  /**
   What the reader makes of an archive of members `ms` followed by the first `n` bytes of one more: nothing is
   made up, and nothing is lost but the missing padding byte of a complete payload.
   */
  lemma CutArchive(ms: seq<Member>, m: Member, timestamp: int, n: nat)
    requires WellFormed(ms + [m], timestamp) && EncodeMember(m, timestamp).Ok?
    requires n <= |EncodeMember(m, timestamp).value|
    ensures forall x <- ms :: EncodeMember(x, timestamp).Ok?
    ensures ReadMembers(MAGIC + EncodeMembers(ms, timestamp) + EncodeMember(m, timestamp).value[..n]) ==
              if n == 0 then CheckFormat(AsMap(ms))
              else if n < 60 then Err(BadHeader)
              else if n < 60 + |m.payload| then Err(Truncated)
              else CheckFormat(AsMap(ms + [m]))
  {
    hide EncodeMember, ReadMembers, CheckFormat, AsMap;
    PrefixWellFormed(ms, m, timestamp);
    WellFormedEncodes(ms, timestamp);
    var before, tail := MAGIC + EncodeMembers(ms, timestamp), EncodeMember(m, timestamp).value[..n];
    var data := before + tail;
    var visited := ReadWrittenMembers(ms, timestamp, tail);
    if n > 0 {
      CutEntry(before, m, timestamp, n);
      AsMapKeys(ms, |ms|);
      assert ms[..|ms|] == ms && (ms + [m])[..|ms|] == ms;
      assert m.name !in AsMap(ms) by { LastNameIsNew(ms, m, timestamp); }
      ScanCut(data, |before|, AsMap(ms), visited, m, n);
      assert AsMap(ms + [m]) == AsMap(ms)[m.name := m.payload] by { AsMapLonger(ms, m); }
    }
  }

  lemma AsMapLonger(ms: seq<Member>, m: Member)
    ensures AsMap(ms + [m]) == AsMap(ms)[m.name := m.payload]
  {
    assert (ms + [m])[..|ms|] == ms;
  }

  lemma PrefixWellFormed(ms: seq<Member>, m: Member, timestamp: int)
    requires WellFormed(ms + [m], timestamp)
    ensures WellFormed(ms, timestamp) && WellFormedName(m.name) && FieldSized(m, timestamp)
  {
    hide WellFormedName, FieldSized;
    assert m in ms + [m] && forall x <- ms :: x in ms + [m];
    assert forall i :: 0 <= i < |ms| ==> (ms + [m])[i] == ms[i];
  }

  lemma LastNameIsNew(ms: seq<Member>, m: Member, timestamp: int)
    requires WellFormed(ms + [m], timestamp)
    ensures forall i :: 0 <= i < |ms| ==> ms[i].name != m.name
  {
    hide WellFormedName, FieldSized;
    forall i | 0 <= i < |ms| ensures ms[i].name != m.name {
      assert (ms + [m])[i] == ms[i] && (ms + [m])[|ms|] == m;
    }
  }

  /** The member that was cut, at its own offset. */
  lemma CutEntry(before: bytes, m: Member, timestamp: int, n: nat)
    requires WellFormedName(m.name) && FieldSized(m, timestamp) && EncodeMember(m, timestamp).Ok?
    requires 0 < n <= |EncodeMember(m, timestamp).value|
    ensures var read := ReadEntry(before + EncodeMember(m, timestamp).value[..n], |before|);
            if n < 60 then read == Err(BadHeader)
            else if n < 60 + |m.payload| then read == Err(Truncated)
            else && read.Ok? && read.value.name == m.name && read.value.payload == m.payload
                 && read.value.next >= |before| + n
  {
    hide ReadEntry, ParseHeader, Pad, IntText;
    var size := |m.payload|;
    HeaderFields(m.name, size, timestamp);
    ParseWrittenHeader(m.name, size, timestamp);
    CutShaped(before, Header(m.name, size, timestamp), Fields(m.name, size), m.payload,
              if size % 2 == 1 then [LF] else [], n);
  }

  lemma CutShaped(before: bytes, header: bytes, fields: Fields, payload: bytes, pad: bytes, n: nat)
    requires |header| == 60 && header[58..60] == TERMINATOR
    requires ParseHeader(header) == Ok(fields) && fields.size == |payload| && |pad| == |payload| % 2
    requires 0 < n <= 60 + |payload| + |pad|
    ensures var read := ReadEntry(before + (header + payload + pad)[..n], |before|);
            if n < 60 then read == Err(BadHeader)
            else if n < 60 + |payload| then read == Err(Truncated)
            else read == Ok(Entry(fields.name, payload, |before| + 60 + |payload| + |pad|))
  {
    hide ParseHeader;
    var encoded := header + payload + pad;
    var data, p := before + encoded[..n], |before|;
    if n >= 60 {
      assert data[p..p + 60] == header;
      assert data[p + 58..p + 60] == header[58..60];
      if n >= 60 + |payload| { assert data[p + 60..p + 60 + |payload|] == payload; }
    }
  }

  lemma ScanCut(data: bytes, position: nat, found: map<bytes, bytes>, visited: set<int>, m: Member, n: nat)
    requires Visited(data, found, visited) && position + n == |data| && n > 0
    requires m.name != [] && m.name !in found
    requires var read := ReadEntry(data, position);
             if n < 60 then read == Err(BadHeader)
             else if n < 60 + |m.payload| then read == Err(Truncated)
             else && read.Ok? && read.value.name == m.name && read.value.payload == m.payload
                  && read.value.next >= |data|
    ensures Scan(data, position, found, visited) ==
              if n < 60 then Err(BadHeader) else if n < 60 + |m.payload| then Err(Truncated)
              else Ok(found[m.name := m.payload])
  {
    hide ReadEntry, Offsets;
    if n >= 60 + |m.payload| {
      ScanStep(data, position, found, visited, ReadEntry(data, position).value);
    }
  }

  lemma {:induction false} AsMapValue(ms: seq<Member>, m: Member)
    requires m in ms && forall i, j :: 0 <= i < j < |ms| ==> ms[i].name != ms[j].name
    ensures m.name in AsMap(ms) && AsMap(ms)[m.name] == m.payload
  {
    var last := ms[|ms| - 1];
    if m != last {
      var i :| 0 <= i < |ms| && ms[i] == m;
      assert ms[..|ms| - 1][i] == m;
      AsMapValue(ms[..|ms| - 1], m);
      assert last.name != m.name;
    }
  }

  lemma BuildNames()
    ensures WellFormedName(DEBIAN_BINARY) && WellFormedName(CONTROL_NAME) && WellFormedName(DATA_NAME)
    ensures |DEBIAN_BINARY| == 13 && |CONTROL_NAME| == 14 && |DATA_NAME| == 11
    ensures |Decimal(|FORMAT_VERSION|)| == 1
  {
  }

  lemma AsMapOfThree(a: Member, b: Member, c: Member)
    ensures AsMap([a, b, c]) == map[][a.name := a.payload][b.name := b.payload][c.name := c.payload]
  {
    assert [a, b, c][..2] == [a, b] && [a, b][..1] == [a] && [a][..0] == [];
    assert AsMap([a]) == AsMap([])[a.name := a.payload];
    assert AsMap([a, b]) == AsMap([a])[b.name := b.payload];
  }

  lemma EncodeThree(a: Member, b: Member, c: Member, timestamp: int)
    requires EncodeMember(a, timestamp).Ok? && EncodeMember(b, timestamp).Ok? && EncodeMember(c, timestamp).Ok?
    ensures EncodeMembers([a, b, c], timestamp) ==
            EncodeMember(a, timestamp).value + EncodeMember(b, timestamp).value + EncodeMember(c, timestamp).value
  {
    hide EncodeMember;
    assert [a, b, c][1..] == [b, c] && [b, c][1..] == [c] && [c][1..] == [];
    assert EncodeMembers([c], timestamp) == EncodeMember(c, timestamp).value + [];
  }

  lemma BuildIsWellFormed(control: bytes, data: bytes, timestamp: int)
    requires |IntText(timestamp)| <= 12 && |Decimal(|control|)| <= 10 && |Decimal(|data|)| <= 10
    ensures WellFormed([Member(DEBIAN_BINARY, FORMAT_VERSION), Member(CONTROL_NAME, control), Member(DATA_NAME, data)],
                       timestamp)
  {
    hide WellFormedName, IntText, Decimal;
    BuildNames();
  }

  lemma ThreeMembersReadBack(a: Member, b: Member, c: Member, timestamp: int)
    requires WellFormed([a, b, c], timestamp) && a == Member(DEBIAN_BINARY, FORMAT_VERSION)
    ensures EncodeMember(a, timestamp).Ok? && EncodeMember(b, timestamp).Ok? && EncodeMember(c, timestamp).Ok?
    ensures
      ReadMembers(MAGIC + EncodeMember(a, timestamp).value + EncodeMember(b, timestamp).value
                  + EncodeMember(c, timestamp).value)
      == Ok(map[a.name := a.payload, b.name := b.payload, c.name := c.payload])
  {
    hide *;
    var ms := [a, b, c];
    assert a in ms && b in ms && c in ms;
    ReadInvertsWrite(ms, timestamp);
    EncodeThree(a, b, c, timestamp);
    AsMapOfThree(a, b, c);
    var x, y, z := EncodeMember(a, timestamp).value, EncodeMember(b, timestamp).value, EncodeMember(c, timestamp).value;
    assert MAGIC + (x + y + z) == MAGIC + x + y + z;
  }

  /** A built package reads back as its three members. */
  lemma BuiltPackageReadsBack(control: bytes, data: bytes, timestamp: int)
    requires |IntText(timestamp)| <= 12 && |Decimal(|control|)| <= 10 && |Decimal(|data|)| <= 10
    ensures ReadMembers(Build(control, data, timestamp)) ==
            Ok(map[DEBIAN_BINARY := FORMAT_VERSION, CONTROL_NAME := control, DATA_NAME := data])
  {
    hide EncodeMember, ReadMembers, WellFormed, IntText, Decimal;
    BuildIsWellFormed(control, data, timestamp);
    ThreeMembersReadBack(Member(DEBIAN_BINARY, FORMAT_VERSION), Member(CONTROL_NAME, control), Member(DATA_NAME, data),
                         timestamp);
  }
}
