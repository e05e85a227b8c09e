/**
 The backward tail reader of log_reader.py. It reads a file in chunks from its end, counts only
 line feeds, and then splits at every line ending; the theorem is that it returns the last lines
 of the whole file.
 */
module LogTail {
  import opened Bytes

  datatype TailError = NegativeLines | NotAFile | Undecodable

  const CHUNK: nat := 8192

  /** Where the first line of `s` ends: after LF, after CR LF, after a bare CR, or at the end of `s`. */
  function LineEnd(s: bytes): (n: nat)
    requires s != []
    ensures 1 <= n <= |s|
  {
    if s[0] == LF then 1
    else if s[0] == CR then (if |s| > 1 && s[1] == LF then 2 else 1)
    else if |s| == 1 then 1
    else 1 + LineEnd(s[1..])
  }

  /** Python's `bytes.splitlines(keepends=True)`. */
  function SplitLines(s: bytes): (lines: seq<bytes>)
    ensures s != [] ==> lines != []
    decreases |s|
  {
    if s == [] then [] else [s[..LineEnd(s)]] + SplitLines(s[LineEnd(s)..])
  }

  /** A line ends at its first LF, CR LF or CR, and only the last line of a text may end with neither. */
  predicate IsLine(line: bytes) {
    && line != []
    && (forall i :: 0 <= i < |line| - 1 ==> line[i] != LF)
    && (forall i :: 0 <= i < |line| - 1 ==> line[i] == CR ==> i == |line| - 2 && line[|line| - 1] == LF)
  }

  predicate IsEnded(line: bytes) {
    line != [] && (line[|line| - 1] == LF || line[|line| - 1] == CR)
  }

  /** The lines of a text: they join to it, all but the last are ended, and no CR LF is cut in two. */
  predicate AreLines(s: bytes, lines: seq<bytes>) {
    && Join(lines) == s
    && (forall i :: 0 <= i < |lines| ==> IsLine(lines[i]))
    && (forall i :: 0 <= i < |lines| - 1 ==>
          IsEnded(lines[i]) && !(lines[i][|lines[i]| - 1] == CR && lines[i + 1][0] == LF))
  }

  /** A line at the front of a text, ended there or at the end of the text, is the first line. */
  lemma {:induction false} FirstLineIs(line: bytes, rest: bytes)
    requires IsLine(line) && (rest == [] || IsEnded(line))
    requires rest != [] ==> !(line[|line| - 1] == CR && rest[0] == LF)
    ensures LineEnd(line + rest) == |line|
  {
    var s := line + rest;
    if |line| == 1 {
      assert rest != [] ==> s[1] == rest[0];
    } else if line[0] == CR {
      assert |line| == 2 && s[1] == LF;
    } else {
      assert s[1..] == line[1..] + rest && s[0] != LF;
      assert IsLine(line[1..]) by {
        assert forall i :: 0 <= i < |line| - 2 ==> line[1..][i] == line[i + 1];
      }
      FirstLineIs(line[1..], rest);
    }
  }

  lemma {:induction false} LineEndIsLine(s: bytes)
    requires s != []
    ensures var n := LineEnd(s);
            && IsLine(s[..n]) && (n < |s| ==> IsEnded(s[..n]) && !(s[n - 1] == CR && s[n] == LF))
  {
    var n := LineEnd(s);
    if s[0] != LF && s[0] != CR && |s| > 1 {
      LineEndIsLine(s[1..]);
      assert forall i :: 1 <= i < n ==> s[i] == s[1..][i - 1];
    }
  }

  /** `splitlines` gives the lines of the text, and no other sequence is that. */
  lemma {:induction false} SplitLinesExactly(s: bytes, lines: seq<bytes>)
    ensures SplitLines(s) == lines <==> AreLines(s, lines)
    decreases |s|
  {
    SplitsIntoLines(s);
    if AreLines(s, lines) { LinesAreSplit(s, lines); }
  }

  lemma {:induction false} SplitsIntoLines(s: bytes)
    ensures AreLines(s, SplitLines(s))
    decreases |s|
  {
    if s != [] {
      var n, lines := LineEnd(s), SplitLines(s);
      LineEndIsLine(s);
      SplitsIntoLines(s[n..]);
      var rest := SplitLines(s[n..]);
      assert lines == [s[..n]] + rest;
      if rest != [] {
        assert rest[0] == s[n..][..LineEnd(s[n..])];
        assert rest[0][0] == s[n];
      }
      forall i | 0 <= i < |lines|
        ensures IsLine(lines[i])
        ensures i < |lines| - 1 ==> IsEnded(lines[i]) && !(lines[i][|lines[i]| - 1] == CR && lines[i + 1][0] == LF)
      {
        if i > 0 { assert lines[i] == rest[i - 1]; }
      }
    }
  }

  lemma {:induction false} LinesAreSplit(s: bytes, lines: seq<bytes>)
    requires AreLines(s, lines)
    ensures SplitLines(s) == lines
    decreases |lines|
  {
    if lines == [] {
      assert s == [];
    } else {
      var line, rest := lines[0], lines[1..];
      assert s == line + Join(rest);
      if rest != [] {
        assert Join(rest) == rest[0] + Join(rest[1..]) && IsLine(lines[1]);
        assert lines[1] == rest[0];
      }
      FirstLineIs(line, Join(rest));
      assert s[..|line|] == line && s[|line|..] == Join(rest);
      assert AreLines(Join(rest), rest) by {
        forall i | 0 <= i < |rest|
          ensures IsLine(rest[i])
          ensures i < |rest| - 1 ==> IsEnded(rest[i]) && !(rest[i][|rest[i]| - 1] == CR && rest[i + 1][0] == LF)
        {
          assert rest[i] == lines[i + 1];
        }
      }
      LinesAreSplit(Join(rest), rest);
    }
  }

  /** Python's `items[-n:]` for a positive `n`. */
  function LastN<T>(items: seq<T>, n: nat): seq<T> {
    if |items| <= n then items else items[|items| - n..]
  }

  function CountLF(s: bytes): nat {
    if s == [] then 0 else (if s[0] == LF then 1 else 0) + CountLF(s[1..])
  }

  predicate EndsWithLF(s: bytes) {
    s != [] && s[|s| - 1] == LF
  }

  /** `b"".join(reversed(chunks))`. */
  function JoinReversed(chunks: seq<bytes>): bytes {
    if chunks == [] then [] else chunks[|chunks| - 1] + JoinReversed(chunks[..|chunks| - 1])
  }

  /** Decode each record; one that is not UTF-8 fails the whole read. */
  function DecodeAll(decode: bytes -> Option<string>, records: seq<bytes>): (r: Result<seq<string>, TailError>)
  {
    if records == [] then Ok([])
    else match (decode(records[0]), DecodeAll(decode, records[1..]))
      case (Some(head), Ok(tail)) => Ok([head] + tail)
      case _ => Err(Undecodable)
  }

  /** What the reader should return: the last `lines` lines of the whole content, decoded. */
  function TailSpec(content: bytes, lines: int, decode: bytes -> Option<string>): Result<seq<string>, TailError> {
    if lines < 0 then Err(NegativeLines) else DecodeAll(decode, LastN(SplitLines(content), lines))
  }

  /** Every record is decoded in its place, or the whole read fails. */
  lemma {:induction false} DecodesExactly(decode: bytes -> Option<string>, records: seq<bytes>, texts: seq<string>)
    ensures DecodeAll(decode, records) == Ok(texts)
       <==> |texts| == |records| && forall i :: 0 <= i < |records| ==> decode(records[i]) == Some(texts[i])
    decreases |records|
  {
    if records != [] {
      if texts != [] {
        DecodesExactly(decode, records[1..], texts[1..]);
        assert texts == [texts[0]] + texts[1..];
        assert forall i :: 0 < i < |records| ==> records[i] == records[1..][i - 1];
        if |texts| == |records| && forall i :: 0 <= i < |records| ==> decode(records[i]) == Some(texts[i]) {
          forall i | 0 <= i < |records| - 1 ensures decode(records[1..][i]) == Some(texts[1..][i]) {
            assert decode(records[i + 1]) == Some(texts[i + 1]);
          }
        }
      }
    }
  }

  /** The tail of a content is its last lines, whatever sequence of lines one takes it to be, in order and decoded. */
  lemma TailsExactly(content: bytes, lines: nat, decode: bytes -> Option<string>, all: seq<bytes>, texts: seq<string>)
    requires AreLines(content, all)
    ensures TailSpec(content, lines, decode) == Ok(texts)
       <==> && |texts| == (if lines < |all| then lines else |all|)
            && forall i :: 0 <= i < |texts| ==> decode(all[|all| - |texts| + i]) == Some(texts[i])
  {
    hide AreLines, SplitLines, DecodeAll, LastN;
    SplitLinesExactly(content, all);
    var last := LastN(all, lines);
    LastOnes(all, lines);
    DecodesExactly(decode, last, texts);
    assert TailSpec(content, lines, decode) == DecodeAll(decode, last);
    if |texts| == |last| {
      forall i | 0 <= i < |texts|
        ensures decode(last[i]) == Some(texts[i]) <==> decode(all[|all| - |texts| + i]) == Some(texts[i])
      {
      }
    }
  }

  lemma LastOnes<T>(items: seq<T>, n: nat)
    ensures var last := LastN(items, n);
            && |last| == (if n < |items| then n else |items|)
            && forall i :: 0 <= i < |last| ==> last[i] == items[|items| - |last| + i]
  {
  }

  lemma {:induction false} CountLFSplit(s: bytes, p: nat)
    requires p <= |s|
    ensures CountLF(s) == CountLF(s[..p]) + CountLF(s[p..])
  {
    if p == 0 {
      assert s[..0] == [] && s[0..] == s;
    } else {
      assert s[..p][1..] == s[1..][..p - 1] && s[p..] == s[1..][p - 1..];
      CountLFSplit(s[1..], p - 1);
    }
  }

  /** Cutting inside the first line does not move its end. */
  lemma {:induction false} LineEndFromInside(s: bytes, p: nat)
    requires s != [] && p < LineEnd(s)
    ensures LineEnd(s[p..]) == LineEnd(s) - p
  {
    if p > 0 && s[0] != LF && s[0] != CR {
      assert s[p..] == s[1..][p - 1..];
      LineEndFromInside(s[1..], p - 1);
    } else {
      assert p == 0 ==> s[p..] == s;
    }
  }

  /** A line holds at most one LF, and only as its last byte. */
  lemma {:induction false} LineHoldsOneLF(s: bytes)
    requires s != []
    ensures CountLF(s[..LineEnd(s)]) == if s[LineEnd(s) - 1] == LF then 1 else 0
  {
    var line := s[..LineEnd(s)];
    if s[0] == LF || s[0] == CR || |s| == 1 {
      if |line| == 1 {
        assert line == [s[0]];
      } else {
        assert line == [CR] + [LF] && line[1..] == [LF];
        CountLFSplit(line, 1);
        assert line[..1] == [CR];
      }
    } else {
      LineHoldsOneLF(s[1..]);
      assert line[1..] == s[1..][..LineEnd(s[1..])];
    }
  }

  /** Every LF ends a line, and a last byte other than LF belongs to one more line. */
  lemma {:induction false} EnoughLines(s: bytes)
    ensures |SplitLines(s)| >= CountLF(s) + (if s != [] && !EndsWithLF(s) then 1 else 0)
    decreases |s|
  {
    if s != [] {
      var n := LineEnd(s);
      CountLFSplit(s, n);
      LineHoldsOneLF(s);
      EnoughLines(s[n..]);
    }
  }

  /** From any cut point on, all lines but the first are lines of the whole content. */
  lemma {:induction false} LinesAfterACut(s: bytes, p: nat) returns (before: seq<bytes>)
    requires p < |s|
    ensures SplitLines(s) == before + SplitLines(s[p..])[1..]
    decreases |s|
  {
    var n := LineEnd(s);
    if p < n {
      LineEndFromInside(s, p);
      assert s[p..][n - p..] == s[n..];
      before := [s[..n]];
    } else {
      assert s[p..] == s[n..][p - n..];
      var inner := LinesAfterACut(s[n..], p - n);
      before := [s[..n]] + inner;
    }
  }

  lemma LastNOfAppend<T>(before: seq<T>, rest: seq<T>, n: nat)
    requires |rest| >= n
    ensures LastN(before + rest, n) == LastN(rest, n)
  {
    var all := before + rest;
    assert all[|all| - n..] == rest[|rest| - n..];
    assert rest[|rest| - |rest|..] == rest;
  }

  /** A suffix that holds one LF more than it has complete lines to give has the same last lines. */
  lemma TailOfSuffix(content: bytes, p: nat, n: nat)
    requires n > 0 && p < |content|
    requires p == 0 || CountLF(content[p..]) >= n + (if EndsWithLF(content) then 1 else 0)
    ensures LastN(SplitLines(content[p..]), n) == LastN(SplitLines(content), n)
  {
    hide SplitLines, CountLF, LastN;
    if p == 0 {
      assert content[0..] == content;
    } else {
      var lines := SplitLines(content[p..]);
      EnoughLines(content[p..]);
      var before := LinesAfterACut(content, p);
      LastNOfAppend(before, lines[1..], n);
      assert lines == [lines[0]] + lines[1..];
      LastNOfAppend([lines[0]], lines[1..], n);
    }
  }

  /**
   The reader. `content` is what the file holds when it is opened (None: there is no such file);
   `decode` is the UTF-8 decoder.
   */
  method ReadFile(content: Option<bytes>, lines: int, decode: bytes -> Option<string>)
    returns (r: Result<seq<string>, TailError>)
    ensures lines < 0 ==> r == Err(NegativeLines)
    ensures lines >= 0 && content.None? ==> r == Err(NotAFile)
    ensures content.Some? ==> r == TailSpec(content.value, lines, decode)
  {
    if lines < 0 {
      return Err(NegativeLines);
    }
    if content.None? {
      return Err(NotAFile);
    }
    var file := content.value;
    if lines == 0 {
      return Ok([]);
    }
    if |file| == 0 {
      return Ok([]);
    }
    var requiredNewlines := lines + (if file[|file| - 1] == LF then 1 else 0);
    var position := |file|;
    var chunks: seq<bytes> := [];
    var newlineCount := 0;
    while position > 0 && newlineCount < requiredNewlines
      invariant 0 <= position <= |file|
      invariant JoinReversed(chunks) == file[position..]
      invariant newlineCount == CountLF(file[position..])
    {
      var chunkSize := if CHUNK < position then CHUNK else position;
      ghost var previous := position;
      position := position - chunkSize;
      var chunk := file[position..position + chunkSize];
      assert (chunks + [chunk])[..|chunks|] == chunks;
      assert file[position..] == chunk + file[previous..];
      CountLFSplit(file[position..], chunkSize);
      chunks := chunks + [chunk];
      newlineCount := newlineCount + CountLF(chunk);
    }
    assert position < |file|;
    TailOfSuffix(file, position, lines);
    var records := SplitLines(JoinReversed(chunks));
    r := DecodeAll(decode, LastN(records, lines));
  }
}
