/** Python texts: sequences of code points, which may hold lone surrogates that UTF-8 cannot encode. */
module Unicode {
  type CodePoint = c: int | 0 <= c < 0x11_0000
  type Text = seq<CodePoint>

  const NEWLINE: CodePoint := 10
  const RETURN: CodePoint := 13

  /** A text written in the program. */
  function U(s: string): (text: Text)
    ensures |text| == |s| && forall i :: 0 <= i < |s| ==> text[i] == s[i] as int
  {
    seq(|s|, i requires 0 <= i < |s| => s[i] as int)
  }

  predicate IsSurrogate(c: CodePoint) {
    0xD800 <= c < 0xE000
  }

  /** `text.encode("utf-8")` does not raise. */
  predicate Encodable(text: Text) {
    forall i :: 0 <= i < |text| ==> !IsSurrogate(text[i])
  }
}
