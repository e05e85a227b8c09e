/** Bytes, and the result type used for the exceptions the modelled programs raise. */
module Bytes {
  type byte = i: int | 0 <= i < 256
  type bytes = seq<byte>

  const LF: byte := 10
  const CR: byte := 13

  /** A value, or the exception that was raised in its place. */
  datatype Result<+T, +E> = Ok(value: T) | Err(error: E)

  datatype Option<+T> = None | Some(value: T)

  /** `b"".join(chunks)`. */
  function Join(chunks: seq<bytes>): bytes {
    if chunks == [] then [] else chunks[0] + Join(chunks[1..])
  }

  lemma {:induction false} JoinAppend(a: seq<bytes>, b: seq<bytes>)
    ensures Join(a + b) == Join(a) + Join(b)
  {
    if a == [] {
      assert a + b == b;
    } else {
      assert (a + b)[0] == a[0] && (a + b)[1..] == a[1..] + b;
      JoinAppend(a[1..], b);
    }
  }
}
