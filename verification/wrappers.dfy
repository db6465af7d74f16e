/** Shared value types: optional values, results with an error, and bytes. */
module Wrappers {

  /** A value that may be absent (Python's `None`). */
  datatype Option<+T> = None | Some(value: T)

  /** The outcome of an operation that can raise: a value or the error raised. */
  datatype Result<+T, +E> = Ok(value: T) | Err(error: E)

  /** One octet, as in Python's `bytes`. */
  type byte = b: int | 0 <= b < 256

  /** The byte sequence of `n` copies of `b`, as Python's `bytes([b]) * n`. */
  function Repeat(b: byte, n: nat): (r: seq<byte>)
    ensures |r| == n
    ensures forall i :: 0 <= i < n ==> r[i] == b
  {
    seq(n, _ => b)
  }
}
