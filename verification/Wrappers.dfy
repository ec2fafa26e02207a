/** Optional values, and values or the errors that stand for the exceptions of the original. */
module Wrappers {

  datatype Option<+T> = None | Some(value: T)

  /** The exceptions of a reader, and of a send with a reserved request id. */
  datatype Failure = BadDeserialization | InvalidArgument

  datatype Result<+T, +E> = Ok(value: T) | Err(error: E)

  /** A sequence with one element taken out. */
  function Without<T>(s: seq<T>, i: nat): (r: seq<T>)
    requires i < |s|
    ensures |r| == |s| - 1
  {
    s[..i] + s[i + 1..]
  }

  /** Concatenation is associative; the verifier has to be reminded. */
  lemma Assoc<T>(a: seq<T>, b: seq<T>, c: seq<T>)
    ensures a + (b + c) == (a + b) + c
  {
  }
}
