/** Option and Result, the two failure-carrying types the Rust code uses, and one sequence fact shared by the proofs. */
module Wrappers {

  datatype Option<+T> = None | Some(value: T)

  datatype Result<+T, +E> = Success(value: T) | Failure(error: E)

  /** Concatenation regrouped; stated once so that provers need not rediscover it by extensionality. */
  lemma SeqAssoc<T>(a: seq<T>, b: seq<T>, c: seq<T>)
    ensures a + (b + c) == (a + b) + c
  {
  }
}
