/** Option and Result types standing in for the Python exceptions that the
    table comparison code raises or catches, and the small list helpers
    every module uses. */
module Wrappers {

  datatype Option<+T> = None | Some(value: T)

  /** The Python exception kinds the modelled code can raise. */
  datatype PyError =
    | IndexError           // list index out of range
    | ValueError           // usage error, e.g. missing header values
    | NotImplementedError  // a write through a read-only table engine

  /** A computation that either returns a value or raises a Python exception. */
  datatype Result<+T> = Success(value: T) | Failure(error: PyError) {
    predicate IsFailure() { Failure? }

    function PropagateFailure<U>(): Result<U>
      requires Failure?
    {
      Failure(error)
    }

    function Extract(): T
      requires Success?
    {
      value
    }
  }

  /** A side-effecting Python call that returns nothing or raises. */
  datatype Status = Done | Raised(error: PyError) {
    predicate IsFailure() { Raised? }

    function PropagateFailure(): Status
      requires Raised?
    {
      this
    }
  }

  function Max(a: int, b: int): int { if a < b then b else a }

  function Min(a: int, b: int): int { if a < b then a else b }

  /** `[x] * n` */
  function Repeat<T>(x: T, n: nat): (r: seq<T>)
    ensures |r| == n
    ensures forall i :: 0 <= i < n ==> r[i] == x
  {
    seq(n, _ => x)
  }

  /** Sequence append regrouped; kept as a lemma so that callers with a
      large heap context get the fact without the extensionality proof. */
  lemma AppendAssociates<T>(a: seq<T>, b: seq<T>, c: seq<T>)
    ensures (a + b) + c == a + (b + c)
  {
  }
}
