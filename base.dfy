/** Small shared helpers: an optional value, a success-or-error value, max, and regrouping of concatenations. */
module Base {

  datatype Option<+T> = None | Some(value: T)

  datatype Result<+R, +E> = Success(value: R) | Failure(error: E)

  function Max(a: int, b: int): int {
    if a < b then b else a
  }

  /** Concatenation regroups freely; stated once so that proofs can name the step. */
  lemma Regroup<T>(a: seq<T>, b: seq<T>, c: seq<T>)
    ensures (a + b) + c == a + (b + c)
  {
  }
}
