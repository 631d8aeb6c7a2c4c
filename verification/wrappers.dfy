/** Definitions shared by the whole model: Java's `null` becomes `None`, an
    operation that may throw returns a `Result`, a `java.time.Instant` is a
    count of time units, and `Repeat` builds a run of equal elements. */
module Wrappers {

  datatype Option<+T> = None | Some(value: T)

  datatype Result<+R, +E> = Ok(value: R) | Err(error: E)

  /** A point in time; only its order and equality matter here. */
  type Instant = int

  /** `k` copies of `x`. */
  function Repeat<T>(x: T, k: nat): (r: seq<T>)
    ensures |r| == k
    ensures forall i :: 0 <= i < k ==> r[i] == x
  {
    if k == 0 then [] else [x] + Repeat(x, k - 1)
  }
}
