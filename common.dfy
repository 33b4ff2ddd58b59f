/** Failure-compatible wrappers shared by the structure model. */
module Common {

  /** A value that may be absent (Python's `None`). */
  datatype Option<T> = None | Some(value: T)

  /** The outcome of an operation that may raise: `Err` carries what was raised. */
  datatype Result<T, E> = Ok(value: T) | Err(error: E)

  /** The first index of `x` in `s` (Python's `list.index`). */
  function IndexOf<T(==)>(s: seq<T>, x: T): (r: nat)
    requires x in s
    ensures r < |s| && s[r] == x
    ensures forall q :: 0 <= q < r ==> s[q] != x
  {
    if s[0] == x then 0 else 1 + IndexOf(s[1..], x)
  }
}
