/** Small value wrappers shared by the session model. */
module Wrappers {

  /** A value that may be absent: Python's `None` or a present value. */
  datatype Option<+T> = None | Some(value: T)

  /** The outcome of an operation that may raise: the value, or the error it raises. */
  datatype Result<+T, +E> = Ok(value: T) | Err(error: E)

  /** What a Dash callback writes to one output: `dash.no_update`, or a new value. */
  datatype Update<+T> = NoUpdate | Set(value: T)

  /** Python truthiness of an optional click counter (`None` and `0` are false). */
  predicate Truthy(n: Option<nat>)
  {
    n.Some? && n.value != 0
  }

  /** `n + 1 if n is not None else 1`, the idiom the callbacks use to bump a click counter. */
  function Bump(n: Option<nat>): (r: nat)
    ensures n.None? ==> r == 1
    ensures n.Some? ==> r == n.value + 1
  {
    match n
    case Some(k) => k + 1
    case None => 1
  }
}
