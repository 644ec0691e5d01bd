/** Option stands for a .NET reference that may be null; Result for a call that may throw. */
module Wrappers {

  datatype Option<+T> = None | Some(value: T)

  datatype Result<+R, +E> = Success(value: R) | Failure(error: E)

  /** String.IsNullOrEmpty */
  predicate IsNullOrEmpty(s: Option<string>)
  {
    s.None? || s.value == []
  }
}
