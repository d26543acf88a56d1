/** The optional values and parse results shared by the other modules. */
module Wrappers {

  datatype Option<+T> = None | Some(value: T)

  /** What reading a value off the front of a byte sequence gives: the value and the unread rest, or a failure. */
  datatype Parsed<+T, +R> = Parsed(value: T, rest: R) | Malformed {
    predicate IsFailure() {
      Malformed?
    }

    function PropagateFailure<U>(): Parsed<U, R>
      requires Malformed?
    {
      Malformed
    }

    function Extract(): (T, R)
      requires Parsed?
    {
      (value, rest)
    }
  }

  /** A read that may also bring down the thread that performs it. */
  datatype Attempt<+T, +R> = Done(value: T, rest: R) | Failed | Panicked

  /** An advancing reader returned `got` and has `left` unread, exactly as the pure reader `spec` says. */
  ghost predicate Follows<T, R>(spec: Parsed<T, R>, got: Option<T>, left: R) {
    match spec
    case Parsed(v, rest) => got == Some(v) && left == rest
    case Malformed => got == None
  }
}
