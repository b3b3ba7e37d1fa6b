/** Option and Result, the two failure-carrying shapes the Rust code uses. */
module Wrappers {

  datatype Option<+T> = None | Some(value: T) {

    /** The wrapped value, or `default` when there is none (Rust's `unwrap_or`). */
    function GetOr(default: T): T {
      match this
      case Some(v) => v
      case None => default
    }

    /** `self` when present, otherwise `other` (Rust's `Option::or`). */
    function Or(other: Option<T>): Option<T> {
      match this
      case Some(_) => this
      case None => other
    }
  }

  datatype Result<+T, +E> = Ok(value: T) | Err(error: E) {
    predicate IsFailure() {
      Err?
    }

    function PropagateFailure<U>(): Result<U, E>
      requires Err?
    {
      Err(error)
    }

    function Extract(): T
      requires Ok?
    {
      value
    }
  }
}

/** The error kinds the modelled code raises. The messages of the Rust
    code are left out; only which error and the names it mentions are kept. */
module Errors {

  datatype Error =
    /** An empty (or, for shorthand descriptions, whitespace-only) command string. */
    | EmptyCommand
    /** `name` cannot extend `target`: the target is a concurrent group, or
        it is still missing on the second attempt. Both give the same error. */
    | CannotExtend(name: string, target: string)
    /** The root task requested from a context is not a command. */
    | CommandNotFound(name: string)
}
