/** Failure-compatible datatypes shared by every module of the model.

- Option<T>: a value that may be absent (Rust's `Option`).
- Result<T>: a computation that either produces a value or stops with a message.
  Rust's `Err(String)` returns, `panic!`, `unwrap()` on a missing value, `todo!()`
  and the interpreters' "raise and exit" error reporting all become `Err`.
- Outcome<T>: how a fuel-bounded interpreter run ends.
 */
module Wrappers {

  datatype Option<+T> = None | Some(value: T) {

    predicate IsFailure() {
      None?
    }

    function PropagateFailure<U>(): Option<U>
      requires None?
    {
      None
    }

    function Extract(): T
      requires Some?
    {
      value
    }
  }

  datatype Result<+T> = Ok(value: T) | Err(msg: string) {

    predicate IsFailure() {
      Err?
    }

    function PropagateFailure<U>(): Result<U>
      requires Err?
    {
      Err(msg)
    }

    function Extract(): T
      requires Ok?
    {
      value
    }
  }

  /** How an interpreter run ends: it returned a value, it stopped with an error,
      the program asked the process to exit, or the fuel given to the model ran out
      (the fuel bound stands in for the unbounded recursion of the interpreters). */
  datatype Outcome<+T> = Returned(value: T) | Failed(msg: string) | Exited | NoFuel {

    /** True for every ending except a normal return. */
    predicate IsFailure() {
      !Returned?
    }

    function PropagateFailure<U>(): Outcome<U>
      requires !Returned?
    {
      match this
      case Failed(m) => Failed(m)
      case Exited => Exited
      case NoFuel => NoFuel
    }

    function Extract(): T
      requires Returned?
    {
      value
    }
  }

  /** Turns a Result into an Outcome with the same value or message. */
  function FromResult<T>(r: Result<T>): (o: Outcome<T>)
    ensures o.Returned? <==> r.Ok?
    ensures r.Ok? ==> o.value == r.value
    ensures r.Err? ==> o == Failed(r.msg)
  {
    match r
    case Ok(v) => Returned(v)
    case Err(m) => Failed(m)
  }
}
