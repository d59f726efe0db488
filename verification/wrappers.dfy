/** Failure-compatible wrappers shared by every module of the model.

    Java's nullable references become `Option`, and every thrown exception of
    the scheduler becomes the `Err` case of a `Result`, carrying a `Throwable`
    value that says which exception class the source throws. */
module Wrappers {

  /** A nullable reference: `None` stands for Java's `null`. */
  datatype Option<+T> = None | Some(value: T) {

    predicate IsFailure() {
      None?
    }

    function PropagateFailure<U>(): Option<U>
      requires None?
    {
      None
    }

    function Extract(): T
      requires Some?
    {
      value
    }

    function GetOr(default: T): T {
      match this
      case Some(v) => v
      case None => default
    }
  }

  /** The throwables the scheduler creates or passes on. `UserError` is an
      exception raised by user code (a guard, an action, a filter); its `id`
      only serves to tell two such exceptions apart. */
  datatype Throwable =
    | NullPointer(message: string)
    | IllegalArgument(message: string)
    | DagEngine(message: string)
    | GraphRead(message: string)
    | ClassCast
    | Timeout(source: string)
    | Interrupted
    | UserError(id: int)

  /** Either a value or the exception a Java method would throw instead. */
  datatype Result<+T> = Ok(value: T) | Err(error: Throwable) {

    predicate IsFailure() {
      Err?
    }

    function PropagateFailure<U>(): Result<U>
      requires Err?
    {
      Err(error)
    }

    function Extract(): T
      requires Ok?
    {
      value
    }
  }

  /** `Objects.requireNonNull`: fails with a `NullPointer` exception on `null`. */
  function RequireNonNull<T>(x: Option<T>, message: string): (r: Result<T>)
    ensures r.Ok? <==> x.Some?
    ensures r.Ok? ==> r.value == x.value
    ensures r.Err? ==> r.error == NullPointer(message)
  {
    match x
    case Some(v) => Ok(v)
    case None => Err(NullPointer(message))
  }
}
