/** Results that may be missing, and operations that may fail. */
module Wrappers {
  datatype Option<+T> = None | Some(value: T)

  datatype Result<+T, +E> = Success(value: T) | Failure(error: E)
  {
    predicate IsFailure() {
      Failure?
    }

    function PropagateFailure<U>(): Result<U, E>
      requires Failure?
    {
      Failure(this.error)
    }

    function Extract(): T
      requires Success?
    {
      value
    }
  }

  datatype Outcome<+E> = Pass | Fail(error: E)

  /** What comes of reading a part of a buffer: it is read, or refused; or the reader has left the buffer,
      and the bytes in it do not say what happens. */
  datatype Passage<+T> = Arrived(value: T) | Refused | Astray
  {
    predicate IsFailure() {
      !Arrived?
    }

    function PropagateFailure<U>(): Passage<U>
      requires !Arrived?
    {
      if Astray? then Passage.Astray else Passage.Refused
    }

    function Extract(): T
      requires Arrived?
    {
      value
    }
  }
}
