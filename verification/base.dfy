/** Failure-compatible wrappers shared by every module of the scanner model.
    A `Result` stands for a Python call that either returns a value or raises;
    the raised exception is recorded by its class only. */
module Base {

  datatype Option<+T> = None | Some(value: T)

  /** The Python exceptions the modelled code can raise and does not catch. */
  datatype Crash = KeyError | TypeError | ValueError | DivisionByZero

  datatype Result<+T> = Success(value: T) | Failure(error: Crash) {

    predicate IsFailure() {
      Failure?
    }

    function PropagateFailure<U>(): Result<U>
      requires Failure?
    {
      Failure(error)
    }

    function Extract(): T
      requires Success?
    {
      value
    }
  }

  /** Concatenation of a sequence of sequences, in order. */
  function Concat<T>(ss: seq<seq<T>>): seq<T>
  {
    if |ss| == 0 then [] else Concat(ss[..|ss| - 1]) + ss[|ss| - 1]
  }
}
