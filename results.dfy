/** The single failure outcome of the parser: every exception the Java code can
    raise (a missing entry, a failed cast, a short stream, a record the
    property decoder rejects) is collapsed into `Fail`. */
module Results {

  datatype Result<+T> = Ok(value: T) | Fail {

    predicate IsFailure() {
      Fail?
    }

    function PropagateFailure<U>(): Result<U>
      requires Fail?
    {
      Fail
    }

    function Extract(): T
      requires Ok?
    {
      value
    }
  }
}
