/** The outcome of an operation that can fail with a described error, in place
    of the exceptions the grading code raises and catches. */
module Results {

  datatype Result<+T, +E> = Ok(value: T) | Err(error: E)

}
