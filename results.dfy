/** The outcome of an operation that Python would abort with an exception. */
module Results {

  /** The exceptions raised on malformed input. */
  datatype Error =
    | MalformedRecord  // a stripped record line does not split on spaces into exactly two names
    | MalformedRule    // a stripped rule line does not split on `=` into exactly a key and a value

  datatype Result<T> = Ok(value: T) | Err(error: Error)
}
