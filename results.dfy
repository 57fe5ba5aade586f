/** Failure-carrying results for the operations whose Python counterparts raise. */
module Results {

  /** The exceptions the library can raise on the paths this model covers. */
  datatype Error =
    | DomainError     // math.log2 of a non-positive value, randint on an empty range, or
                      // randint on bounds that are not integers (ValueError or TypeError,
                      // depending on the Python version)
    | Overflow        // OverflowError from int.to_bytes when the length is too small
    | ZeroDivision    // ZeroDivisionError from `/`, `//` or `%` by zero

  datatype Result<T> = Ok(value: T) | Err(error: Error)

  datatype Option<T> = None | Some(value: T)
}
