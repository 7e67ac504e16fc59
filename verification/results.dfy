/** Outcomes of the metacommunity's checked operations. Each error stands
    for an exception (or an undefined read) of the C++ code. */
module Results {

  datatype Option<+T> = None | Some(value: T)

  datatype Error =
    | LengthMismatch(expected: int, received: int)  // util::check_length refused a size
    | IntegrationFailure                            // the ODE solver could not complete a step
    | BufferOverrun                                 // a copy would run past the end of a fixed buffer

  datatype Result<+T> = Ok(value: T) | Err(error: Error)
}
