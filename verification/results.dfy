/** Failure-carrying results shared by the codecs and the database model. */
module Results {

  datatype Option<+T> = None | Some(value: T)

  datatype Result<+T, +E> = Ok(value: T) | Err(error: E) {
    predicate IsOk() { Ok? }
  }
}
