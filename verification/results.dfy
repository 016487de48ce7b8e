/** Failure-carrying values shared by every module of the model.
    `Option` stands for Python's `X | None`; `Result` stands for a call that
    either returns a value or raises an exception of the given error type. */
module Results {

  datatype Option<+T> = None | Some(value: T)

  datatype Result<+T, +E> = Ok(value: T) | Err(error: E)

  /** Exceptions raised by the relational layer that the stores can observe. */
  datatype DbError =
    | MultipleResultsFound   // `.one_or_none()` saw more than one row
    | IntegrityError         // a commit would violate a unique constraint
}
