/** Failure-carrying values shared by the story store and the poll loop.
    `Option` stands for a Python value that may be `None`; `Result` stands for
    a call that either returns or raises. */
module Results {

  datatype Option<+T> = None | Some(value: T)

  datatype Result<+T, +E> = Success(value: T) | Failure(error: E)
}
