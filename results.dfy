/** Outcomes of the request handlers: a value, or the way the handler failed. */
module Results {
  datatype Option<T> = None | Some(value: T)

  /** Status codes the handlers answer with when they give up. */
  const StatusBadRequest: int := 400
  const StatusInternalServerError: int := 500

  /** How a handler fails: an HTTP error page, an error returned by a
      collaborator (the channel cabinet), or a run-time panic of the handler
      (an index out of range). */
  datatype Failure = Status(code: int) | Upstream | Panic

  datatype Result<T> = Ok(value: T) | Err(failure: Failure)
}
