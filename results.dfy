/** Outcomes shared by every part of the model. */
module Results {

  datatype Option<T> = None | Some(value: T)

  /** What a handler step produces: a value, or the HTTP status and message
      it halts with (`reject`/`halt`, or 500 for an exception Ruby raises). */
  datatype Result<T> = Ok(value: T) | Err(status: nat, message: string)

}
