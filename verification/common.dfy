/** Failure-compatible wrappers used throughout the model. */
module Wrappers {

  datatype Option<+T> = None | Some(value: T)

  datatype Result<+T, +E> = Ok(value: T) | Err(error: E)
}

/** The HTTP statuses the webhook handler can answer with. */
module Http {

  datatype Status = Ok | BadRequest | NotFound | InternalServerError

  /** The numeric status code sent on the wire. */
  function Code(s: Status): nat
  {
    match s
    case Ok => 200
    case BadRequest => 400
    case NotFound => 404
    case InternalServerError => 500
  }

  /** What a request guard produces: the extracted value, or the status to answer with and the cause. */
  datatype Outcome<+T, +E> = Success(value: T) | Failure(status: Status, error: E)
}

/** Bytes built from integer values. */
module Bytes {

  /** The byte whose value is `x`. */
  function Of(x: int): (b: bv8)
    requires 0 <= x < 0x100
    ensures b as int == x
  {
    x as bv8
  }
}
