/** Small value types shared by the rest of the model. */
module Basics {

  /** A value that may be absent (Python's `None`). */
  datatype Option<T> = None | Some(value: T)

  /** An octet of a byte string. */
  newtype byte = x: int | 0 <= x < 256

  /** What the webhook returns to the platform: a body (absent when the view
      returns `None`) and an HTTP status code. */
  datatype Reply = Reply(body: Option<string>, status: nat)
}
