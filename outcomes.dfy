/** Results of the conversion's steps. A Python exception raised by a step is
    an `Err` carrying the reason; a normal return is an `Ok`. */
module Outcomes {

  /** Why a step raised instead of returning. */
  datatype Failure =
    | ShortRead   // struct.unpack('i', ...) was handed fewer than four bytes
    | BadUtf8     // bytes.decode() met a payload that is not well-formed UTF-8
    | OutOfRange  // struct.pack was handed an integer outside its format's range

  datatype Result<+T> = Ok(value: T) | Err(error: Failure)

  datatype Option<+T> = None | Some(value: T)
}
