/** Three-state results of frame decoding: an error, "no value" (`Ok(Step(None, _))`)
    or a decoded value. `Result` supports `:-`, which plays the part of Rust's `?`. */
module Results {

  /** An optional value; `GetOr("")` plays the part of Rust's `unwrap_or_default` on strings. */
  datatype Option<+T> = None | Some(value: T) {

    /** The wrapped value, or `default` when there is none. */
    function GetOr(default: T): T
    {
      match this
      case Some(v) => v
      case None => default
    }

    /** Applies `f` to the wrapped value, if any (Rust's `Option::map`). */
    function Map<U>(f: T -> U): Option<U>
    {
      match this
      case Some(v) => Some(f(v))
      case None => None
    }
  }

  /** The failure kinds the frame-content decoder can report or propagate. */
  datatype Error =
    | V2InvalidTextEncoding      // an encoding marker other than 0 or 1 in an ID3v2.2 tag
    | InvalidEncoding            // an encoding marker that names no known encoding
    | ShortRead                  // a fixed-size read ran past the end of the payload
    | TextDecode(reason: string) // a text run that is not valid in its declared encoding
    | ItemError(reason: string)  // any failure reported by a compound-item parser

  /** Success with a value, or failure with an `Error`. */
  datatype Result<+T> = Ok(value: T) | Err(error: Error) {

    predicate IsFailure() {
      Err?
    }

    function PropagateFailure<U>(): Result<U>
      requires Err?
    {
      Err(error)
    }

    function Extract(): T
      requires Ok?
    {
      value
    }
  }
}
