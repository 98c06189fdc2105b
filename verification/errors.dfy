/** Error kinds raised by the chunk-level PNG code, and the failure-compatible
    result types that carry them (the model of `anyhow::Result` and `Option`). */
module Errors {
  import opened Bytes

  /** One constructor per distinct failure the crate can report. */
  datatype Error =
    | Eof                  // `read_exact` ran out of input
    | InvalidType          // four type bytes are not a valid PNG chunk type
    | BadLength            // recomputed data length differs from the stored length
    | BadCrc               // recomputed CRC differs from the stored CRC
    | BadSignature         // the first eight bytes are not the PNG signature
    | WrongLength          // a chunk-type string is not four bytes long
    | InvalidChar(byte: u8)  // a chunk-type string holds a non-alphabetic byte
    | NotFound             // no chunk of the requested type
    | InvalidUtf8          // chunk data is not well-formed UTF-8

  datatype Result<+T> = Ok(value: T) | Err(error: Error) {
    predicate IsFailure() { Err? }

    function PropagateFailure<U>(): Result<U>
      requires Err?
    {
      Err(error)
    }

    function Extract(): T
      requires Ok?
    {
      value
    }
  }

  datatype Option<+T> = None | Some(value: T)
}
