/** Failure-carrying values shared by the parser layers. */
module Errors {

  datatype Option<+T> = None | Some(value: T)

  /** The error conditions the parser reports. EOF is what a read reports
      when the line source runs out before a transaction ends. */
  datatype Error = MalformedLine | MalformedBoundary | MalformedReference | EOF

  /** A parse result: a value, or the kind of error that stopped the parse. */
  datatype Result<+T> = Ok(value: T) | Err(error: Error)
}
