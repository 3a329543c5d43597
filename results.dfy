/** Error values and the two failure-carrying wrappers the client uses. */
module Results {

  /** The errors the client can hand back to its caller. */
  datatype Error =
    | InvalidVersion       // the request asked for a version other than 3 or 4
    | Eof                  // io.EOF: the connection ended before any byte of a reply
    | UnexpectedEof        // io.ErrUnexpectedEOF: the connection ended inside a reply
    | Net(cause: string)   // any other error of the network layer, passed through unchanged

  datatype Option<+T> = None | Some(value: T)

  datatype Result<+T> = Ok(value: T) | Err(error: Error)
}
