/** The error taxonomy of the reader layer.

    Every failure the layer reports is an I/O error carrying a kind: the kinds
    raised by the byte source itself, `UnexpectedEof` for a record cut short by
    the end of the stream, and `NotFound` for a required resource reported
    absent. The human-readable messages attached to these errors are not
    modelled. */
module IoErrors {

  /** The kinds of I/O error this layer tells apart. `Other` stands for every
      kind the layer only forwards (permission denied, device error, ...). */
  datatype IoKind = NotFound | Interrupted | UnexpectedEof | Other(code: int)

  /** An error of the crate: a wrapped I/O error of some kind. */
  datatype Error = Io(kind: IoKind)

  /** A success value or an error. */
  datatype Result<T> = Ok(value: T) | Err(error: Error)

  /** A value that may be absent. */
  datatype Option<T> = None | Some(value: T)
}
