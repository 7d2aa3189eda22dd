/** Small failure-carrying datatypes shared by every layer of the store. */
module Base {

  /** A value that may be absent; `None` plays the part of JavaScript's `undefined`. */
  datatype Option<+T> = None | Some(value: T)

  /** The ways a filesystem call can fail in this model. */
  datatype IoError =
    | NoSuchFile          // reading or removing a path that holds no file
    | NoParentDirectory   // writing into a directory that does not exist
    | PermissionDenied    // the process may not write or remove this path

  /** The outcome of a call that may throw an I/O error. */
  datatype Result<+T> = Success(value: T) | Failure(error: IoError)
}
