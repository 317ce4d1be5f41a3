/** Failure-compatible result types used across the model. */
module Wrappers {

  datatype Option<+T> = None | Some(value: T)

  /** A value, or the exception that the Python code raises instead. */
  datatype Result<+T, +E> = Success(value: T) | Failure(error: E)

  /** The outcome of a call whose only successful result is "it returned". */
  datatype Outcome<+E> = Pass | Fail(error: E)
}

/** The Python exceptions that the modelled code raises, catches or lets through. */
module Errors {

  datatype Exception =
    | ValueError            // a key that does not unpack into `path, name`; `max()` of nothing
    | FileNotFoundError     // `last_sync_block` found no indexed file
    | S3UploadFailedError   // the transfer layer rejected an upload
    | ClientError           // any other failure reported by the object store or the role service
}
