/** Failure-carrying values shared by the certificate store and the CSV importer. */
module Wrappers {

  /** An optional value: a parsed path identifier, or the index a scan found. */
  datatype Option<+T> = None | Some(value: T)

  /** A value or the text of the error that prevented it. */
  datatype Result<+T> = Success(value: T) | Failure(error: string)
}
