/** Absent values and the success/failure outcome of a value-object factory.
    A failure carries the message the source's `Error` is thrown with. */
module Wrappers {

  datatype Option<+T> = None | Some(value: T)

  datatype Result<+T> = Success(value: T) | Failure(error: string)
}
