/** Optional values and the outcomes a service operation can end in. */
module Wrappers {

  /** The result of a lookup that may find nothing (the store returns null). */
  datatype Option<+T> = None | Some(value: T)

  /** The business-rule failures the services raise: NotFoundException,
      ConflictException and ForbiddenException. */
  datatype Err = NotFound | Conflict | Forbidden

  /** A service call either returns a record or fails with one of the errors. */
  datatype Result<+T> = Ok(value: T) | Fail(err: Err)
}
