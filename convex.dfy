/** Values the Convex runtime hands to, and receives from, the handlers of
    convex/files.ts: the optional caller identity, and the errors a handler
    throws. */
module Convex {

  /** The result of `ctx.auth.getUserIdentity()`: absent, or present. */
  datatype Option<+T> = None | Some(value: T)

  /** What a handler throws. */
  datatype Error =
    | ConvexError(message: string)          // `throw new ConvexError(message)` in files.ts
    | UserNotFound(tokenIdentifier: string) // the user lookup found no record for the token

  /** The exact messages thrown by files.ts. */
  const LoginToUpload := "You must be logged in to upload file."
  const NoOrgAccess := "you do not have access to this org"
  const FileMissing := "This file does not exist"
  const NoDeleteAccess := "you do not have access to delete this file"

  /** A query result: a value, or the error the handler threw. */
  datatype Result<+T> = Success(value: T) | Failure(error: Error)

  /** A mutation result: the handler returned normally, or threw. */
  datatype Outcome = Pass | Fail(error: Error)
}
