/** Values that stand for what the pages receive from outside: an optional
    value, the outcome of an awaited HTTP request, and the signed-in user that
    the authentication context holds. */
module Replies {

  datatype Option<T> = None | Some(value: T)

  /** The outcome of an awaited request: the response body, or an error that
      the handler's `catch` block swallowed after logging it. */
  datatype Reply<T> = Success(data: T) | Failure

  /** The signed-in user as the pages read it from the authentication context
      (the response body of register or login). */
  datatype SessionUser = SessionUser(email: string, role: string, token: string)
}
