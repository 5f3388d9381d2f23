/**
  What every endpoint shares: the response statuses the core produces and
  the HTTP Basic credential check.
 */
module Requests {
  import opened Wrappers

  /** The statuses of the modelled endpoints, in HTTP terms 200, 201,
      204, 400, 401, 404, 409 and 500. `ServerError` stands for both the
      explicit 500 response and an exception Flask turns into a 500. */
  datatype Status = Ok | Created | NoContent | BadRequest | Unauthorized | NotFound | Conflict | ServerError

  /** The Basic credentials of a request, if it carries any. */
  datatype Credentials = Credentials(username: string, password: string)

  /** `authorized()`: the request carries credentials whose password is the
      server's key. */
  predicate Authorized(authKey: string, cred: Option<Credentials>) {
    cred.Some? && cred.value.password == authKey
  }

  /** Only the password is checked: the username is free-form, and a
      request without credentials is refused. */
  lemma AuthorizedIgnoresUsername(authKey: string, user1: string, user2: string, password: string)
    ensures Authorized(authKey, Some(Credentials(user1, password))) <==> password == authKey
    ensures Authorized(authKey, Some(Credentials(user1, password))) == Authorized(authKey, Some(Credentials(user2, password)))
    ensures !Authorized(authKey, None)
  {
  }
}
