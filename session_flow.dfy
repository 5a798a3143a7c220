/**
 * The service and the guard share one store and one configuration. A login issues a
 * bearer token the guard lets through; after logout with that token the guard rejects it.
 */
module SessionFlow {
  import opened Wrappers
  import opened Exceptions
  import opened SecureToken
  import opened Guard
  import opened Auth

  /** A generated token contains no space, so it survives the header split. */
  lemma SecureTokenHasNoSpace(token: string)
    requires IsSecureToken(token)
    ensures ' ' !in token
  {
  }

  /** The header a client sends with an issued access token is accepted by the extraction. */
  lemma BearerHeaderOfSecureToken(token: string)
    requires IsSecureToken(token)
    ensures ExtractTokenFromHeader(Some("Bearer " + token)) == Success(Some(token))
  {
    SecureTokenHasNoSpace(token);
    assert "Bearer " + token == Authorization("Bearer", token, "");
    ExtractWellFormed("Bearer", token, "");
    CapitalisedBearerAccepted();
  }

  /** Login, a guarded request, logout, and the same request again. */
  method LoginThenLogout(auth: AuthService, guard: RedisAuthGuard, email: string, password: string, id: int)
    returns (before: Result<bool, Exception>, loggedOut: Result<Ack, Exception>, after: Result<bool, Exception>)
    requires guard.redis == auth.redis && guard.env == auth.env
    requires auth.redis.Valid() && auth.users.Valid() && auth.redis.Answers(7)
    requires auth.Authenticates(email, password, id)
    modifies auth`draws, auth.redis
    ensures before == Success(true)
    ensures loggedOut == Success(Ack(true, LOGOUT_MESSAGE))
    ensures after == Failure(INVALID_TOKEN)
  {
    var pair := auth.Login(email, password);
    assert auth.Authenticates(email, password, id);
    var token := pair.value.accessToken;
    assert IsSecureToken(token);
    BearerHeaderOfSecureToken(token);
    before := guard.CanActivate(Some("Bearer " + token));
    loggedOut := auth.Logout(id, token);
    after := guard.CanActivate(Some("Bearer " + token));
  }
}
