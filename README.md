# Opaque-token sessions of the auth service, in Dafny

This project models the session core of a NestJS authentication backend. A login that
passes the credential check mints two random opaque tokens: an access token and a
refresh token. The session is written into a key-value store under two keys,
`{prefix}:at:{accessToken}` and `{prefix}:rt:{refreshToken}`. Each key holds the same
payload `{userId, email, accessToken, refreshToken}`, and each has its kind's
time-to-live: one hour for access, seven days for refresh. `{prefix}` is the
`REDIS_PREFIX` setting, or `local` when that is not set.

The operations are:

- **Logout** checks that the access entry belongs to the caller, then deletes both keys
  named in it.
- **Refresh** checks the refresh entry against the token and the user id, looks the user
  up again, and issues a new session. The old refresh entry is not deleted, and the old
  refresh token stays valid; `Sessions.RotationKeepsOldRefreshToken` proves this.
- **Withdrawal** is a logout followed by marking the account `WITHDRAWN`.

On protected routes a guard reads the `Authorization` header. It splits the header on
spaces, compares the scheme case-insensitively with `bearer`, and accepts the token only
when an access entry names that very token. The guard fails closed on store errors and
never writes.

A global exception filter turns every exception into a status and a body
`{statusCode, message, error, details?}`.

Modules, one file each:

- `Wrappers`: `Option`, `Result`.
- `Exceptions`: the HTTP exceptions the core raises and the statuses they carry.
- `TokenPolicy`: the token kinds, their time-to-live and key prefixes, and the key layout.
- `SecureToken`: the hex encoding of 32 random bytes.
- `Sessions`: the session keyspace as functions on maps, and the store invariant.
- `Redis`: a class over a map of entries and a map of time-to-live values.
- `Users`: a class over the user table.
- `Auth`: the `AuthService` class.
- `Guard`: header parsing and the `RedisAuthGuard` class.
- `HttpExceptionFilter`: the filter.
- `SessionFlow`: a login–guard–logout run that uses the service and the guard together.

The random source, the password-hash comparison and the configuration are given to the
service when it is built:

- The random source is a function from draw number to 32 bytes, with a draw counter.
- The password check is an uninterpreted `(plain, hash) -> bool`.
- The configuration is a map of settings.

Each store call may fail on its own. The store is given a function `reachable` that
says whether its i-th call reaches it, and it counts the calls made. A call that does
not reach the store rejects and changes nothing. The service passes that failure on as a
non-HTTP error, and the filter turns it into a 500. The guard treats it as an invalid
token.

The two writes of a session are separate calls, and so are the two deletions of a
logout. Either operation can therefore end half done:

- at issue, the access entry is written but its refresh entry is not, or the reverse;
- at logout, one of the two deletions goes through and the other does not.

Tokens are assumed unique: every proof that needs it takes `Fresh` (neither new key is in
use yet) as a hypothesis. This assumption is never proved.

The store invariant is `Sessions.Consistent`:

- every access entry belongs to a complete session, whose refresh entry holds the same
  payload;
- every refresh entry names its own token.

A refresh entry may outlive its access entry. The invariant breaks only where an access
entry loses its refresh entry:

- a session whose access write went through but whose refresh write failed
  (`Sessions.AccessOnlyWriteIsHalfASession`: the guard accepts that access token);
- a logout whose refresh deletion went through but whose access deletion failed.

`Auth.AuthService.SetToken` and `Auth.AuthService.Logout` state this as an
if-and-only-if: the store stays consistent exactly when this session's access entry, if
it is still there, is still paired. A logout whose access deletion went through but
whose refresh deletion failed answers 500, yet the refresh token is still accepted
(`Sessions.AccessOnlyDeleteLeavesRefreshToken`).

## Model

| member | source | states |
|---|---|---|
| `TokenPolicy.AllTokenTypes` | src/common/policy/token.ts:12 | there are exactly two token kinds, access and refresh |
| `TokenPolicy.TokenTypeCases` | src/common/policy/token.ts:12 | every token kind is access or refresh |
| `TokenPolicy.ExpiresIn` | src/common/policy/token.ts:2-9 | access lives one hour in milliseconds, refresh seven days, and refresh strictly outlives access |
| `TokenPolicy.RedisPrefix` | src/common/policy/token.ts:4-8 | each kind's key prefix is two characters long |
| `TokenPolicy.RedisPrefixInjective` | src/common/policy/token.ts:4-8 | the two kinds have different key prefixes (`at`, `rt`) |
| `TokenPolicy.Key` | src/auth/auth.service.ts:34-35 | a key is the environment, `:`, the kind prefix, `:`, the token, in that order and at those positions (the same template as src/auth/guards/redis-auth.guard.ts:57); `KeyInjective` and `KeyEnvironmentsSeparated` read the parts back |
| `TokenPolicy.AccessKeyNeverRefreshKey` | src/auth/auth.service.ts:34-35 | with the same environment prefix, an access key never equals a refresh key, whatever the tokens |
| `TokenPolicy.KeyInjective` | src/auth/auth.service.ts:34-35 | with the same environment prefix, equal keys have the same kind and the same token |
| `TokenPolicy.KeyEnvironmentsSeparated` | src/auth/auth.service.ts:24-35 | when environment prefixes contain no `:`, equal keys have the same environment, kind and token |
| `SecureToken.HexEncode` | src/auth/auth.service.ts:19-21 | the hex text has two lowercase hex digits per byte |
| `SecureToken.TokenOf` | src/auth/auth.service.ts:19-21 | a token minted from 32 bytes is 64 lowercase hex characters |
| `SecureToken.HexDecodeEncode` | src/auth/auth.service.ts:19-21 | decoding the hex text of any bytes gives those bytes back |
| `SecureToken.HexEncodeDecode` | src/auth/auth.service.ts:19-21 | any text that decodes is the hex encoding of what it decodes to |
| `SecureToken.TokenOfInjective` | src/auth/auth.service.ts:19-21 | different random draws give different tokens |
| `Sessions.IssuedSessionIsLive` | src/auth/auth.service.ts:26-48 | after the two writes both tokens are accepted, exactly the two keys are added, and every other entry keeps its value |
| `Sessions.RevokedSessionIsDead` | src/auth/auth.service.ts:159-170 | after deleting both keys of a session, neither its access token nor its refresh token is accepted for anyone |
| `Sessions.RevokeUndoesIssue` | src/auth/auth.service.ts:34-48 | deleting a freshly issued session restores the store exactly as it was |
| `Sessions.IssuePreservesConsistency` | src/auth/auth.service.ts:29-48 | issuing a session under unused keys keeps the store invariant |
| `Sessions.RevokePreservesConsistency` | src/auth/auth.service.ts:159-170 | deleting the session named by an access entry keeps the store invariant |
| `Sessions.RotationKeepsOldRefreshToken` | src/auth/auth.service.ts:109-140 | after a refresh issues a new session, the old refresh token is still accepted |
| `Sessions.WrittenConsistency` | src/auth/auth.service.ts:37-48 | after the writes of a fresh session, whichever of them reached the store, the invariant holds exactly when that session's access entry, if written, is paired |
| `Sessions.AccessOnlyWriteIsHalfASession` | src/auth/auth.service.ts:37-48 | when only the access write of a fresh session went through, the guard accepts its access token while no refresh entry exists for it |
| `Sessions.DeletedConsistency` | src/auth/auth.service.ts:167-170 | after the deletions of a session, whichever of them reached the store, the invariant holds exactly when the presented access entry, if still there, is paired |
| `Sessions.AccessOnlyDeleteLeavesRefreshToken` | src/auth/auth.service.ts:167-170 | when only the access deletion went through, the access token is rejected but the refresh token is still accepted for its owner |
| `Redis.RedisService.constructor` | src/libs/redis/redis.service.ts:5-7 | a new store is empty, has had no calls, and reaches each call as the given `reachable` says |
| `Redis.RedisService.Set` | src/libs/redis/redis.service.ts:9-11 | a write that reaches the store binds the key to the value and its time-to-live and nothing else; one that does not rejects and changes nothing; either way it is one call |
| `Redis.RedisService.Get` | src/libs/redis/redis.service.ts:13-15 | a read returns the stored value or nothing when the key is absent, rejects exactly when the call does not reach the store, and never writes |
| `Redis.RedisService.Del` | src/libs/redis/redis.service.ts:17-19 | a delete that reaches the store removes exactly that key; one that does not rejects and changes nothing |
| `Users.UsersService.GetByEmail` | src/users/users.service.ts:25-27 | returns a record exactly when one has this email, and then the stored record with that email |
| `Users.UsersService.GetById` | src/users/users.service.ts:29-31 | returns the record under this id, or nothing when there is none |
| `Users.UsersService.UpdateById` | src/auth/auth.service.ts:185-187 | sets the state of the record with this id and changes nothing else; no record, no change |
| `Auth.AuthService.GenerateSecureToken` | src/auth/auth.service.ts:19-21 | takes one draw and returns its 64-character lowercase hex token |
| `Auth.AuthService.SetToken` | src/auth/auth.service.ts:22-51 | takes two draws and makes two writes: the at-key and the rt-key under the configured environment prefix (`local` when unset), each holding the cross-referencing payload with its own time-to-live, each written exactly when its call reaches the store; returns the two stored tokens when both writes went through, both accepted afterwards, and otherwise the store failure; for fresh tokens the invariant survives exactly unless the access entry was written without its refresh entry |
| `Auth.AuthService.CheckToken` | src/auth/auth.service.ts:52-81 | one read; fails with the store failure when it does not reach the store, with the invalid-token 401 when the access key is absent or owned by another user, and otherwise returns the stored payload; never writes |
| `Auth.AuthService.ValidateUser` | src/auth/auth.service.ts:82-103 | succeeds exactly when some record has this email and a matching password hash, and then returns that record's id and email; unknown email and wrong password give the same 401 |
| `Auth.AuthService.RefreshToken` | src/auth/auth.service.ts:105-141 | fails with the invalid-refresh-token 401 when the rt-entry is absent or names another token or user, and with 404 when the user is gone; each of these failures, and a store failure of the read, leaves the store and the draws untouched; otherwise it issues a session exactly as `SetToken` for that user; it never deletes a key, so the old rt-entry is still there |
| `Auth.AuthService.Login` | src/auth/auth.service.ts:143-152 | bad credentials give the 401 and make no store call; valid ones issue a session as `SetToken` for that user, whose tokens are accepted when it succeeds |
| `Auth.AuthService.Logout` | src/auth/auth.service.ts:154-178 | reads the access entry; when the read fails, or the entry is absent or another user's, fails (store failure or 401) and writes nothing; otherwise deletes its at-key and the rt-key it names, each exactly when its call reaches the store, and answers success only when both went through, after which neither token is accepted; the invariant survives exactly unless the refresh entry was deleted from under the access entry |
| `Auth.AuthService.WithDraw` | src/auth/auth.service.ts:180-191 | behaves as `Logout` on the store; only when that succeeds is the user's state set to `WITHDRAWN`, and the answer is the withdrawal message; a failed logout leaves the user table untouched |
| `Guard.Split` | src/auth/guards/redis-auth.guard.ts:41 | splitting on a character always gives at least one field |
| `Guard.JoinSplit` | src/auth/guards/redis-auth.guard.ts:41 | joining the fields of a split with the separator gives the original text back |
| `Guard.SplitFieldsHaveNoSeparator` | src/auth/guards/redis-auth.guard.ts:41 | no field of a split contains the separator |
| `Guard.ExtractTokenFromHeader` | src/auth/guards/redis-auth.guard.ts:40-49 | the only rejection of header parsing is the missing-token 401 |
| `Guard.ExtractWellFormed` | src/auth/guards/redis-auth.guard.ts:40-49 | for `{scheme} {token}…` with a non-empty token, the result is the token when the scheme is bearer and nothing otherwise |
| `Guard.ExtractAcceptsOnlyWellFormed` | src/auth/guards/redis-auth.guard.ts:41-47 | every header the parser accepts has the form `{scheme} {token}…` with a non-empty token |
| `Guard.ExtractFailsIffMalformed` | src/auth/guards/redis-auth.guard.ts:41-47 | the missing-token 401 is raised exactly when the header is absent or has no non-empty second field |
| `Guard.BearerCaseInsensitive` | src/auth/guards/redis-auth.guard.ts:48 | the scheme is accepted exactly when it spells `bearer` in any mix of upper- and lower-case letters |
| `Guard.CapitalisedBearerAccepted` | src/auth/guards/redis-auth.guard.ts:48 | the scheme `Bearer` as clients send it is accepted |
| `Guard.ExtractBearerExample` | src/auth/guards/redis-auth.guard.spec.ts:108-118 | `Bearer test-token` yields `test-token` |
| `Guard.ExtractBasicExample` | src/auth/guards/redis-auth.guard.spec.ts:120-129 | `Basic test-token` yields no token |
| `Guard.ExtractSchemeOnlyExample` | src/auth/guards/redis-auth.guard.ts:41-47 | a header with a scheme and nothing after it is the missing-token 401 |
| `Guard.RedisAuthGuard.ValidateToken` | src/auth/guards/redis-auth.guard.ts:51-72 | one read under the configured environment prefix (`local` when unset); true exactly when that read reaches the store and the access entry under this token names this very token; a store failure gives false; never writes |
| `Guard.RedisAuthGuard.CanActivate` | src/auth/guards/redis-auth.guard.ts:20-38 | lets the request through exactly when a bearer token is extracted and validated; no token gives the missing-token 401 and no store call, a token that does not validate gives the invalid-token 401 |
| `HttpExceptionFilter.ForcedLabel` | src/common/filters/http-exception.filter.ts:42-50 | a label is forced exactly for 401, 403, 400 and 404 |
| `HttpExceptionFilter.Catch` | src/common/filters/http-exception.filter.ts:13-61 | a non-HTTP error gives 500 with the default message and error and no details; an HTTP exception keeps its status, its text or its message field (the default when that is empty or absent); the forced label overrides the error field for 401, 403, 400 and 404; details appear exactly when the response carries non-empty details; the body's status code is the status sent |
| `SessionFlow.BearerHeaderOfSecureToken` | src/auth/guards/redis-auth.guard.ts:40-49 | `Bearer {token}` yields the token for every token the generator can produce |
| `SessionFlow.LoginThenLogout` | src/auth/auth.controller.ts:39-70 | when the next seven store calls reach the store and the credentials are valid, the guard accepts the issued access token, logout succeeds, and afterwards the guard rejects that token with the invalid-token 401 |

## Left out

- Randomness: `crypto.randomBytes(32)` is the `entropy` function given at construction. That two draws give different tokens is assumed through `Fresh`, not proved.
- Password hashing: `bcrypt.compare` is the uninterpreted `passwordMatches`. Errors it throws are not modelled.
- JSON: the store holds `Payload` values instead of JSON text. Parse failures, and the guard's catch of them, are left out. Store failures are kept.
- Concurrency: each `Promise.all` pair of writes or deletes is two calls in a row, both issued, access first. Each may fail on its own, and the result is a failure when either fails. The two calls of a pair are never reordered, and interleaving with other requests is not modelled.
- Expiry: each key's time-to-live is recorded but no clock runs, so nothing expires.
- The store wrapper: the cache-manager and Keyv stack behind `RedisService` is a map. Its connection handling and module wiring are not part of this model.
- The user directory: `AuthService` calls `getByEmail`, `getById` and `updateById`, but `src/users/users.service.ts` defines `findByEmail` and `findById` and no `updateById`. The `User` entity also has no `state` column. The model follows what `AuthService` uses. A failing user lookup is not modelled.
- Lower-casing of the scheme covers ASCII letters only. That is enough to decide equality with `bearer`, but it is not all of `toLowerCase`.
- Exception responses: a validation message given as an array of strings is not modelled. Only a text response or an object with optional text fields is.
- The `{ data: … }` response wrapper around the service's results is dropped. Results are returned as they are.
- Framework glue is not part of this model: controllers and their throttling, DTOs, Nest modules, bootstrap, Swagger and the request logger. The controller reads the logout token from an `access-token` header; `SessionFlow.LoginThenLogout` passes it directly.
