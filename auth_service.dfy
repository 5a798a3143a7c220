/**
 * The authentication service: credential check, issuing an access/refresh pair into the
 * session store, checking an access token against its owner, refreshing, logout and
 * withdrawal. Its collaborators are the store, the user directory, the configuration
 * (for the environment prefix), the random source (one 32-byte draw per token) and the
 * password-hash comparison, all given at construction.
 */
module Auth {
  import opened Wrappers
  import opened Exceptions
  import opened TokenPolicy
  import opened SecureToken
  import opened Sessions
  import opened Redis
  import opened Users

  /** What the credential check returns and the issuer writes into the payload. */
  datatype Identity = Identity(id: int, email: string)

  datatype TokenPair = TokenPair(accessToken: string, refreshToken: string)

  /** The `{success, message}` acknowledgement of logout and withdrawal. */
  datatype Ack = Ack(success: bool, message: string)

  const LOGOUT_MESSAGE: string := "로그아웃 성공"
  const WITHDRAW_MESSAGE: string := "탈퇴 처리 완료"

  class AuthService {
    const users: UsersService
    const redis: RedisService<Payload>
    const env: map<string, string>
    /** The random source: the bytes of the i-th draw. */
    const entropy: nat -> Bytes32
    /** The salted-hash comparison of a plaintext password with a stored hash. */
    const passwordMatches: (string, string) -> bool
    /** How many draws have been taken from the random source. */
    var draws: nat

    constructor (users: UsersService, redis: RedisService<Payload>, env: map<string, string>,
                 entropy: nat -> Bytes32, passwordMatches: (string, string) -> bool)
      ensures this.users == users && this.redis == redis && this.env == env
      ensures this.entropy == entropy && this.passwordMatches == passwordMatches
      ensures draws == 0
    {
      this.users := users;
      this.redis := redis;
      this.env := env;
      this.entropy := entropy;
      this.passwordMatches := passwordMatches;
      draws := 0;
    }

    function Prefix(): string {
      ConfiguredPrefix(env)
    }

    /** The token minted from the i-th draw. */
    function Token(i: nat): string {
      TokenOf(entropy(i))
    }

    /** The session issued to `user` when its tokens come from draws i and i + 1. */
    function SessionFor(user: Identity, i: nat): Payload {
      Payload(user.id, user.email, Token(i), Token(i + 1))
    }

    /** The directory holds a record under `id` with this email whose hash matches the password. */
    ghost predicate Authenticates(email: string, password: string, id: int)
      reads users
    {
      id in users.records && users.records[id].email == email && passwordMatches(password, users.records[id].password)
    }

    /** Nothing in the store changed and no draw was taken. */
    twostate predicate Untouched()
      reads this, redis
    {
      redis.entries == old(redis.entries) && redis.ttls == old(redis.ttls) && draws == old(draws)
    }

    /**
     * What setToken(user) did when its two writes were store calls `first` and
     * `first + 1`: two draws, each entry written exactly when its write reached the
     * store, and the pair returned only when both did.
     */
    twostate predicate IssuedTo(user: Identity, first: nat, new r: Result<TokenPair, Exception>)
      reads this, redis
    {
      var q := SessionFor(user, old(draws));
      var atOk := redis.reachable(first);
      var rtOk := redis.reachable(first + 1);
      && draws == old(draws) + 2
      && redis.calls == first + 2
      && r == (if atOk && rtOk then Success(TokenPair(q.accessToken, q.refreshToken)) else Failure(STORE_UNAVAILABLE))
      && redis.entries == Written(old(redis.entries), Prefix(), q, q, q, atOk, rtOk)
      && redis.ttls == Written(old(redis.ttls), Prefix(), q, ExpiresIn(Access), ExpiresIn(Refresh), atOk, rtOk)
    }

    /** What logout(userId, accessToken) did to the store and what it answered. */
    twostate predicate LoggedOut(userId: int, accessToken: string, new r: Result<Ack, Exception>)
      reads this, redis
    {
      var k := Key(Prefix(), Access, accessToken);
      var c := old(redis.calls);
      if !redis.reachable(c) then
        r == Failure(STORE_UNAVAILABLE) && Untouched() && redis.calls == c + 1
      else if k !in old(redis.entries) || old(redis.entries)[k].userId != userId then
        r == Failure(INVALID_TOKEN) && Untouched() && redis.calls == c + 1
      else
        var q := old(redis.entries)[k];
        var atOk := redis.reachable(c + 1);
        var rtOk := redis.reachable(c + 2);
        && r == (if atOk && rtOk then Success(Ack(true, LOGOUT_MESSAGE)) else Failure(STORE_UNAVAILABLE))
        && redis.entries == Deleted(old(redis.entries), Prefix(), q, atOk, rtOk)
        && redis.ttls == Deleted(old(redis.ttls), Prefix(), q, atOk, rtOk)
        && redis.calls == c + 3
        && draws == old(draws)
    }

    method GenerateSecureToken() returns (token: string)
      modifies this`draws
      ensures token == Token(old(draws)) && draws == old(draws) + 1
      ensures IsSecureToken(token)
    {
      token := TokenOf(entropy(draws));
      draws := draws + 1;
    }

    /** Mints a pair and writes the session under both keys, each with its kind's time-to-live. */
    method SetToken(user: Identity) returns (r: Result<TokenPair, Exception>)
      requires redis.Valid()
      modifies this`draws, redis
      ensures redis.Valid()
      ensures IssuedTo(user, old(redis.calls), r)
      ensures r.Success? ==> AccessTokenValid(redis.entries, Prefix(), r.value.accessToken)
      ensures r.Success? ==> RefreshTokenMatches(redis.entries, Prefix(), user.id, r.value.refreshToken)
      ensures r.Success? && "REDIS_PREFIX" !in env ==> Key("local", Access, r.value.accessToken) in redis.entries
      ensures var q := SessionFor(user, old(draws));
        old(Consistent(redis.entries, Prefix())) && Fresh(old(redis.entries), Prefix(), q) ==>
          (Consistent(redis.entries, Prefix()) <==>
            (AccessKey(Prefix(), q) in redis.entries ==> AccessEntryPaired(redis.entries, Prefix(), q.accessToken)))
    {
      ghost var before, beforeTtls := redis.entries, redis.ttls;
      var accessToken := GenerateSecureToken();
      var refreshToken := GenerateSecureToken();
      var value := Payload(user.id, user.email, accessToken, refreshToken);
      var accessOk := redis.Set(Key(Prefix(), Access, accessToken), value, ExpiresIn(Access));
      ghost var middle, middleTtls := redis.entries, redis.ttls;
      var refreshOk := redis.Set(Key(Prefix(), Refresh, refreshToken), value, ExpiresIn(Refresh));
      r := if accessOk && refreshOk then Success(TokenPair(accessToken, refreshToken)) else Failure(STORE_UNAVAILABLE);
      WrittenInSteps(before, Prefix(), value, value, value, accessOk, refreshOk);
      WrittenInSteps(beforeTtls, Prefix(), value, ExpiresIn(Access), ExpiresIn(Refresh), accessOk, refreshOk);
      assert value == SessionFor(user, old(draws));
      assert accessOk == redis.reachable(old(redis.calls));
      assert refreshOk == redis.reachable(old(redis.calls) + 1);
      assert redis.entries == Written(before, Prefix(), value, value, value, accessOk, refreshOk);
      assert redis.ttls == Written(beforeTtls, Prefix(), value, ExpiresIn(Access), ExpiresIn(Refresh), accessOk, refreshOk);
      IssuedSessionIsLive(before, Prefix(), value);
      if Consistent(before, Prefix()) && Fresh(before, Prefix(), value) {
        WrittenConsistency(before, Prefix(), value, accessOk, refreshOk);
      }
    }

    /** The payload stored under the access token, provided it belongs to `userId`. */
    method CheckToken(accessToken: string, userId: int) returns (r: Result<Payload, Exception>)
      modifies redis`calls
      ensures redis.calls == old(redis.calls) + 1
      ensures var k := Key(Prefix(), Access, accessToken);
        var up := redis.reachable(old(redis.calls));
        && (!up ==> r == Failure(STORE_UNAVAILABLE))
        && (up && (k !in redis.entries || redis.entries[k].userId != userId) ==> r == Failure(INVALID_TOKEN))
        && (up && k in redis.entries && redis.entries[k].userId == userId ==> r == Success(redis.entries[k]))
    {
      var data :- redis.Get(Key(Prefix(), Access, accessToken));
      if data.None? {
        return Failure(INVALID_TOKEN);
      }
      if data.value.userId != userId {
        return Failure(INVALID_TOKEN);
      }
      return Success(data.value);
    }

    /** The credential check; unknown email and wrong password fail alike. */
    method ValidateUser(email: string, password: string) returns (r: Result<Identity, Exception>)
      requires users.Valid()
      ensures r.Failure? ==> r.error == INVALID_CREDENTIALS
      ensures r.Success? <==> exists id :: Authenticates(email, password, id)
      ensures r.Success? ==> r.value.email == email && Authenticates(email, password, r.value.id)
    {
      var user := users.GetByEmail(email);
      if user.None? {
        return Failure(INVALID_CREDENTIALS);
      }
      var found := user.value;
      var isPasswordValid := passwordMatches(password, found.password);
      if !isPasswordValid {
        return Failure(INVALID_CREDENTIALS);
      }
      assert Authenticates(email, password, found.id);
      return Success(Identity(found.id, found.email));
    }

    /** Issues a new pair for the holder of a refresh token; the old refresh entry stays. */
    method RefreshToken(userId: int, refreshToken: string) returns (r: Result<TokenPair, Exception>)
      requires redis.Valid()
      modifies this`draws, redis
      ensures redis.Valid()
      ensures var up := redis.reachable(old(redis.calls));
        var matches := RefreshTokenMatches(old(redis.entries), Prefix(), userId, refreshToken);
        && (!up ==> r == Failure(STORE_UNAVAILABLE) && Untouched())
        && (up && !matches ==> r == Failure(INVALID_REFRESH_TOKEN) && Untouched())
        && (up && matches && userId !in users.records ==> r == Failure(USER_NOT_FOUND) && Untouched())
        && (up && matches && userId in users.records ==>
              IssuedTo(Identity(users.records[userId].id, users.records[userId].email), old(redis.calls) + 1, r))
      ensures old(redis.entries).Keys <= redis.entries.Keys
      ensures r.Success? ==> Key(Prefix(), Refresh, refreshToken) in redis.entries
    {
      var k := Key(Prefix(), Refresh, refreshToken);
      var stored :- redis.Get(k);
      if stored.None? {
        return Failure(INVALID_REFRESH_TOKEN);
      }
      var parsedData := stored.value;
      if parsedData.refreshToken != refreshToken || parsedData.userId != userId {
        return Failure(INVALID_REFRESH_TOKEN);
      }
      var user := users.GetById(parsedData.userId);
      if user.None? {
        return Failure(USER_NOT_FOUND);
      }
      r := SetToken(Identity(user.value.id, user.value.email));
    }

    /** Credential check, then a fresh session; a failed check writes nothing. */
    method Login(email: string, password: string) returns (r: Result<TokenPair, Exception>)
      requires redis.Valid() && users.Valid()
      modifies this`draws, redis
      ensures redis.Valid()
      ensures (forall id :: !Authenticates(email, password, id)) ==>
        r == Failure(INVALID_CREDENTIALS) && Untouched() && redis.calls == old(redis.calls)
      ensures forall id :: Authenticates(email, password, id) ==> IssuedTo(Identity(id, email), old(redis.calls), r)
      ensures r.Success? ==> exists id ::
        && Authenticates(email, password, id)
        && AccessTokenValid(redis.entries, Prefix(), r.value.accessToken)
        && RefreshTokenMatches(redis.entries, Prefix(), id, r.value.refreshToken)
    {
      var user :- ValidateUser(email, password);
      r := SetToken(user);
      assert Authenticates(email, password, user.id);
    }

    /** Deletes both entries of the session the access token names, once it is shown to be `userId`'s. */
    method Logout(userId: int, accessToken: string) returns (r: Result<Ack, Exception>)
      requires redis.Valid()
      modifies redis
      ensures redis.Valid()
      ensures LoggedOut(userId, accessToken, r)
      ensures r.Success? ==> !AccessTokenValid(redis.entries, Prefix(), accessToken)
      ensures r.Success? ==> var q := old(redis.entries)[Key(Prefix(), Access, accessToken)];
        forall id :: !RefreshTokenMatches(redis.entries, Prefix(), id, q.refreshToken)
      ensures old(Consistent(redis.entries, Prefix())) ==>
        (Consistent(redis.entries, Prefix()) <==>
          (Key(Prefix(), Access, accessToken) in redis.entries ==> AccessEntryPaired(redis.entries, Prefix(), accessToken)))
    {
      ghost var before, beforeTtls := redis.entries, redis.ttls;
      var checked :- CheckToken(accessToken, userId);
      var accessTokenKey := Key(Prefix(), Access, checked.accessToken);
      var refreshTokenKey := Key(Prefix(), Refresh, checked.refreshToken);
      var accessOk := redis.Del(accessTokenKey);
      var refreshOk := redis.Del(refreshTokenKey);
      r := if accessOk && refreshOk then Success(Ack(true, LOGOUT_MESSAGE)) else Failure(STORE_UNAVAILABLE);
      DeletedInSteps(before, Prefix(), checked, accessOk, refreshOk);
      DeletedInSteps(beforeTtls, Prefix(), checked, accessOk, refreshOk);
      assert checked == before[Key(Prefix(), Access, accessToken)];
      assert accessOk == redis.reachable(old(redis.calls) + 1);
      assert refreshOk == redis.reachable(old(redis.calls) + 2);
      RevokedSessionIsDead(before, Prefix(), accessToken);
      if Consistent(before, Prefix()) {
        DeletedConsistency(before, Prefix(), accessToken, accessOk, refreshOk);
      }
    }

    /** Logout, and only once it succeeded, the account is marked withdrawn. */
    method WithDraw(userId: int, accessToken: string) returns (r: Result<Ack, Exception>)
      requires redis.Valid()
      modifies redis, users
      ensures redis.Valid()
      ensures LoggedOut(userId, accessToken, if r.Success? then Success(Ack(true, LOGOUT_MESSAGE)) else r)
      ensures r.Success? ==> r.value == Ack(true, WITHDRAW_MESSAGE)
      ensures r.Failure? ==> users.records == old(users.records)
      ensures r.Success? && userId in old(users.records) ==>
        users.records == old(users.records)[userId := old(users.records)[userId].(state := WITHDRAWN)]
      ensures r.Success? && userId !in old(users.records) ==> users.records == old(users.records)
    {
      var loggedOut :- Logout(userId, accessToken);
      users.UpdateById(userId, WITHDRAWN);
      return Success(Ack(true, WITHDRAW_MESSAGE));
    }
  }
}
