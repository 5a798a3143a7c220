/**
 * The token policy: how long each kind of token lives in the store and the
 * kind prefix of its key, and the key scheme `{environment}:{kind}:{token}`.
 */
module TokenPolicy {

  /** The two token kinds, ACCESS_TOKEN and REFRESH_TOKEN of the policy object. */
  datatype TokenType = Access | Refresh

  const ACCESS_TOKEN_EXPIRES_IN: nat := 3600 * 1000
  const ACCESS_TOKEN_REDIS_PREFIX: string := "at"
  const REFRESH_TOKEN_EXPIRES_IN: nat := 604800 * 1000
  const REFRESH_TOKEN_REDIS_PREFIX: string := "rt"

  // Units in milliseconds, the unit the store's time-to-live is given in.
  const HOUR_MS: nat := 60 * 60 * 1000
  const DAY_MS: nat := 24 * HOUR_MS

  /** Every token kind there is, and there are exactly two. */
  function AllTokenTypes(): (kinds: set<TokenType>)
    ensures forall kind: TokenType :: kind in kinds
    ensures |kinds| == 2
  {
    var kinds := {Access, Refresh};
    assert forall kind: TokenType :: kind in kinds by {
      forall kind: TokenType ensures kind in kinds {
        TokenTypeCases(kind);
      }
    }
    kinds
  }

  lemma TokenTypeCases(kind: TokenType)
    ensures kind == Access || kind == Refresh
  {
  }

  /** Time-to-live of an entry of the given kind: one hour for access, seven days for refresh. */
  function ExpiresIn(kind: TokenType): (ms: nat)
    ensures kind == Access ==> ms == HOUR_MS
    ensures kind == Refresh ==> ms == 7 * DAY_MS
    ensures kind == Refresh ==> ms > ACCESS_TOKEN_EXPIRES_IN
  {
    match kind
    case Access => ACCESS_TOKEN_EXPIRES_IN
    case Refresh => REFRESH_TOKEN_EXPIRES_IN
  }

  function RedisPrefix(kind: TokenType): (p: string)
    ensures |p| == 2
  {
    match kind
    case Access => ACCESS_TOKEN_REDIS_PREFIX
    case Refresh => REFRESH_TOKEN_REDIS_PREFIX
  }

  /**
   * The store key of a token: `{environment}:{kind prefix}:{token}`. The contract says
   * where each part sits, so the environment, the kind and the token can be read back.
   */
  function Key(environment: string, kind: TokenType, token: string): (key: string)
    ensures |key| == |environment| + 4 + |token|
    ensures key[..|environment|] == environment
    ensures key[|environment|] == ':'
    ensures key[|environment| + 1..|environment| + 3] == RedisPrefix(kind)
    ensures key[|environment| + 3] == ':'
    ensures key[|environment| + 4..] == token
  {
    var key := environment + ":" + RedisPrefix(kind) + ":" + token;
    assert key == environment + ([':'] + RedisPrefix(kind) + [':'] + token);
    assert key[|environment|..] == [':'] + RedisPrefix(kind) + [':'] + token;
    key
  }

  /** The two kind prefixes differ, so the prefix determines the kind. */
  lemma RedisPrefixInjective(k1: TokenType, k2: TokenType)
    requires RedisPrefix(k1) == RedisPrefix(k2)
    ensures k1 == k2
  {
  }

  /** For one environment, an access key never equals a refresh key. */
  lemma {:induction false} AccessKeyNeverRefreshKey(environment: string, accessToken: string, refreshToken: string)
    ensures Key(environment, Access, accessToken) != Key(environment, Refresh, refreshToken)
  {
    var n := |environment|;
    assert Key(environment, Access, accessToken)[n + 1] == 'a';
    assert Key(environment, Refresh, refreshToken)[n + 1] == 'r';
  }

  /** Within one environment, a key determines its kind and its token. */
  lemma {:induction false} KeyInjective(environment: string, k1: TokenType, t1: string, k2: TokenType, t2: string)
    requires Key(environment, k1, t1) == Key(environment, k2, t2)
    ensures k1 == k2 && t1 == t2
  {
    RedisPrefixInjective(k1, k2);
  }

  /**
   * Environments whose prefixes contain no ':' never share a key: a key determines
   * its environment, kind and token.
   */
  lemma {:induction false} KeyEnvironmentsSeparated(e1: string, k1: TokenType, t1: string, e2: string, k2: TokenType, t2: string)
    requires ':' !in e1 && ':' !in e2
    requires Key(e1, k1, t1) == Key(e2, k2, t2)
    ensures e1 == e2 && k1 == k2 && t1 == t2
  {
    var key := Key(e1, k1, t1);
    assert e1 == key[..|e1|] == e2;
    KeyInjective(e1, k1, t1, k2, t2);
  }
}
