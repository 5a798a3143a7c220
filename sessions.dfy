/**
 * The session keyspace of the store. A session is one payload written under two keys,
 * its access key and its refresh key; each entry names both tokens. These functions
 * and predicates say what issuing, revoking and validating do to the map of entries;
 * the store and the services are proved against them.
 */
module Sessions {
  import opened TokenPolicy

  /** The record stored under both keys of a session (JSON text in the store itself). */
  datatype Payload = Payload(userId: int, email: string, accessToken: string, refreshToken: string)

  /** The environment prefix: the REDIS_PREFIX setting, `local` when it is not set. */
  function ConfiguredPrefix(env: map<string, string>): (prefix: string)
    ensures "REDIS_PREFIX" !in env ==> prefix == "local"
    ensures "REDIS_PREFIX" in env ==> prefix == env["REDIS_PREFIX"]
  {
    if "REDIS_PREFIX" in env then env["REDIS_PREFIX"] else "local"
  }

  function AccessKey(prefix: string, q: Payload): string {
    Key(prefix, Access, q.accessToken)
  }

  function RefreshKey(prefix: string, q: Payload): string {
    Key(prefix, Refresh, q.refreshToken)
  }

  /** The entries after the two writes of a session. */
  function Issued<V>(m: map<string, V>, prefix: string, q: Payload, atValue: V, rtValue: V): map<string, V> {
    m[AccessKey(prefix, q) := atValue][RefreshKey(prefix, q) := rtValue]
  }

  /** The entries after the two deletions of a session. */
  function Revoked<V>(m: map<string, V>, prefix: string, q: Payload): map<string, V> {
    m - {AccessKey(prefix, q), RefreshKey(prefix, q)}
  }

  /**
   * The entries after the two writes of a session when each write may fail on its own:
   * `atOk` and `rtOk` say which of the access and refresh writes reached the store.
   */
  function Written<V>(m: map<string, V>, prefix: string, q: Payload, atValue: V, rtValue: V, atOk: bool, rtOk: bool): map<string, V> {
    if atOk && rtOk then Issued(m, prefix, q, atValue, rtValue)
    else if atOk then m[AccessKey(prefix, q) := atValue]
    else if rtOk then m[RefreshKey(prefix, q) := rtValue]
    else m
  }

  /** `Written` as the two writes perform it, one after the other. */
  lemma WrittenInSteps<V>(m: map<string, V>, prefix: string, q: Payload, atValue: V, rtValue: V, atOk: bool, rtOk: bool)
    ensures var m1 := if atOk then m[AccessKey(prefix, q) := atValue] else m;
      Written(m, prefix, q, atValue, rtValue, atOk, rtOk) == if rtOk then m1[RefreshKey(prefix, q) := rtValue] else m1
  {
  }

  /** `Deleted` as the two deletions perform it, one after the other. */
  lemma DeletedInSteps<V>(m: map<string, V>, prefix: string, q: Payload, atOk: bool, rtOk: bool)
    ensures var m1 := if atOk then m - {AccessKey(prefix, q)} else m;
      Deleted(m, prefix, q, atOk, rtOk) == if rtOk then m1 - {RefreshKey(prefix, q)} else m1
  {
  }

  /** The entries after the two deletions of a session when each may fail on its own. */
  function Deleted<V>(m: map<string, V>, prefix: string, q: Payload, atOk: bool, rtOk: bool): map<string, V> {
    if atOk && rtOk then Revoked(m, prefix, q)
    else if atOk then m - {AccessKey(prefix, q)}
    else if rtOk then m - {RefreshKey(prefix, q)}
    else m
  }

  /** Neither key of the session is in use yet: the assumption that fresh tokens are unique. */
  predicate Fresh<V>(m: map<string, V>, prefix: string, q: Payload) {
    AccessKey(prefix, q) !in m && RefreshKey(prefix, q) !in m
  }

  /** What the access guard accepts: an access entry whose payload names exactly this token. */
  predicate AccessTokenValid(m: map<string, Payload>, prefix: string, token: string) {
    var k := Key(prefix, Access, token);
    k in m && m[k].accessToken == token
  }

  /** What a refresh accepts: a refresh entry naming this token and this user. */
  predicate RefreshTokenMatches(m: map<string, Payload>, prefix: string, userId: int, token: string) {
    var k := Key(prefix, Refresh, token);
    k in m && m[k].refreshToken == token && m[k].userId == userId
  }

  /** An access entry under `token` whose session is complete: its refresh entry holds the same payload. */
  predicate AccessEntryPaired(m: map<string, Payload>, prefix: string, token: string)
    requires Key(prefix, Access, token) in m
  {
    var q := m[Key(prefix, Access, token)];
    q.accessToken == token && RefreshKey(prefix, q) in m && m[RefreshKey(prefix, q)] == q
  }

  /**
   * The store invariant for one environment: every access entry belongs to a complete
   * session, and every refresh entry names its own token. (A refresh entry may outlive
   * its access entry: it expires later, and a refresh leaves it in place.)
   */
  ghost predicate Consistent(m: map<string, Payload>, prefix: string) {
    && (forall t :: Key(prefix, Access, t) in m ==> AccessEntryPaired(m, prefix, t))
    && (forall t :: Key(prefix, Refresh, t) in m ==> m[Key(prefix, Refresh, t)].refreshToken == t)
  }

  /** Right after issuing, both tokens of the session are accepted, and no other key changed. */
  lemma IssuedSessionIsLive(m: map<string, Payload>, prefix: string, q: Payload)
    ensures AccessTokenValid(Issued(m, prefix, q, q, q), prefix, q.accessToken)
    ensures RefreshTokenMatches(Issued(m, prefix, q, q, q), prefix, q.userId, q.refreshToken)
    ensures Issued(m, prefix, q, q, q).Keys == m.Keys + {AccessKey(prefix, q), RefreshKey(prefix, q)}
    ensures forall k :: k in m && k != AccessKey(prefix, q) && k != RefreshKey(prefix, q) ==>
      Issued(m, prefix, q, q, q)[k] == m[k]
  {
    AccessKeyNeverRefreshKey(prefix, q.accessToken, q.refreshToken);
  }

  /**
   * Revoking the session found under an access token rejects that token at the guard and
   * at refresh, whatever the store held, and leaves every other key as it was.
   */
  lemma RevokedSessionIsDead(m: map<string, Payload>, prefix: string, token: string)
    requires Key(prefix, Access, token) in m
    ensures var q := m[Key(prefix, Access, token)];
      && !AccessTokenValid(Revoked(m, prefix, q), prefix, token)
      && RefreshKey(prefix, q) !in Revoked(m, prefix, q)
      && forall userId :: !RefreshTokenMatches(Revoked(m, prefix, q), prefix, userId, q.refreshToken)
  {
    var q := m[Key(prefix, Access, token)];
    AccessKeyNeverRefreshKey(prefix, token, q.refreshToken);
  }

  /** Revoking a freshly issued session restores the store exactly. */
  lemma RevokeUndoesIssue<V>(m: map<string, V>, prefix: string, q: Payload, atValue: V, rtValue: V)
    requires Fresh(m, prefix, q)
    ensures Revoked(Issued(m, prefix, q, atValue, rtValue), prefix, q) == m
  {
    var r := Revoked(Issued(m, prefix, q, atValue, rtValue), prefix, q);
    assert r.Keys == m.Keys;
  }

  /** Issuing a session under fresh keys keeps the store consistent. */
  lemma IssuePreservesConsistency(m: map<string, Payload>, prefix: string, q: Payload)
    requires Consistent(m, prefix) && Fresh(m, prefix, q)
    ensures Consistent(Issued(m, prefix, q, q, q), prefix)
  {
    var m' := Issued(m, prefix, q, q, q);
    AccessKeyNeverRefreshKey(prefix, q.accessToken, q.refreshToken);
    forall t | Key(prefix, Access, t) in m'
      ensures AccessEntryPaired(m', prefix, t)
    {
      AccessKeyNeverRefreshKey(prefix, t, q.refreshToken);
      if Key(prefix, Access, t) == AccessKey(prefix, q) {
        KeyInjective(prefix, Access, t, Access, q.accessToken);
      } else {
        assert AccessEntryPaired(m, prefix, t);
      }
    }
    forall t | Key(prefix, Refresh, t) in m'
      ensures m'[Key(prefix, Refresh, t)].refreshToken == t
    {
      AccessKeyNeverRefreshKey(prefix, q.accessToken, t);
      if Key(prefix, Refresh, t) == RefreshKey(prefix, q) {
        KeyInjective(prefix, Refresh, t, Refresh, q.refreshToken);
      }
    }
  }

  /** Revoking the session found under an access token keeps the store consistent. */
  lemma RevokePreservesConsistency(m: map<string, Payload>, prefix: string, token: string)
    requires Consistent(m, prefix) && Key(prefix, Access, token) in m
    ensures Consistent(Revoked(m, prefix, m[Key(prefix, Access, token)]), prefix)
  {
    var q := m[Key(prefix, Access, token)];
    assert AccessEntryPaired(m, prefix, token);
    var m' := Revoked(m, prefix, q);
    forall t | Key(prefix, Access, t) in m'
      ensures AccessEntryPaired(m', prefix, t)
    {
      assert AccessEntryPaired(m, prefix, t);
    }
  }

  /**
   * A refresh leaves the old refresh entry in place: the old refresh token is still
   * accepted after the new session is issued.
   */
  lemma RotationKeepsOldRefreshToken(m: map<string, Payload>, prefix: string, userId: int, oldToken: string, q: Payload)
    requires RefreshTokenMatches(m, prefix, userId, oldToken) && Fresh(m, prefix, q)
    ensures RefreshTokenMatches(Issued(m, prefix, q, q, q), prefix, userId, oldToken)
  {
  }

  /**
   * After the writes of a fresh session, whichever of them went through, the store is
   * consistent exactly when that session's access entry, if written, is paired: only an
   * access entry written without its refresh entry breaks the invariant.
   */
  lemma WrittenConsistency(m: map<string, Payload>, prefix: string, q: Payload, atOk: bool, rtOk: bool)
    requires Consistent(m, prefix) && Fresh(m, prefix, q)
    ensures var m' := Written(m, prefix, q, q, q, atOk, rtOk);
      Consistent(m', prefix) <==> (AccessKey(prefix, q) in m' ==> AccessEntryPaired(m', prefix, q.accessToken))
  {
    var m' := Written(m, prefix, q, q, q, atOk, rtOk);
    AccessKeyNeverRefreshKey(prefix, q.accessToken, q.refreshToken);
    if atOk && rtOk {
      IssuePreservesConsistency(m, prefix, q);
    } else if atOk {
      assert Key(prefix, Access, q.accessToken) in m';
      assert !AccessEntryPaired(m', prefix, q.accessToken);
    } else if rtOk {
      forall t | Key(prefix, Access, t) in m'
        ensures AccessEntryPaired(m', prefix, t)
      {
        AccessKeyNeverRefreshKey(prefix, t, q.refreshToken);
        assert AccessEntryPaired(m, prefix, t);
      }
      forall t | Key(prefix, Refresh, t) in m'
        ensures m'[Key(prefix, Refresh, t)].refreshToken == t
      {
        if Key(prefix, Refresh, t) == RefreshKey(prefix, q) {
          KeyInjective(prefix, Refresh, t, Refresh, q.refreshToken);
        }
      }
    }
  }

  /**
   * An access entry written without its refresh entry: the guard accepts the access
   * token, yet there is no refresh entry for it.
   */
  lemma AccessOnlyWriteIsHalfASession(m: map<string, Payload>, prefix: string, q: Payload)
    requires Fresh(m, prefix, q)
    ensures var m' := Written(m, prefix, q, q, q, true, false);
      && AccessTokenValid(m', prefix, q.accessToken)
      && forall id :: !RefreshTokenMatches(m', prefix, id, q.refreshToken)
  {
    AccessKeyNeverRefreshKey(prefix, q.accessToken, q.refreshToken);
  }

  /**
   * After the deletions of the session found under an access token, whichever of them
   * went through, the store is consistent exactly when that access entry, if it is
   * still there, is paired: only a refresh entry deleted from under its access entry
   * breaks the invariant.
   */
  lemma DeletedConsistency(m: map<string, Payload>, prefix: string, token: string, atOk: bool, rtOk: bool)
    requires Consistent(m, prefix) && Key(prefix, Access, token) in m
    ensures var m' := Deleted(m, prefix, m[Key(prefix, Access, token)], atOk, rtOk);
      Consistent(m', prefix) <==> (Key(prefix, Access, token) in m' ==> AccessEntryPaired(m', prefix, token))
  {
    var q := m[Key(prefix, Access, token)];
    assert AccessEntryPaired(m, prefix, token);
    var m' := Deleted(m, prefix, q, atOk, rtOk);
    AccessKeyNeverRefreshKey(prefix, token, q.refreshToken);
    if atOk && rtOk {
      RevokePreservesConsistency(m, prefix, token);
    } else if atOk {
      forall t | Key(prefix, Access, t) in m'
        ensures AccessEntryPaired(m', prefix, t)
      {
        assert AccessEntryPaired(m, prefix, t);
        AccessKeyNeverRefreshKey(prefix, token, m[Key(prefix, Access, t)].refreshToken);
      }
    } else if rtOk {
      assert Key(prefix, Access, token) in m';
      assert !AccessEntryPaired(m', prefix, token);
    }
  }

  /**
   * An access entry deleted while its refresh entry stays: the access token is rejected,
   * but the session's refresh token is still accepted for its owner.
   */
  lemma AccessOnlyDeleteLeavesRefreshToken(m: map<string, Payload>, prefix: string, token: string)
    requires Consistent(m, prefix) && Key(prefix, Access, token) in m
    ensures var q := m[Key(prefix, Access, token)];
      var m' := Deleted(m, prefix, q, true, false);
      && !AccessTokenValid(m', prefix, token)
      && RefreshTokenMatches(m', prefix, q.userId, q.refreshToken)
  {
    var q := m[Key(prefix, Access, token)];
    assert AccessEntryPaired(m, prefix, token);
    AccessKeyNeverRefreshKey(prefix, token, q.refreshToken);
  }
}
