/**
 * The access guard for protected routes. The bearer token is taken from the
 * authorization header (split on ' ', scheme compared case-insensitively with
 * `bearer`), then looked up under its access key; the guard only reads the store,
 * and any failure of the lookup counts as an invalid token.
 */
module Guard {
  import opened Wrappers
  import opened Exceptions
  import opened TokenPolicy
  import opened Sessions
  import opened Redis

  /** The fields of `s` between occurrences of `sep`, as string splitting on a one-character separator gives them. */
  function Split(s: string, sep: char): (fields: seq<string>)
    ensures |fields| >= 1
    decreases |s|
  {
    if |s| == 0 then [""]
    else
      var rest := Split(s[1..], sep);
      if s[0] == sep then [""] + rest else [[s[0]] + rest[0]] + rest[1..]
  }

  function Join(fields: seq<string>, sep: char): string
    requires |fields| >= 1
  {
    if |fields| == 1 then fields[0] else fields[0] + [sep] + Join(fields[1..], sep)
  }

  function LowerChar(c: char): char {
    if 'A' <= c <= 'Z' then (c as int - 'A' as int + 'a' as int) as char else c
  }

  /** Lower-casing; only ASCII letters matter for comparing with `bearer`. */
  function Lower(s: string): (r: string)
    ensures |r| == |s| && forall i :: 0 <= i < |s| ==> r[i] == LowerChar(s[i])
  {
    seq(|s|, i requires 0 <= i < |s| => LowerChar(s[i]))
  }

  predicate IsBearerScheme(scheme: string) {
    Lower(scheme) == "bearer"
  }

  /** The header `{scheme} {token}{rest}`. */
  function Authorization(scheme: string, token: string, rest: string): string {
    scheme + " " + token + rest
  }

  /** A header whose first two space-separated fields are `scheme` and a non-empty `token`. */
  predicate WellFormed(scheme: string, token: string, rest: string) {
    ' ' !in scheme && ' ' !in token && token != "" && (rest == "" || rest[0] == ' ')
  }

  /**
   * The token of the header: a failure when there is no header or no non-empty second
   * field, None when the scheme is not bearer, and the second field otherwise.
   */
  function ExtractTokenFromHeader(authorization: Option<string>): (r: Result<Option<string>, Exception>)
    ensures r.Failure? ==> r.error == MISSING_TOKEN
  {
    var fields := if authorization.Some? then Split(authorization.value, ' ') else [];
    if |fields| < 2 || fields[1] == "" then Failure(MISSING_TOKEN)
    else if IsBearerScheme(fields[0]) then Success(Some(fields[1]))
    else Success(None)
  }

  lemma {:induction false} JoinSplit(s: string, sep: char)
    ensures Join(Split(s, sep), sep) == s
  {
    if |s| > 0 {
      var rest := Split(s[1..], sep);
      JoinSplit(s[1..], sep);
      if s[0] == sep {
        assert ([""] + rest)[1..] == rest;
      } else {
        JoinPrepend([s[0]], rest, sep);
      }
      assert s == [s[0]] + s[1..];
    }
  }

  lemma JoinPrepend(a: string, fields: seq<string>, sep: char)
    requires |fields| >= 1
    ensures Join([a + fields[0]] + fields[1..], sep) == a + Join(fields, sep)
  {
    var f := [a + fields[0]] + fields[1..];
    if |fields| > 1 {
      assert f[1..] == fields[1..];
    }
  }

  lemma {:induction false} SplitFieldsHaveNoSeparator(s: string, sep: char)
    ensures forall i :: 0 <= i < |Split(s, sep)| ==> sep !in Split(s, sep)[i]
  {
    if |s| > 0 {
      SplitFieldsHaveNoSeparator(s[1..], sep);
    }
  }

  /** A leading run without the separator joins the first field. */
  lemma {:induction false} SplitPrefix(a: string, s: string, sep: char)
    requires sep !in a
    ensures Split(a + s, sep) == [a + Split(s, sep)[0]] + Split(s, sep)[1..]
  {
    var fields := Split(s, sep);
    if |a| == 0 {
      assert a + s == s && a + fields[0] == fields[0];
      assert [fields[0]] + fields[1..] == fields;
    } else {
      assert (a + s)[0] == a[0] && (a + s)[1..] == a[1..] + s;
      SplitPrefix(a[1..], s, sep);
      var rest := Split(a[1..] + s, sep);
      assert rest[0] == a[1..] + fields[0] && rest[1..] == fields[1..];
      assert [a[0]] + (a[1..] + fields[0]) == a + fields[0];
    }
  }

  lemma SplitAtSeparator(a: string, s: string, sep: char)
    requires sep !in a
    ensures Split(a + [sep] + s, sep) == [a] + Split(s, sep)
  {
    var t := [sep] + s;
    assert t[0] == sep && t[1..] == s;
    var fields := Split(t, sep);
    assert fields == [""] + Split(s, sep);
    assert fields[0] == "" && fields[1..] == Split(s, sep);
    SplitPrefix(a, t, sep);
    assert a + fields[0] == a;
    assert a + [sep] + s == a + t;
  }

  /** A well-formed header yields its token for the bearer scheme and nothing otherwise. */
  lemma ExtractWellFormed(scheme: string, token: string, rest: string)
    requires WellFormed(scheme, token, rest)
    ensures ExtractTokenFromHeader(Some(Authorization(scheme, token, rest)))
      == Success(if IsBearerScheme(scheme) then Some(token) else None)
  {
    var h := Authorization(scheme, token, rest);
    assert h == scheme + [' '] + (token + rest);
    SplitAtSeparator(scheme, token + rest, ' ');
    SplitPrefix(token, rest, ' ');
    var tail := Split(rest, ' ');
    if rest != "" {
      assert rest[0] == ' ';
      assert tail == [""] + Split(rest[1..], ' ');
    }
    assert tail[0] == "" && token + tail[0] == token;
    var fields := Split(h, ' ');
    assert fields == [scheme] + ([token] + tail[1..]);
    assert fields[0] == scheme && fields[1] == token;
  }

  /** Every header the extraction accepts is well formed. */
  lemma ExtractAcceptsOnlyWellFormed(h: string)
    requires ExtractTokenFromHeader(Some(h)).Success?
    ensures exists scheme, token, rest :: WellFormed(scheme, token, rest) && h == Authorization(scheme, token, rest)
  {
    var fields := Split(h, ' ');
    JoinSplit(h, ' ');
    SplitFieldsHaveNoSeparator(h, ' ');
    var rest := if |fields| == 2 then "" else " " + Join(fields[2..], ' ');
    assert fields[1..][1..] == fields[2..];
    assert h == Authorization(fields[0], fields[1], rest);
    assert WellFormed(fields[0], fields[1], rest);
  }

  /** The missing-token rejection happens exactly for headers that are not well formed. */
  lemma ExtractFailsIffMalformed(authorization: Option<string>)
    ensures ExtractTokenFromHeader(authorization).Failure? <==>
      (authorization.None? || forall scheme, token, rest :: WellFormed(scheme, token, rest) ==> authorization.value != Authorization(scheme, token, rest))
  {
    if authorization.Some? {
      if ExtractTokenFromHeader(authorization).Success? {
        ExtractAcceptsOnlyWellFormed(authorization.value);
      } else {
        forall scheme, token, rest | WellFormed(scheme, token, rest)
          ensures authorization.value != Authorization(scheme, token, rest)
        {
          if authorization.value == Authorization(scheme, token, rest) {
            ExtractWellFormed(scheme, token, rest);
          }
        }
      }
    }
  }

  /** The scheme comparison ignores the case of ASCII letters, nothing more. */
  lemma BearerCaseInsensitive(scheme: string)
    ensures IsBearerScheme(scheme) <==>
      |scheme| == 6 && forall i :: 0 <= i < 6 ==> scheme[i] == "bearer"[i] || scheme[i] == "BEARER"[i]
  {
    if |scheme| == 6 {
      if IsBearerScheme(scheme) {
        forall i | 0 <= i < 6
          ensures scheme[i] == "bearer"[i] || scheme[i] == "BEARER"[i]
        {
          assert LowerChar(scheme[i]) == "bearer"[i];
        }
      }
      if forall i :: 0 <= i < 6 ==> scheme[i] == "bearer"[i] || scheme[i] == "BEARER"[i] {
        assert Lower(scheme) == "bearer";
      }
    }
  }

  /** The capitalised scheme clients send is the bearer scheme. */
  lemma CapitalisedBearerAccepted()
    ensures IsBearerScheme("Bearer")
  {
    var l := Lower("Bearer");
    assert l[0] == LowerChar('B') == 'b';
    assert l == "bearer";
  }

  /** A bearer header yields its token (the guard's own test case). */
  lemma ExtractBearerExample()
    ensures ExtractTokenFromHeader(Some("Bearer test-token")) == Success(Some("test-token"))
  {
    assert "Bearer test-token" == Authorization("Bearer", "test-token", "");
    ExtractWellFormed("Bearer", "test-token", "");
    CapitalisedBearerAccepted();
  }

  /** Another scheme yields no token (the guard's own test case). */
  lemma ExtractBasicExample()
    ensures ExtractTokenFromHeader(Some("Basic test-token")) == Success(None)
  {
    assert "Basic test-token" == Authorization("Basic", "test-token", "");
    ExtractWellFormed("Basic", "test-token", "");
    BearerCaseInsensitive("Basic");
  }

  /** A scheme with no token after it is a missing token. */
  lemma ExtractSchemeOnlyExample()
    ensures ExtractTokenFromHeader(Some("Bearer")) == Failure(MISSING_TOKEN)
  {
    SplitPrefix("Bearer", "", ' ');
    assert "Bearer" + "" == "Bearer";
  }

  class RedisAuthGuard {
    const redis: RedisService<Payload>
    const env: map<string, string>

    constructor (redis: RedisService<Payload>, env: map<string, string>)
      ensures this.redis == redis && this.env == env
    {
      this.redis := redis;
      this.env := env;
    }

    /** True exactly when the store answers and holds an access entry naming this very token. */
    method ValidateToken(token: string) returns (valid: bool)
      modifies redis`calls
      ensures redis.calls == old(redis.calls) + 1
      ensures valid <==> redis.reachable(old(redis.calls)) && AccessTokenValid(redis.entries, ConfiguredPrefix(env), token)
      ensures "REDIS_PREFIX" !in env ==>
        (valid <==> redis.reachable(old(redis.calls)) && AccessTokenValid(redis.entries, "local", token))
    {
      var tokenKey := Key(ConfiguredPrefix(env), Access, token);
      var stored := redis.Get(tokenKey);
      match stored {
        case Failure(_) =>
          valid := false;
        case Success(None) =>
          valid := false;
        case Success(Some(parsedData)) =>
          valid := parsedData.accessToken == token;
      }
    }

    /** Lets the request through only with a bearer token the store accepts; otherwise a 401. */
    method CanActivate(authorization: Option<string>) returns (r: Result<bool, Exception>)
      modifies redis`calls
      ensures r.Success? ==> r.value
      ensures r.Failure? ==> r.error == MISSING_TOKEN || r.error == INVALID_TOKEN
      ensures (r.Failure? && r.error == MISSING_TOKEN) <==>
        (ExtractTokenFromHeader(authorization).Failure? || ExtractTokenFromHeader(authorization).value.None?)
      ensures r.Success? <==> exists token ::
        && ExtractTokenFromHeader(authorization) == Success(Some(token))
        && redis.reachable(old(redis.calls)) && AccessTokenValid(redis.entries, ConfiguredPrefix(env), token)
      ensures redis.calls == old(redis.calls) + (if r.Failure? && r.error == MISSING_TOKEN then 0 else 1)
    {
      var extracted :- ExtractTokenFromHeader(authorization);
      if extracted.None? {
        return Failure(MISSING_TOKEN);
      }
      var isValid := ValidateToken(extracted.value);
      if !isValid {
        return Failure(INVALID_TOKEN);
      }
      return Success(true);
    }
  }
}
