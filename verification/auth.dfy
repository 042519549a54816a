/** Login with a Google ID token, the session cookie check and logout.

    The ID token's signature is never checked: `VerifyGoogleToken` only
    checks the token's shape, decodes its middle segment, and checks the
    audience and the expiry, so nothing here establishes that a token is
    authentic. Base64 decoding with `JSON.parse`, the session JWT's
    signing and verification, cookies, the environment and the clock are
    parameters. */
module Auth {
  import opened Common

  /** Seven days, the lifetime of a session. */
  const SESSION_TTL_SECONDS: int := 60 * 60 * 24 * 7

  /** How many times `c` occurs in `s`. */
  function Occurrences(s: string, c: char): nat {
    if s == [] then 0 else (if s[0] == c then 1 else 0) + Occurrences(s[1..], c)
  }

  /** `String.prototype.split` on a one-character separator. */
  function Split(s: string, sep: char): (parts: seq<string>)
    ensures |parts| == Occurrences(s, sep) + 1
    ensures forall i :: 0 <= i < |parts| ==> sep !in parts[i]
  {
    if s == [] then [""]
    else
      var rest := Split(s[1..], sep);
      if s[0] == sep then [""] + rest
      else
        assert forall i :: 1 <= i < |rest| ==> rest[i] == rest[1..][i - 1];
        [[s[0]] + rest[0]] + rest[1..]
  }

  /** `Array.prototype.join` with a one-character separator. */
  function JoinWith(parts: seq<string>, sep: char): string
    requires |parts| > 0
  {
    if |parts| == 1 then parts[0] else parts[0] + [sep] + JoinWith(parts[1..], sep)
  }

  /** Splitting loses nothing: joining the parts gives back the string. */
  lemma {:induction false} SplitJoin(s: string, sep: char)
    ensures JoinWith(Split(s, sep), sep) == s
  {
    if s != [] {
      SplitJoin(s[1..], sep);
      var rest := Split(s[1..], sep);
      if s[0] == sep {
        assert Split(s, sep)[1..] == rest;
      } else {
        var parts := Split(s, sep);
        if |rest| > 1 {
          assert parts[1..] == rest[1..];
          assert JoinWith(rest, sep) == rest[0] + [sep] + JoinWith(rest[1..], sep);
        }
        assert s == [s[0]] + s[1..];
      }
    }
  }

  /** A separator-free prefix followed by the separator becomes the first
      part. */
  lemma {:induction false} SplitPrefix(a: string, rest: string, sep: char)
    requires sep !in a
    ensures Split(a + [sep] + rest, sep) == [a] + Split(rest, sep)
  {
    var s := a + [sep] + rest;
    if a == [] {
      assert s[1..] == rest;
    } else {
      assert s[1..] == a[1..] + [sep] + rest;
      SplitPrefix(a[1..], rest, sep);
      assert [a[0]] + a[1..] == a;
    }
  }

  /** A string without the separator is a single part. */
  lemma {:induction false} SplitNoSeparator(a: string, sep: char)
    requires sep !in a
    ensures Split(a, sep) == [a]
  {
    if a != [] {
      SplitNoSeparator(a[1..], sep);
      assert [a[0]] + a[1..] == a;
    }
  }

  /** A JWT made of three dot-free segments splits back into them. */
  lemma SplitToken(header: string, payload: string, signature: string)
    requires '.' !in header && '.' !in payload && '.' !in signature
    ensures Split(header + "." + payload + "." + signature, '.') == [header, payload, signature]
  {
    assert header + "." + payload + "." + signature == header + ['.'] + (payload + ['.'] + signature);
    SplitPrefix(header, payload + ['.'] + signature, '.');
    SplitPrefix(payload, signature, '.');
    SplitNoSeparator(signature, '.');
  }

  /** Every `-` becomes `+` and every `_` becomes `/`: the two characters
      in which the base64url alphabet differs from standard base64. */
  function Base64UrlToBase64(s: string): (r: string)
    ensures |r| == |s|
    ensures forall i :: 0 <= i < |r| ==> r[i] != '-' && r[i] != '_'
    ensures forall i :: 0 <= i < |s| ==>
              r[i] == (if s[i] == '-' then '+' else if s[i] == '_' then '/' else s[i])
  {
    ReplaceAll(ReplaceAll(s, '-', '+'), '_', '/')
  }

  function ReplaceAll(s: string, from: char, to: char): (r: string)
    ensures |r| == |s|
    ensures forall i :: 0 <= i < |s| ==> r[i] == if s[i] == from then to else s[i]
  {
    seq(|s|, i requires 0 <= i < |s| => if s[i] == from then to else s[i])
  }

  /** The mapping loses nothing on real base64url text, which never holds
      `+` or `/`: mapping back recovers the input. */
  lemma Base64UrlRoundTrip(s: string)
    requires forall i :: 0 <= i < |s| ==> s[i] != '+' && s[i] != '/'
    ensures ReplaceAll(ReplaceAll(Base64UrlToBase64(s), '+', '-'), '/', '_') == s
  {
  }

  /** The fields of a decoded ID-token payload that the server reads.
      `aud` is `None` when absent. `exp` is the number JavaScript's `*`
      coerces the field to before comparing: `null`, `false`, `""` and `[]`
      become 0 and a numeric string becomes its number; `None` stands for
      `NaN`, which an absent field, a non-numeric string or an object
      produce. */
  datatype GooglePayload = GooglePayload(
    email: string, name: string, picture: string, sub: string, iss: string,
    aud: Option<string>, exp: Option<int>, iat: Option<int>)

  /** The audience check runs only for a configured, non-empty client id. */
  predicate AudienceAccepted(p: GooglePayload, clientId: Option<string>) {
    !(clientId.Some? && clientId.value != "") || p.aud == clientId
  }

  /** A token is expired when its expiry, in milliseconds, lies strictly
      before now. `NaN` is never smaller than anything, so an `exp` that
      coerces to `NaN` never expires. */
  predicate Expired(exp: Option<int>, nowMillis: int) {
    exp.Some? && exp.value * 1000 < nowMillis
  }

  /** `verifyGoogleToken`: `decode` is base64 decoding followed by
      `JSON.parse` (`None` when it throws). */
  function VerifyGoogleToken(
    token: string, clientId: Option<string>, nowMillis: int, decode: string -> Option<GooglePayload>
  ): (r: Option<GooglePayload>)
    ensures r.Some? <==>
              && Occurrences(token, '.') == 2
              && Split(token, '.')[1] != ""
              && decode(Base64UrlToBase64(Split(token, '.')[1])).Some?
              && AudienceAccepted(decode(Base64UrlToBase64(Split(token, '.')[1])).value, clientId)
              && !Expired(decode(Base64UrlToBase64(Split(token, '.')[1])).value.exp, nowMillis)
    ensures r.Some? ==> r == decode(Base64UrlToBase64(Split(token, '.')[1]))
  {
    var parts := Split(token, '.');
    if |parts| != 3 then None
    else if parts[1] == "" then None
    else match decode(Base64UrlToBase64(parts[1]))
      case None => None
      case Some(p) =>
        if !AudienceAccepted(p, clientId) then None
        else if Expired(p.exp, nowMillis) then None
        else Some(p)
  }

  /** The expiry check is strict. A well-shaped token whose audience is
      accepted and whose `exp` is the number `e` is accepted exactly up to
      and including the millisecond `e * 1000`. In particular an `exp` of
      `null`, which coerces to 0, is rejected at every positive time. */
  lemma ExpiryBoundary(
    header: string, payload: string, signature: string, clientId: Option<string>,
    decode: string -> Option<GooglePayload>, e: int, nowMillis: int)
    requires '.' !in header && '.' !in payload && '.' !in signature && payload != ""
    requires decode(Base64UrlToBase64(payload)).Some?
    requires decode(Base64UrlToBase64(payload)).value.exp == Some(e)
    requires AudienceAccepted(decode(Base64UrlToBase64(payload)).value, clientId)
    ensures VerifyGoogleToken(header + "." + payload + "." + signature, clientId, nowMillis, decode).Some?
            <==> nowMillis <= e * 1000
    ensures nowMillis <= e * 1000 ==>
              VerifyGoogleToken(header + "." + payload + "." + signature, clientId, nowMillis, decode)
              == decode(Base64UrlToBase64(payload))
  {
    SplitToken(header, payload, signature);
  }

  /** A well-shaped token whose audience is accepted and whose `exp`
      coerces to `NaN` is accepted at every time. */
  lemma MissingExpNeverExpires(
    header: string, payload: string, signature: string, clientId: Option<string>,
    decode: string -> Option<GooglePayload>, nowMillis: int)
    requires '.' !in header && '.' !in payload && '.' !in signature && payload != ""
    requires decode(Base64UrlToBase64(payload)).Some?
    requires decode(Base64UrlToBase64(payload)).value.exp.None?
    requires AudienceAccepted(decode(Base64UrlToBase64(payload)).value, clientId)
    ensures VerifyGoogleToken(header + "." + payload + "." + signature, clientId, nowMillis, decode)
            == decode(Base64UrlToBase64(payload))
  {
    SplitToken(header, payload, signature);
  }

  /** What a session records, and the claims of the session JWT. */
  datatype Session = Session(email: string, name: string, picture: string, exp: int)

  type Sessions = map<string, Session>

  datatype LoginReply = LoggedIn(email: string, name: string, picture: string) | TokenRequired | InvalidToken {
    function Status(): int {
      match this
      case LoggedIn(_, _, _) => 200
      case TokenRequired => 400
      case InvalidToken => 401
    }
  }

  /** `POST /google`. A missing or empty token answers 400 and an invalid
      one 401, with the sessions untouched. A valid one creates a session
      expiring seven days from now, stored under the signed session token;
      `sign` stands for signing the claims with the server's secret. */
  function Login(
    sessions: Sessions, token: Option<string>, clientId: Option<string>, nowMillis: nat,
    decode: string -> Option<GooglePayload>, sign: Session -> string
  ): (r: (LoginReply, Sessions))
    ensures r.0 == TokenRequired <==> token.None? || token.value == ""
    ensures r.0.LoggedIn? <==>
              token.Some? && token.value != "" && VerifyGoogleToken(token.value, clientId, nowMillis, decode).Some?
    ensures r.0.TokenRequired? || r.0.InvalidToken? ==> r.1 == sessions
    ensures r.0.InvalidToken? <==>
              token.Some? && token.value != "" && VerifyGoogleToken(token.value, clientId, nowMillis, decode).None?
    ensures r.0.LoggedIn? ==>
              var p := VerifyGoogleToken(token.value, clientId, nowMillis, decode).value;
              var s := Session(p.email, p.name, p.picture, nowMillis / 1000 + SESSION_TTL_SECONDS);
              && r.0 == LoggedIn(p.email, p.name, p.picture)
              && r.1.Keys == sessions.Keys + {sign(s)}
              && r.1[sign(s)] == s
              && s.exp * 1000 > nowMillis
              && forall t :: t in sessions && t != sign(s) ==> r.1[t] == sessions[t]
  {
    if token.None? || token.value == "" then (TokenRequired, sessions)
    else match VerifyGoogleToken(token.value, clientId, nowMillis, decode)
      case None => (InvalidToken, sessions)
      case Some(p) =>
        var s := Session(p.email, p.name, p.picture, nowMillis / 1000 + SESSION_TTL_SECONDS);
        (LoggedIn(p.email, p.name, p.picture), sessions[sign(s) := s])
  }

  /** The claims `verify` yields for a session JWT. `exp` is `None` when it
      is not a number. */
  datatype SessionClaims = SessionClaims(email: string, name: string, picture: string, exp: Option<int>)

  datatype MeReply = CurrentUser(email: string, name: string, picture: string) | NotAuthenticated | SessionExpired | InvalidSession {
    function Status(): int {
      match this
      case CurrentUser(_, _, _) => 200
      case _ => 401
    }
  }

  /** The clock check inside the JWT library's `verify`: it throws when
      the claims carry a non-zero `exp` that is not after the current
      second, `now / 1000` rounded down. */
  predicate LibraryExpired(exp: Option<int>, nowMillis: nat) {
    exp.Some? && exp.value != 0 && exp.value <= nowMillis / 1000
  }

  /** `GET /me`. `verify` checks the session JWT's signature against the
      server's secret and decodes its claims (`None` when it throws); the
      library's clock check, which follows, is `LibraryExpired`. A throw
      lands in the route's catch, which answers 401 `InvalidSession`. Only
      a token that passes both reaches the route's own test of `exp`. The
      session map is not consulted. */
  function Me(cookie: Option<string>, verify: string -> Option<SessionClaims>, nowMillis: nat): (r: MeReply)
    ensures cookie.None? || cookie.value == "" <==> r == NotAuthenticated
    ensures r.CurrentUser? <==>
              && cookie.Some? && cookie.value != ""
              && verify(cookie.value).Some?
              && verify(cookie.value).value.exp.Some?
              && var e := verify(cookie.value).value.exp.value;
                 e * 1000 > nowMillis || (e == 0 && nowMillis == 0)
    ensures r == SessionExpired <==>
              && cookie.Some? && cookie.value != ""
              && verify(cookie.value).Some?
              && (verify(cookie.value).value.exp.None? || (verify(cookie.value).value.exp == Some(0) && nowMillis > 0))
    ensures r.CurrentUser? ==>
              var c := verify(cookie.value).value;
              r == CurrentUser(c.email, c.name, c.picture)
  {
    if cookie.None? || cookie.value == "" then NotAuthenticated
    else match verify(cookie.value)
      case None => InvalidSession
      case Some(c) =>
        if LibraryExpired(c.exp, nowMillis) then InvalidSession
        else if c.exp.None? || c.exp.value * 1000 < nowMillis then SessionExpired
        else
          assert c.exp.value * 1000 > nowMillis || (c.exp.value == 0 && nowMillis == 0) by {
            ExpiryPastSecond(c.exp.value, nowMillis);
          }
          CurrentUser(c.email, c.name, c.picture)
  }

  /** A non-zero `e` after the current second lies after `now` in
      milliseconds, and one at or before it does not. */
  lemma ExpiryPastSecond(e: int, nowMillis: nat)
    ensures e > nowMillis / 1000 <==> e * 1000 > nowMillis
  {
    var q := nowMillis / 1000;
    assert q * 1000 <= nowMillis < q * 1000 + 1000;
    if e > q {
      assert e * 1000 >= q * 1000 + 1000;
    } else {
      assert e * 1000 <= q * 1000;
    }
  }

  /** `POST /logout`: forgets the cookie's session if there is one, and
      always reports success. */
  function Logout(sessions: Sessions, cookie: Option<string>): (r: (bool, Sessions))
    ensures r.0
    ensures cookie.Some? && cookie.value != "" ==> cookie.value !in r.1 && r.1.Keys == sessions.Keys - {cookie.value}
    ensures cookie.None? || cookie.value == "" || cookie.value !in sessions ==> r.1 == sessions
    ensures forall t :: t in r.1 ==> t in sessions && r.1[t] == sessions[t]
  {
    if cookie.Some? && cookie.value != "" then (true, sessions - {cookie.value}) else (true, sessions)
  }

  /** Logging out with the cookie a login set undoes that login, provided
      the (signed, hence non-empty) session token was new. */
  lemma LoginThenLogout(
    sessions: Sessions, token: Option<string>, clientId: Option<string>, nowMillis: nat,
    decode: string -> Option<GooglePayload>, sign: Session -> string)
    requires Login(sessions, token, clientId, nowMillis, decode, sign).0.LoggedIn?
    ensures var p := VerifyGoogleToken(token.value, clientId, nowMillis, decode).value;
            var st := sign(Session(p.email, p.name, p.picture, nowMillis / 1000 + SESSION_TTL_SECONDS));
            st != "" && st !in sessions ==>
              Logout(Login(sessions, token, clientId, nowMillis, decode, sign).1, Some(st)).1 == sessions
  {
    var p := VerifyGoogleToken(token.value, clientId, nowMillis, decode).value;
    var st := sign(Session(p.email, p.name, p.picture, nowMillis / 1000 + SESSION_TTL_SECONDS));
    var s := Session(p.email, p.name, p.picture, nowMillis / 1000 + SESSION_TTL_SECONDS);
    if st != "" && st !in sessions {
      var login := Login(sessions, token, clientId, nowMillis, decode, sign).1;
      assert login == sessions[st := s];
      assert login - {st} == sessions;
    }
  }

  /** The session cookie a login sets opens `/me` until the session's
      expiry: given a `verify` that gives back the claims `sign` signed, the
      cookie yields the logged-in user at every time before seven days after
      the login (the login's own time included); from then on the library's
      clock check rejects it and the route answers `InvalidSession`. */
  lemma MeAfterLogin(
    sessions: Sessions, token: Option<string>, clientId: Option<string>, nowMillis: nat,
    decode: string -> Option<GooglePayload>, sign: Session -> string,
    verify: string -> Option<SessionClaims>, t: nat)
    requires Login(sessions, token, clientId, nowMillis, decode, sign).0.LoggedIn?
    ensures var p := VerifyGoogleToken(token.value, clientId, nowMillis, decode).value;
            var s := Session(p.email, p.name, p.picture, nowMillis / 1000 + SESSION_TTL_SECONDS);
            sign(s) != "" && verify(sign(s)) == Some(SessionClaims(s.email, s.name, s.picture, Some(s.exp))) ==>
              && sign(s) in Login(sessions, token, clientId, nowMillis, decode, sign).1
              && Me(Some(sign(s)), verify, nowMillis) == CurrentUser(p.email, p.name, p.picture)
              && (t < s.exp * 1000 ==> Me(Some(sign(s)), verify, t) == CurrentUser(p.email, p.name, p.picture))
              && (t >= s.exp * 1000 ==> Me(Some(sign(s)), verify, t) == InvalidSession)
  {
    var p := VerifyGoogleToken(token.value, clientId, nowMillis, decode).value;
    var s := Session(p.email, p.name, p.picture, nowMillis / 1000 + SESSION_TTL_SECONDS);
    ExpiryPastSecond(s.exp, t);
  }
}
