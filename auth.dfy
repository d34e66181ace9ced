/** lib/atm/auth.ts: where a request's session token comes from, and the decisions taken on
    the Supabase auth service's replies (which are inputs here). The request's cookie jar is a
    class, since signing in and signing out rewrite it in place. */
module Auth {
  import opened Wrappers
  import opened Types
  import opened Users

  /** `TokenStore = "cookie" | "authorization-header"`; an omitted argument is `None`. */
  datatype TokenStore = Cookie | AuthorizationHeader

  // ----- The `/^bearer\s*(.+)$/i` match of the Authorization header -----

  /** The characters JavaScript's `.` does not match (without the `s` flag). */
  predicate IsLineTerminator(c: char) {
    c == '\n' || c == '\r' || c == '\U{2028}' || c == '\U{2029}'
  }

  /** JavaScript's `\s` class: white space and line terminators. */
  predicate IsWhitespace(c: char) {
    c == '\t' || c == '\n' || c == '\U{000B}' || c == '\U{000C}' || c == '\r' || c == ' ' ||
    c == '\U{00A0}' || c == '\U{1680}' || ('\U{2000}' <= c <= '\U{200A}') ||
    c == '\U{2028}' || c == '\U{2029}' || c == '\U{202F}' || c == '\U{205F}' ||
    c == '\U{3000}' || c == '\U{FEFF}'
  }

  /** ASCII case folding, which is all the `i` flag does for the letters of "bearer". */
  function LowerAscii(c: char): char {
    if 'A' <= c <= 'Z' then (c as int + 32) as char else c
  }

  predicate StartsWithBearer(header: string) {
    |header| >= 6 && forall i :: 0 <= i < 6 ==> LowerAscii(header[i]) == "bearer"[i]
  }

  predicate NoLineTerminator(s: string) {
    forall i :: 0 <= i < |s| ==> !IsLineTerminator(s[i])
  }

  predicate AllWhitespace(s: string) {
    forall i :: 0 <= i < |s| ==> IsWhitespace(s[i])
  }

  /** Length of the longest whitespace prefix: where the greedy `\s*` first stops. */
  function WhitespacePrefix(s: string): (n: nat)
    ensures n <= |s|
    ensures AllWhitespace(s[..n])
    ensures n < |s| ==> !IsWhitespace(s[n])
  {
    if |s| == 0 || !IsWhitespace(s[0]) then 0
    else
      var n := 1 + WhitespacePrefix(s[1..]);
      assert s[..n] == [s[0]] + s[1..][..n - 1];
      n
  }

  /** The backtracking search of `\s*(.+)$` over the text after "bearer": `\s*` takes the
      first `k` characters, giving them back one at a time, until `.+$` matches the rest, i.e.
      the rest is non-empty and free of line terminators. The capture is that rest. */
  function Backtrack(rest: string, k: nat): (r: Option<string>)
    requires k <= |rest|
    ensures r.Some? ==> |r.value| > 0 && NoLineTerminator(r.value)
    ensures r.Some? ==> |r.value| <= |rest| && r.value == rest[|rest| - |r.value|..]
    decreases k
  {
    if k < |rest| && NoLineTerminator(rest[k..]) then Some(rest[k..])
    else if k == 0 then None
    else Backtrack(rest, k - 1)
  }

  /** `authorizationHeader.match(/^bearer\s*(.+)$/i)?.[1]` */
  function MatchBearer(header: string): (r: Option<string>)
    ensures r.Some? ==> StartsWithBearer(header)
    ensures r.Some? ==> |r.value| > 0 && NoLineTerminator(r.value)
    ensures r.Some? ==> |r.value| <= |header| && r.value == header[|header| - |r.value|..]
  {
    if StartsWithBearer(header) then
      var rest := header[6..];
      var token := Backtrack(rest, WhitespacePrefix(rest));
      assert token.Some? ==> rest[|rest| - |token.value|..] == header[|header| - |token.value|..];
      token
    else None
  }

  /** Once the candidate rest from `k` contains a line terminator at `j`, so does every longer
      one, and backtracking further finds nothing. */
  lemma {:induction false} BacktrackBlocked(rest: string, k: nat, j: nat)
    requires k <= j < |rest| && IsLineTerminator(rest[j])
    ensures Backtrack(rest, k) == None
  {
    assert rest[k..][j - k] == rest[j];
    if k > 0 {
      BacktrackBlocked(rest, k - 1, j);
    }
  }

  /** Backtracking from a start inside the text captures the rest from there when it has no
      line terminator, and nothing otherwise. */
  lemma BacktrackFrom(rest: string, k: nat)
    requires k < |rest|
    ensures Backtrack(rest, k) == if NoLineTerminator(rest[k..]) then Some(rest[k..]) else None
  {
    if !NoLineTerminator(rest[k..]) {
      var j :| 0 <= j < |rest[k..]| && IsLineTerminator(rest[k..][j]);
      BacktrackBlocked(rest, k, k + j);
    }
  }

  /** Backtracking from the end of the text gives the last character back to `(.+)`, which
      captures it unless it is a line terminator. */
  lemma BacktrackFromEnd(rest: string)
    requires |rest| > 0
    ensures Backtrack(rest, |rest|) == if IsLineTerminator(rest[|rest| - 1]) then None else Some([rest[|rest| - 1]])
  {
    var last := |rest| - 1;
    var tail := rest[last..];
    assert tail == [rest[last]];
    assert NoLineTerminator(tail) <==> !IsLineTerminator(rest[last]) by {
      assert tail[0] == rest[last];
    }
    BacktrackFrom(rest, last);
    assert Backtrack(rest, |rest|) == Backtrack(rest, last);
  }

  /** What the match captures, in closed form: the text after "bearer" with its leading
      whitespace removed, when that is non-empty and has no line break; when the text after
      "bearer" is all whitespace, backtracking hands its last character to `(.+)` unless that
      is a line terminator. */
  lemma MatchBearerCases(header: string)
    requires StartsWithBearer(header)
    ensures var rest := header[6..]; var w := WhitespacePrefix(rest);
      && (w < |rest| ==>
            MatchBearer(header) == (if NoLineTerminator(rest[w..]) then Some(rest[w..]) else None))
      && (w == |rest| && |rest| > 0 ==>
            MatchBearer(header) ==
              (if IsLineTerminator(rest[|rest| - 1]) then None else Some([rest[|rest| - 1]])))
      && (|rest| == 0 ==> MatchBearer(header) == None)
  {
    var rest := header[6..];
    var w := WhitespacePrefix(rest);
    assert MatchBearer(header) == Backtrack(rest, w);
    if w < |rest| {
      BacktrackFrom(rest, w);
    } else if |rest| > 0 {
      BacktrackFromEnd(rest);
    }
  }

  /** "Bearer" is matched whatever its case and needs no separator after it. */
  lemma BearerWithoutSeparator(header: string, token: string)
    requires |token| > 0 && !IsWhitespace(token[0]) && NoLineTerminator(token)
    requires |header| == 6 && StartsWithBearer(header)
    ensures MatchBearer(header + token) == Some(token)
  {
    var h := header + token;
    assert h[..6] == header;
    assert StartsWithBearer(h);
    assert h[6..] == token;
    MatchBearerCases(h);
  }

  /** "bearer" alone captures nothing. */
  lemma BearerAloneIsNull()
    ensures MatchBearer("bearer") == None
  {
  }

  /** A blank remainder is not rejected: the capture is its last blank. Header values arrive
      with leading and trailing spaces and tabs trimmed, so this case is reached when the last
      blank is some other `\s` character, a no-break space (U+00A0) for instance. */
  lemma BearerBlankYieldsLastBlank(blanks: string)
    requires |blanks| >= 1 && AllWhitespace(blanks) && !IsLineTerminator(blanks[|blanks| - 1])
    ensures MatchBearer("Bearer" + blanks) == Some([blanks[|blanks| - 1]])
  {
    var h := "Bearer" + blanks;
    assert StartsWithBearer(h);
    assert h[6..] == blanks;
    MatchBearerCases(h);
  }

  // ----- getRequestSessionToken -----

  /** `getRequestSessionToken(store = "cookie")`, given the request's cookie jar and its
      Authorization header. An empty cookie value or capture reads as null (`|| null`). */
  function GetRequestSessionToken(store: Option<TokenStore>, cookies: map<string, string>, authorization: Option<string>): (r: Option<string>)
    ensures store.GetOr(Cookie) == Cookie ==>
      r == (if "token" in cookies && cookies["token"] != "" then Some(cookies["token"]) else None)
    ensures store == Some(AuthorizationHeader) ==>
      r == (if authorization.Some? then MatchBearer(authorization.value) else None)
    ensures r.Some? ==> r.value != ""
  {
    if store.GetOr(Cookie) == Cookie then
      if "token" in cookies && cookies["token"] != "" then Some(cookies["token"]) else None
    else if authorization.None? then None
    else
      var m := MatchBearer(authorization.value);
      if m.Some? && m.value != "" then m else None
  }

  /** A header token is non-empty and free of line breaks, and it is exactly what follows
      "bearer" once leading whitespace is dropped, unless that is nothing at all. */
  lemma {:induction false} HeaderTokenShape(authorization: string)
    ensures var r := GetRequestSessionToken(Some(AuthorizationHeader), map[], Some(authorization));
      && (r.Some? ==> StartsWithBearer(authorization) && NoLineTerminator(r.value))
      && (r.Some? && !AllWhitespace(authorization[6..]) ==>
            r.value == authorization[6..][WhitespacePrefix(authorization[6..])..])
  {
    if StartsWithBearer(authorization) {
      MatchBearerCases(authorization);
      var rest := authorization[6..];
      if WhitespacePrefix(rest) == |rest| {
        assert rest[..|rest|] == rest;
      }
    }
  }

  // ----- Sessions -----

  /** An error returned by the Supabase auth client. */
  datatype AuthFailure = AuthFailure(isAuthApiError: bool, status: int, message: string)

  /** `{ error, data: { user } }` as returned by `auth.getUser(token)`. */
  datatype AuthResponse = AuthResponse(error: Option<AuthFailure>, user: Option<SupabaseUser>)

  datatype AuthError =
    | AuthServiceFailed(failure: AuthFailure)
    | SessionNotFound
    | NotCookieStore
    | AnonymousSignInFailed
    | InvalidUserMetadata(schemaError: SchemaError)

  /** `createSessionFromSupabaseUser` */
  function CreateSession(token: string, su: SupabaseUser): (r: Result<Session, AuthError>)
    ensures r.Success? <==> ParseUserMetadata(su.userMetadata).Success?
    ensures r.Success? ==> r.value.id == token && r.value.user == TransformSupabaseUserToUser(su).value &&
                           r.value.user.id == su.id && r.value.user.email == su.email
    ensures r.Failure? ==> r.error == InvalidUserMetadata(ParseUserMetadata(su.userMetadata).error)
  {
    match TransformSupabaseUserToUser(su)
    case Failure(e) => Failure(InvalidUserMetadata(e))
    case Success(u) => Success(Session(token, u))
  }

  /** `findSession(store)`: `getUser` is the auth service, consulted only with a token. A 403
      from the auth API means "no session"; every other error is rethrown. */
  function FindSession(store: Option<TokenStore>, cookies: map<string, string>, authorization: Option<string>,
                       getUser: string -> AuthResponse): (r: Result<Option<Session>, AuthError>)
    ensures var token := GetRequestSessionToken(store, cookies, authorization);
      && (token.None? ==> r == Success(None))
      && (token.Some? && getUser(token.value).error.Some? ==>
            var e := getUser(token.value).error.value;
            r == if e.isAuthApiError && e.status == 403 then Success(None) else Failure(AuthServiceFailed(e)))
      && (token.Some? && getUser(token.value).error.None? && getUser(token.value).user.None? ==>
            r == Success(None))
      && (token.Some? && getUser(token.value).error.None? && getUser(token.value).user.Some? ==>
            var created := CreateSession(token.value, getUser(token.value).user.value);
            (created.Success? ==> r == Success(Some(created.value))) &&
            (created.Failure? ==> r == Failure(created.error)))
      && (r.Success? && r.value.Some? ==>
            r.value.value.id == token.value && getUser(token.value).error.None? &&
            getUser(token.value).user.Some? && r.value.value.user.id == getUser(token.value).user.value.id)
  {
    match GetRequestSessionToken(store, cookies, authorization)
    case None => Success(None)
    case Some(token) =>
      var response := getUser(token);
      if response.error.Some? then
        var e := response.error.value;
        if e.isAuthApiError && e.status == 403 then Success(None) else Failure(AuthServiceFailed(e))
      else if response.user.Some? then
        match CreateSession(token, response.user.value)
        case Failure(e) => Failure(e)
        case Success(s) => Success(Some(s))
      else Success(None)
  }

  /** Without a token the auth service's answer cannot matter. */
  lemma FindSessionWithoutToken(store: Option<TokenStore>, cookies: map<string, string>, authorization: Option<string>,
                                getUser1: string -> AuthResponse, getUser2: string -> AuthResponse)
    requires GetRequestSessionToken(store, cookies, authorization).None?
    ensures FindSession(store, cookies, authorization, getUser1) == FindSession(store, cookies, authorization, getUser2)
  {
  }

  /** `getSession(store)`: `SessionNotFoundError` exactly when `findSession` finds none. */
  function GetSession(store: Option<TokenStore>, cookies: map<string, string>, authorization: Option<string>,
                      getUser: string -> AuthResponse): (r: Result<Session, AuthError>)
    ensures r == Failure(SessionNotFound) <==> FindSession(store, cookies, authorization, getUser) == Success(None)
    ensures r.Success? <==> FindSession(store, cookies, authorization, getUser).Success? &&
                            FindSession(store, cookies, authorization, getUser).value.Some?
    ensures r.Success? ==> FindSession(store, cookies, authorization, getUser) == Success(Some(r.value))
  {
    match FindSession(store, cookies, authorization, getUser)
    case Failure(e) => Failure(e)
    case Success(None) => Failure(SessionNotFound)
    case Success(Some(s)) => Success(s)
  }

  /** `getApiSession` and `findApiSession`, which are the same call: `getSession` on the
      Authorization header. */
  function GetApiSession(cookies: map<string, string>, authorization: Option<string>,
                         getUser: string -> AuthResponse): (r: Result<Session, AuthError>)
    ensures authorization.None? ==> r == Failure(SessionNotFound)
    ensures r.Success? ==> authorization.Some? && StartsWithBearer(authorization.value) &&
                           MatchBearer(authorization.value) == Some(r.value.id)
  {
    GetSession(Some(AuthorizationHeader), cookies, authorization, getUser)
  }

  /** An API session is decided by the Authorization header alone: the request's cookies,
      the `token` cookie included, play no part. */
  lemma ApiSessionIgnoresCookies(cookies1: map<string, string>, cookies2: map<string, string>,
                                 authorization: Option<string>, getUser: string -> AuthResponse)
    ensures GetApiSession(cookies1, authorization, getUser) == GetApiSession(cookies2, authorization, getUser)
  {
  }

  /** The cookie jar of the current request (`cookies()` from next/headers). */
  class CookieStore {
    var jar: map<string, string>

    constructor (jar: map<string, string>)
      ensures this.jar == jar
    {
      this.jar := jar;
    }

    method Set(name: string, value: string)
      modifies this
      ensures jar == old(jar)[name := value]
    {
      jar := jar[name := value];
    }

    method Delete(name: string)
      modifies this
      ensures jar == old(jar) - {name}
    {
      jar := jar - {name};
    }
  }

  /** `destroySession(store)`: refuses anything but an explicit cookie store (an omitted
      argument included), then needs a session, signs it out (the sign-out reply is ignored, as
      in the source) and deletes the `token` cookie. */
  method DestroySession(store: Option<TokenStore>, cookieStore: CookieStore, authorization: Option<string>,
                        getUser: string -> AuthResponse) returns (r: Result<(), AuthError>)
    modifies cookieStore
    ensures store != Some(Cookie) ==> r == Failure(NotCookieStore) && cookieStore.jar == old(cookieStore.jar)
    ensures store == Some(Cookie) ==>
      var found := GetSession(Some(Cookie), old(cookieStore.jar), authorization, getUser);
      && (found.Failure? ==> r == Failure(found.error) && cookieStore.jar == old(cookieStore.jar))
      && (found.Success? ==> r == Success(()) && cookieStore.jar == old(cookieStore.jar) - {"token"})
  {
    if store != Some(Cookie) {
      return Failure(NotCookieStore);
    }
    var session := GetSession(Some(Cookie), cookieStore.jar, authorization, getUser);
    if session.Failure? {
      return Failure(session.error);
    }
    cookieStore.Delete("token");
    r := Success(());
  }

  /** `{ data: { session, user }, error }` as returned by `auth.signInAnonymously()`. */
  datatype SignInResponse = SignInResponse(error: Option<AuthFailure>, accessToken: Option<string>, user: Option<SupabaseUser>)

  /** `findOrCreateAnonymousCookieSession`: an existing cookie session is returned as is;
      otherwise an anonymous sign-in stores its access token in the `token` cookie before the
      session is built from it. */
  method FindOrCreateAnonymousCookieSession(cookieStore: CookieStore, getUser: string -> AuthResponse,
                                            signIn: SignInResponse) returns (r: Result<Session, AuthError>)
    modifies cookieStore
    ensures var found := FindSession(None, old(cookieStore.jar), None, getUser);
      && (found.Failure? ==> r == Failure(found.error) && cookieStore.jar == old(cookieStore.jar))
      && (found.Success? && found.value.Some? ==> r == Success(found.value.value) && cookieStore.jar == old(cookieStore.jar))
      && (found == Success(None) ==>
            if signIn.error.Some? then
              r == Failure(AuthServiceFailed(signIn.error.value)) && cookieStore.jar == old(cookieStore.jar)
            else if signIn.accessToken.None? || signIn.accessToken.value == "" || signIn.user.None? then
              r == Failure(AnonymousSignInFailed) && cookieStore.jar == old(cookieStore.jar)
            else
              cookieStore.jar == old(cookieStore.jar)["token" := signIn.accessToken.value] &&
              r == CreateSession(signIn.accessToken.value, signIn.user.value))
  {
    var found := FindSession(None, cookieStore.jar, None, getUser);
    if found.Failure? {
      return Failure(found.error);
    }
    if found.value.Some? {
      return Success(found.value.value);
    }
    if signIn.error.Some? {
      return Failure(AuthServiceFailed(signIn.error.value));
    }
    if signIn.accessToken.None? || signIn.accessToken.value == "" || signIn.user.None? {
      return Failure(AnonymousSignInFailed);
    }
    cookieStore.Set("token", signIn.accessToken.value);
    r := CreateSession(signIn.accessToken.value, signIn.user.value);
  }

  /** After an anonymous sign-in, the cookie branch of the token lookup finds the new token. */
  lemma SignedInCookieIsFound(jar: map<string, string>, accessToken: string)
    requires accessToken != ""
    ensures GetRequestSessionToken(None, jar["token" := accessToken], None) == Some(accessToken)
  {
  }
}
