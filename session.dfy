/**
 * The session layer of backend/src/server.ts: the two double-submit CSRF middlewares,
 * the cookie setters, `requireAuth` for HTTP routes and the Socket.IO handshake guard.
 * A request is the record the middlewares read (method, parsed cookies, headers); a
 * response is an object whose cookie list and headers the middlewares change in place.
 */
module Session {
  import opened Base
  import opened Text
  import opened Errors
  import opened Credentials
  import CookieHeader

  /** Request headers, looked up by lower-case name (`req.get` ignores case). */
  datatype Request = Request(verb: Option<string>, cookies: map<string, string>, headers: map<string, string>)

  datatype SameSite = Lax | Strict

  /** The options given to `res.cookie(name, value, options)`. */
  datatype CookieOptions = CookieOptions(httpOnly: bool, secure: bool, sameSite: SameSite, path: string, maxAgeMs: int)

  datatype SetCookie = SetCookie(name: string, value: string, options: CookieOptions)

  /** What a middleware hands to `next`: continue, or continue with an error. */
  datatype Next = Continue | Reject(error: AppError)

  const CsrfCookieName: string := "csrf_token"
  const AuthCookieName: string := "access_token"
  const CsrfHeaderName: string := "X-CSRF-Token"

  /** Seven days, the lifetime of the CSRF cookie. */
  const CsrfCookieMaxAgeMs: int := 1000 * 60 * 60 * 24 * 7

  /** Fifteen minutes, the default lifetime of the access-token cookie. */
  const AuthCookieMaxAgeMs: int := 1000 * 60 * 15

  /** The response: the Set-Cookie entries written so far and the headers set. */
  class Response {
    var setCookies: seq<SetCookie>
    var headers: map<string, string>

    constructor ()
      ensures setCookies == [] && headers == map[]
    {
      setCookies := [];
      headers := map[];
    }

    /** `res.cookie(name, value, options)` appends one Set-Cookie entry. */
    method Cookie(name: string, value: string, options: CookieOptions)
      modifies this
      ensures setCookies == old(setCookies) + [SetCookie(name, value, options)]
      ensures headers == old(headers)
    {
      setCookies := setCookies + [SetCookie(name, value, options)];
    }

    /** `res.setHeader(name, value)` replaces the header. */
    method SetHeader(name: string, value: string)
      modifies this
      ensures headers == old(headers)[name := value]
      ensures setCookies == old(setCookies)
    {
      headers := headers[name := value];
    }
  }

  /** ASCII upper-casing, which is what `toUpperCase` does to method names. */
  function ToUpperAscii(s: string): (r: string)
    ensures |r| == |s|
    ensures forall i :: 0 <= i < |s| ==> r[i] == if 'a' <= s[i] <= 'z' then (s[i] as int - 32) as char else s[i]
  {
    if s == [] then [] else [if 'a' <= s[0] <= 'z' then (s[0] as int - 32) as char else s[0]] + ToUpperAscii(s[1..])
  }

  /** `String(req.verb || 'GET').toUpperCase()`. */
  function NormalizedMethod(m: Option<string>): string {
    if m.None? || m.value == "" then "GET" else ToUpperAscii(m.value)
  }

  /** The two middlewares' view of a method: safe, mutating, or neither (e.g. TRACE). */
  datatype MethodClass = Safe | Mutating | Neither

  function Classify(m: Option<string>): (c: MethodClass)
    ensures c == Safe <==> NormalizedMethod(m) in {"GET", "HEAD", "OPTIONS"}
    ensures c == Mutating <==> NormalizedMethod(m) in {"POST", "PUT", "PATCH", "DELETE"}
  {
    var u := NormalizedMethod(m);
    if u == "GET" || u == "HEAD" || u == "OPTIONS" then Safe
    else if u == "POST" || u == "PUT" || u == "PATCH" || u == "DELETE" then Mutating
    else Neither
  }

  /** A cookie or header value as JavaScript truthiness sees it: present and non-empty. */
  function Truthy(m: map<string, string>, k: string): (r: Option<string>)
    ensures r.Some? <==> k in m && m[k] != ""
    ensures r.Some? ==> r.value == m[k]
  {
    if k in m && m[k] != "" then Some(m[k]) else None
  }

  /** `Boolean(req.cookies?.access_token)`: a session is a present cookie, never checked here. */
  predicate HasSession(req: Request) {
    Truthy(req.cookies, AuthCookieName).Some?
  }

  /** The options `setCsrfCookie` uses: readable by scripts, SameSite strict, seven days. */
  function CsrfCookieOptions(isProd: bool): CookieOptions {
    CookieOptions(false, isProd, Strict, "/", CsrfCookieMaxAgeMs)
  }

  /** The options `setAuthCookie` uses: HTTP-only, SameSite lax. */
  function AuthCookieOptions(isProd: bool, maxAgeMs: int): CookieOptions {
    CookieOptions(true, isProd, Lax, "/", maxAgeMs)
  }

  /**
   * The token `ensureCsrfToken` issues: on a safe request with a session, the existing
   * `csrf_token` cookie if it is non-empty, otherwise the freshly generated one; on
   * every other request none.
   */
  function CsrfTokenToIssue(req: Request, generated: string): (r: Option<string>)
    ensures r.Some? <==> Classify(req.verb) == Safe && HasSession(req)
    ensures r.Some? && CsrfCookieName in req.cookies && req.cookies[CsrfCookieName] != "" ==> r.value == req.cookies[CsrfCookieName]
    ensures r.Some? && !(CsrfCookieName in req.cookies && req.cookies[CsrfCookieName] != "") ==> r.value == generated
  {
    if Classify(req.verb) == Safe && HasSession(req) then
      match Truthy(req.cookies, CsrfCookieName)
      case Some(t) => Some(t)
      case None => Some(generated)
    else None
  }

  /** `setCsrfCookie(res, token)`: the same value goes into the cookie and the response header. */
  method SetCsrfCookie(res: Response, token: string, isProd: bool)
    modifies res
    ensures res.setCookies == old(res.setCookies) + [SetCookie(CsrfCookieName, token, CsrfCookieOptions(isProd))]
    ensures res.headers == old(res.headers)[CsrfHeaderName := token]
  {
    res.Cookie(CsrfCookieName, token, CsrfCookieOptions(isProd));
    res.SetHeader(CsrfHeaderName, token);
  }

  /**
   * `ensureCsrfToken(req, res, next)`. `generated` stands for `generateCsrfToken()`, 32 random
   * bytes in hex; the middleware always continues.
   */
  method EnsureCsrfToken(req: Request, res: Response, generated: string, isProd: bool) returns (next: Next)
    modifies res
    ensures next == Continue
    ensures CsrfTokenToIssue(req, generated).None? ==> res.setCookies == old(res.setCookies) && res.headers == old(res.headers)
    ensures CsrfTokenToIssue(req, generated).Some? ==>
      var t := CsrfTokenToIssue(req, generated).value;
      res.setCookies == old(res.setCookies) + [SetCookie(CsrfCookieName, t, CsrfCookieOptions(isProd))]
      && res.headers == old(res.headers)[CsrfHeaderName := t]
  {
    var verb := NormalizedMethod(req.verb);
    var isSafe := verb == "GET" || verb == "HEAD" || verb == "OPTIONS";
    var hasSession := AuthCookieName in req.cookies && req.cookies[AuthCookieName] != "";
    if isSafe && hasSession {
      var token := if CsrfCookieName in req.cookies then req.cookies[CsrfCookieName] else "";
      if token == "" {
        token := generated;
      }
      SetCsrfCookie(res, token, isProd);
    }
    return Continue;
  }

  /** `setAuthCookie(res, token, { maxAgeMs })`, fifteen minutes unless told otherwise. */
  method SetAuthCookie(res: Response, token: string, isProd: bool, maxAgeMs: int := AuthCookieMaxAgeMs)
    modifies res
    ensures res.setCookies == old(res.setCookies) + [SetCookie(AuthCookieName, token, AuthCookieOptions(isProd, maxAgeMs))]
    ensures res.headers == old(res.headers)
  {
    res.Cookie(AuthCookieName, token, AuthCookieOptions(isProd, maxAgeMs));
  }

  /** The error every CSRF failure becomes. */
  function CsrfInvalid(): (e: AppError)
    ensures e.status == 403 && e.code == "CSRF_INVALID" && e.message == "Invalid CSRF token"
  {
    Forbidden("CSRF_INVALID", "Invalid CSRF token")
  }

  /**
   * `requireCsrf(req, res, next)`: only a mutating request with a session is stopped, and
   * then always with CSRF_INVALID.
   */
  function RequireCsrf(req: Request): (n: Next)
    ensures n.Reject? ==> n == Reject(CsrfInvalid()) && Classify(req.verb) == Mutating && HasSession(req)
  {
    var isMutating := Classify(req.verb) == Mutating;
    if !isMutating || !HasSession(req) then Continue
    else
      var cookieTok := Truthy(req.cookies, CsrfCookieName);
      var headerTok := Truthy(req.headers, "x-csrf-token");
      if cookieTok.None? || headerTok.None? || cookieTok.value != headerTok.value then Reject(CsrfInvalid())
      else Continue
  }

  /**
   * The gate, stated both ways: only a mutating request with a session can be rejected, and
   * such a request passes exactly when the cookie and the header are non-empty and equal.
   */
  lemma CsrfGate(req: Request)
    ensures RequireCsrf(req).Reject? ==> RequireCsrf(req) == Reject(CsrfInvalid())
    ensures Classify(req.verb) != Mutating || !HasSession(req) ==> RequireCsrf(req) == Continue
    ensures Classify(req.verb) == Mutating && HasSession(req) ==>
      (RequireCsrf(req) == Continue <==>
        && CsrfCookieName in req.cookies && "x-csrf-token" in req.headers
        && req.cookies[CsrfCookieName] != ""
        && req.cookies[CsrfCookieName] == req.headers["x-csrf-token"])
  {
  }

  /**
   * The double submit completes: a client that read the token issued on a safe request and
   * sends it back both as the `csrf_token` cookie and as the `X-CSRF-Token` header passes
   * the gate on its next mutating request, whatever else that request carries.
   */
  lemma IssuedTokenPassesGate(get: Request, generated: string, post: Request)
    requires CsrfTokenToIssue(get, generated).Some? && generated != ""
    requires Classify(post.verb) == Mutating
    requires CsrfCookieName in post.cookies && post.cookies[CsrfCookieName] == CsrfTokenToIssue(get, generated).value
    requires "x-csrf-token" in post.headers && post.headers["x-csrf-token"] == CsrfTokenToIssue(get, generated).value
    ensures RequireCsrf(post) == Continue
  {
  }

  /** `requireAuth`: a missing or empty cookie, or a token that does not verify, is a 401. */
  function RequireAuth(req: Request, c: Codec, now: int): (r: Result<Identity, AppError>)
    ensures r.Failure? ==> r.error == Unauthorized()
    ensures r.Failure? <==> !HasSession(req) || Verify(c, req.cookies[AuthCookieName], now).Failure?
    ensures r.Success? ==> r.value == IdentityOf(Verify(c, req.cookies[AuthCookieName], now).value)
  {
    match Truthy(req.cookies, AuthCookieName)
    case None => Failure(Unauthorized())
    case Some(token) =>
      match Verify(c, token, now)
      case Failure(_) => Failure(Unauthorized())
      case Success(claims) => Success(IdentityOf(claims))
  }

  /** The literal error the handshake guard fails with. */
  const HandshakeError: string := "Unauthorized"

  /**
   * The `io.use` guard: read `access_token` through `parseCookie`, verify it, attach
   * `{ userId: Number(sub), username }`. Any throw, from decoding or verifying, is the
   * same `Unauthorized` error.
   */
  function HandshakeGuard(cookieHeader: Option<string>, c: Codec, now: int): (r: Result<Identity, string>)
    ensures r.Failure? ==> r.error == HandshakeError
    ensures r.Success? <==>
      var jar := CookieHeader.Cookies(cookieHeader);
      jar.Some? && Truthy(jar.value, AuthCookieName).Some? && Verify(c, jar.value[AuthCookieName], now).Success?
    ensures r.Success? ==>
      r.value == IdentityOf(Verify(c, CookieHeader.Cookies(cookieHeader).value[AuthCookieName], now).value)
  {
    match CookieHeader.Cookies(cookieHeader)
    case None => Failure(HandshakeError)
    case Some(jar) =>
      match Truthy(jar, AuthCookieName)
      case None => Failure(HandshakeError)
      case Some(token) =>
        match Verify(c, token, now)
        case Failure(_) => Failure(HandshakeError)
        case Success(claims) => Success(IdentityOf(claims))
  }

  /**
   * The chain in front of an authenticated route: CSRF enforcement, then `requireAuth`.
   * (Issuance only writes to the response and never stops a request.)
   */
  function GuardedRoute(req: Request, c: Codec, now: int): (r: Result<Identity, AppError>)
    ensures r.Failure? ==> r.error == CsrfInvalid() || r.error == Unauthorized()
    ensures r.Success? <==>
      RequireCsrf(req).Continue? && HasSession(req) && Verify(c, req.cookies[AuthCookieName], now).Success?
    ensures r.Success? ==> r.value == IdentityOf(Verify(c, req.cookies[AuthCookieName], now).value)
  {
    match RequireCsrf(req)
    case Reject(e) => Failure(e)
    case Continue => RequireAuth(req, c, now)
  }

  /** A request without an access-token cookie is a 401, whatever CSRF headers it sends. */
  lemma NoSessionIsUnauthorized(req: Request, c: Codec, now: int)
    requires !HasSession(req)
    ensures GuardedRoute(req, c, now) == Failure(Unauthorized())
  {
  }

  /**
   * A mutating request with a session cookie that fails the CSRF check is a 403 even when
   * its token would not verify: the CSRF gate runs first and does not look at the token.
   */
  lemma CsrfCheckedBeforeToken(req: Request, c: Codec, now: int)
    requires Classify(req.verb) == Mutating && HasSession(req)
    requires !(CsrfCookieName in req.cookies && "x-csrf-token" in req.headers
               && req.cookies[CsrfCookieName] != "" && req.cookies[CsrfCookieName] == req.headers["x-csrf-token"])
    ensures GuardedRoute(req, c, now) == Failure(CsrfInvalid())
  {
  }

  /**
   * Login sets `access_token` to a freshly signed token; a later request that carries it is
   * authenticated as that user until fifteen minutes have passed, and unauthorized after.
   */
  lemma LoginThenRequireAuth(c: Codec, id: int, username: string, t0: int, req: Request, t: int)
    requires Sound(c)
    requires AuthCookieName in req.cookies && req.cookies[AuthCookieName] == Sign(c, id, username, t0)
    ensures t < t0 + LifetimeSeconds ==> RequireAuth(req, c, t) == Success(Identity(id, username))
    ensures t >= t0 + LifetimeSeconds ==> RequireAuth(req, c, t) == Failure(Unauthorized())
  {
    SignThenVerify(c, id, username, t0, t);
  }

  /**
   * The handshake with the cookie header a browser sends after login, `access_token=<jwt>`,
   * accepts the connection as that user until the token expires and refuses it after.
   */
  lemma LoginThenHandshake(c: Codec, id: int, username: string, t0: int, t: int)
    requires Sound(c)
    ensures var header := Some(AuthCookieName + "=" + Sign(c, id, username, t0));
      && (t < t0 + LifetimeSeconds ==> HandshakeGuard(header, c, t) == Success(Identity(id, username)))
      && (t >= t0 + LifetimeSeconds ==> HandshakeGuard(header, c, t) == Failure(HandshakeError))
  {
    var token := Sign(c, id, username, t0);
    SignThenVerify(c, id, username, t0, t);
    TokenCookieParses(token);
    GuardOfJar(Some(AuthCookieName + "=" + token), map[AuthCookieName := token], c, t);
  }

  /** The guard once the header has parsed: it accepts exactly what the token verifies to. */
  lemma GuardOfJar(header: Option<string>, jar: map<string, string>, c: Codec, t: int)
    requires CookieHeader.Cookies(header) == Some(jar) && AuthCookieName in jar && jar[AuthCookieName] != ""
    ensures Verify(c, jar[AuthCookieName], t).Success? ==>
      HandshakeGuard(header, c, t) == Success(IdentityOf(Verify(c, jar[AuthCookieName], t).value))
    ensures Verify(c, jar[AuthCookieName], t).Failure? ==> HandshakeGuard(header, c, t) == Failure(HandshakeError)
  {
    JarGuard(CookieHeader.Cookies(header), c, t);
  }

  /** The guard's decision as a function of the parsed cookie jar alone. */
  lemma JarGuard(cookies: Option<map<string, string>>, c: Codec, t: int)
    requires cookies.Some? && AuthCookieName in cookies.value && cookies.value[AuthCookieName] != ""
    ensures forall header :: CookieHeader.Cookies(header) == cookies ==>
      HandshakeGuard(header, c, t) ==
        match Verify(c, cookies.value[AuthCookieName], t)
        case Failure(_) => Failure(HandshakeError)
        case Success(claims) => Success(IdentityOf(claims))
  {
  }

  /** A compact JWT needs no quoting: `access_token=<jwt>` parses back to the one cookie. */
  lemma TokenCookieParses(token: string)
    requires IsTokenText(token)
    ensures CookieHeader.Cookies(Some(AuthCookieName + "=" + token)) == Some(map[AuthCookieName := token])
  {
    assert forall k :: 0 <= k < |token| ==> IsTokenChar(token[k]);
    assert ';' !in token && '%' !in token;
    assert !IsJsWhitespace(token[|token| - 1]);
    CookieHeader.SinglePair(AuthCookieName, token);
  }

  /** Without a cookie header there is no connection. */
  lemma NoCookieNoConnection(c: Codec, now: int)
    ensures HandshakeGuard(None, c, now) == Failure(HandshakeError)
    ensures HandshakeGuard(Some(""), c, now) == Failure(HandshakeError)
  {
  }

  /** A header whose one cookie is not `access_token` is refused. */
  lemma NoTokenNoConnection(name: string, value: string, c: Codec, now: int)
    requires name != [] && !IsJsWhitespace(name[0]) && name != AuthCookieName
    requires '=' !in name && ';' !in name && ';' !in value && '%' !in value
    requires value == [] || !IsJsWhitespace(value[|value| - 1])
    ensures HandshakeGuard(Some(name + "=" + value), c, now) == Failure(HandshakeError)
  {
    CookieHeader.SinglePair(name, value);
  }

  /**
   * A token cookie whose value `decodeURIComponent` rejects (such as `%ZZ`, see
   * `CookieHeader.MalformedEscape`) makes the parse throw: refused too.
   */
  lemma MalformedCookieNoConnection(value: string, c: Codec, now: int)
    requires ';' !in value && value != [] && !IsJsWhitespace(value[|value| - 1])
    requires CookieHeader.DecodeUriComponent(value).None?
    ensures HandshakeGuard(Some(AuthCookieName + "=" + value), c, now) == Failure(HandshakeError)
  {
    AuthCookieNameIsPlain();
    CookieHeader.SingleFailingPair(AuthCookieName, value);
  }

  lemma AuthCookieNameIsPlain()
    ensures AuthCookieName != [] && !IsJsWhitespace(AuthCookieName[0])
    ensures '=' !in AuthCookieName && ';' !in AuthCookieName
  {
    assert AuthCookieName[0] == 'a';
  }
}
