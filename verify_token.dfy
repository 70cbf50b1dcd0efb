// The three authorization middlewares of src/middlewares/verify-token.ts.
// Each one reads the `end_token` header, rebuilds the name of the session
// cookie from it, looks the cookie up and (for two of them) verifies the token
// it holds, then either forwards the request (`next()`), possibly with fields
// written onto it, or answers with a status and a JSON message.

module VerifyToken {
  import opened Wrappers
  import opened Js
  import opened Http

  /** The parts of an Express request that the middlewares read and write. */
  datatype Request = Request(
    headers: map<string, string>,  // lower-cased header names
    cookies: map<string, string>,  // as parsed by the cookie parser
    params: map<string, string>,   // route parameters
    body: map<string, Value>,      // the parsed body
    props: map<string, Value>)     // properties written onto `req` itself (`req[key]`, `req.authId`)

  /** `jwt.verify(token, SECRET_KEY)`: the decoded claims, or None when it throws. */
  type Verifier = string -> Option<Row>

  /** A middleware's decision: call `next()` with the (possibly updated) request, or respond. */
  datatype Gate = Next(req: Request) | Reject(status: nat, message: string)

  const CookiePrefix := "auth_token_"

  /** `req.params[k]` */
  function Param(req: Request, k: string): Value {
    if k in req.params then Str(req.params[k]) else Undefined
  }

  /** `req.cookies[name]` */
  function Cookie(req: Request, name: string): Value {
    if name in req.cookies then Str(req.cookies[name]) else Undefined
  }

  /** `!!req.headers["end_token"]` */
  predicate HasEndToken(req: Request) {
    "end_token" in req.headers && req.headers["end_token"] != ""
  }

  /** `auth_token_${endToken.replace(", ", "")}`: only the first ", " is removed. */
  function CookieName(endToken: string): (name: string)
    ensures |name| >= |CookiePrefix| && name[..|CookiePrefix|] == CookiePrefix
    ensures (forall j :: !OccursAt(endToken, ", ", j)) ==> name == CookiePrefix + endToken
    ensures forall k {:trigger OccursAt(endToken, ", ", k)} ::
      OccursAt(endToken, ", ", k) && (forall j :: 0 <= j < k ==> !OccursAt(endToken, ", ", j)) ==>
        name == CookiePrefix + endToken[..k] + endToken[k + 2..]
  {
    CookiePrefix + ReplaceFirst(endToken, ", ", "")
  }

  /** The session cookie named by the request's `end_token` header. */
  function SessionCookie(req: Request): Value
    requires HasEndToken(req)
  {
    Cookie(req, CookieName(req.headers["end_token"]))
  }

  // ---------------------------------------------------------------------
  // verifyJWT(key, bodyParam)

  const MissingIdentifier := "Numbers (cookie identifier) is missing."
  const MissingCookie := "Cookie end code is missing."
  const InvalidToken := "Forbidden: Invalid token."
  const Unauthorized := "Unauthorized."

  /**
   * The cross-check verifyJWT applies to verified claims. With `key`: the claim
   * `key` loosely equals the route parameter `key`. Otherwise with `bodyParam`:
   * the claim `id` loosely equals the body field. Otherwise the claim `id`
   * loosely equals the route parameter `userId` or `comapanyId`.
   */
  predicate VerifyJwtCrossCheck(key: string, bodyParam: string, req: Request, claims: Row) {
    if key != "" then LooseEquals(Get(claims, key), Param(req, key))
    else if bodyParam != "" then LooseEquals(Get(claims, "id"), Get(req.body, bodyParam))
    else (LooseEquals(Param(req, "userId"), Get(claims, "id"))
          || LooseEquals(Param(req, "comapanyId"), Get(claims, "id")))
  }

  function VerifyJwt(key: string, bodyParam: string, req: Request, verify: Verifier): (g: Gate)
    // the header is checked before the cookie, which is checked before the token
    ensures !HasEndToken(req) ==> g == Reject(400, MissingIdentifier)
    ensures HasEndToken(req) && !Truthy(SessionCookie(req)) ==> g == Reject(400, MissingCookie)
    ensures HasEndToken(req) && Truthy(SessionCookie(req)) && verify(SessionCookie(req).s).None? ==>
      g == Reject(403, InvalidToken)
    // forwarding happens exactly for a verified token that passes the cross-check
    ensures g.Next? <==>
      HasEndToken(req) && Truthy(SessionCookie(req)) && verify(SessionCookie(req).s).Some?
      && VerifyJwtCrossCheck(key, bodyParam, req, verify(SessionCookie(req).s).value)
    // a failed cross-check answers 401 in the key and body modes, 403 in the legacy mode
    ensures g.Reject? && HasEndToken(req) && Truthy(SessionCookie(req)) && verify(SessionCookie(req).s).Some? ==>
      g == Reject(if key != "" || bodyParam != "" then 401 else 403,
                  if key != "" || bodyParam != "" then Unauthorized else InvalidToken)
    // only `req[key]` is written, and only in the key mode
    ensures g.Next? ==> g.req == if key != "" then
        req.(props := req.props[key := Get(verify(SessionCookie(req).s).value, key)])
      else req
  {
    if !HasEndToken(req) then Reject(400, MissingIdentifier)
    else
      var cookieValue := Cookie(req, CookieName(req.headers["end_token"]));
      if !Truthy(cookieValue) then Reject(400, MissingCookie)
      else match verify(cookieValue.s)
        case None => Reject(403, InvalidToken)
        case Some(decoded) =>
          if key != "" then
            if !LooseEquals(Get(decoded, key), Param(req, key)) then Reject(401, Unauthorized)
            else Next(req.(props := req.props[key := Get(decoded, key)]))
          else if bodyParam != "" then
            if !LooseEquals(Get(decoded, "id"), Get(req.body, bodyParam)) then Reject(401, Unauthorized)
            else Next(req)
          else
            if LooseEquals(Param(req, "userId"), Get(decoded, "id"))
              || LooseEquals(Param(req, "comapanyId"), Get(decoded, "id"))
            then Next(req)
            else Reject(403, InvalidToken)
  }

  // ---------------------------------------------------------------------
  // extractCodeTokenFromCookie

  /** `req.cookies.refreshToken = req.cookies[name]`; assigning undefined leaves no readable value. */
  function CopyToRefreshToken(cookies: map<string, string>, name: string): (c: map<string, string>)
    ensures "refreshToken" in c <==> name in cookies
    ensures name in cookies ==> c["refreshToken"] == cookies[name]
    ensures forall k :: k != "refreshToken" ==> (k in c <==> k in cookies)
    ensures forall k :: k in cookies && k != "refreshToken" ==> c[k] == cookies[k]
  {
    if name in cookies then cookies["refreshToken" := cookies[name]]
    else cookies - {"refreshToken"}
  }

  function ExtractCodeTokenFromCookie(req: Request): (g: Gate)
    ensures !HasEndToken(req) ==> g == Reject(400, MissingIdentifier)
    // once the header is present the request always goes on, whether or not the cookie exists
    ensures g.Next? <==> HasEndToken(req)
    ensures g.Next? ==> g.req == req.(cookies := CopyToRefreshToken(req.cookies, CookieName(req.headers["end_token"])))
  {
    if !HasEndToken(req) then Reject(400, MissingIdentifier)
    else
      var cookieName := CookieName(req.headers["end_token"]);
      if cookieName != "" then Next(req.(cookies := CopyToRefreshToken(req.cookies, cookieName)))
      else Next(req)
  }

  // ---------------------------------------------------------------------
  // authenticateToken(paramKey, decodedKey)

  const AuthMissingIdentifier := "Authentication failed: Cookie identifier is missing."
  const AuthNoToken := "Authentication failed: No token provided."
  const AuthInvalidToken := "Authentication failed: Invalid or expired token."
  const AuthForbidden := "Forbidden: You are not authorized to access this resource."

  /** The claim authenticateToken compares with the route parameter: `decoded[decodedKey || paramKey]`. */
  function OwnerClaim(paramKey: string, decodedKey: string, claims: Row): Value {
    Get(claims, if decodedKey != "" then decodedKey else paramKey)
  }

  /** `req.params[paramKey] === String(claim)`: the parameter is present and spells the claim exactly. */
  predicate OwnerMatches(paramKey: string, decodedKey: string, req: Request, claims: Row)
    ensures OwnerMatches(paramKey, decodedKey, req, claims) <==>
      paramKey in req.params && req.params[paramKey] == ToStr(OwnerClaim(paramKey, decodedKey, claims))
  {
    StrictEquals(Param(req, paramKey), Str(ToStr(OwnerClaim(paramKey, decodedKey, claims))))
  }

  /** The request authenticateToken forwards: the refresh cookie copied, and `authId` set when `decodedKey` is. */
  function Authenticated(decodedKey: string, req: Request, claims: Row): Request
    requires HasEndToken(req)
  {
    var cookies := CopyToRefreshToken(req.cookies, CookieName(req.headers["end_token"]));
    var props := if decodedKey != "" then req.props["authId" := Get(claims, decodedKey)] else req.props;
    req.(cookies := cookies, props := props)
  }

  function AuthenticateToken(paramKey: string, decodedKey: string, req: Request, verify: Verifier): (g: Gate)
    ensures !HasEndToken(req) ==> g == Reject(400, AuthMissingIdentifier)
    // a present header without its cookie is 401 here, where verifyJWT answers 400
    ensures HasEndToken(req) && !Truthy(SessionCookie(req)) ==> g == Reject(401, AuthNoToken)
    ensures HasEndToken(req) && Truthy(SessionCookie(req)) && verify(SessionCookie(req).s).None? ==>
      g == Reject(403, AuthInvalidToken)
    ensures g.Next? <==>
      HasEndToken(req) && Truthy(SessionCookie(req)) && verify(SessionCookie(req).s).Some?
      && (paramKey != "" ==> OwnerMatches(paramKey, decodedKey, req, verify(SessionCookie(req).s).value))
    ensures g.Reject? && HasEndToken(req) && Truthy(SessionCookie(req)) && verify(SessionCookie(req).s).Some? ==>
      g == Reject(403, AuthForbidden)
    ensures g.Next? ==> g.req == Authenticated(decodedKey, req, verify(SessionCookie(req).s).value)
    ensures g.Next? ==> "refreshToken" in g.req.cookies && Str(g.req.cookies["refreshToken"]) == SessionCookie(req)
    ensures g.Next? && decodedKey != "" ==>
      Get(g.req.props, "authId") == Get(verify(SessionCookie(req).s).value, decodedKey)
  {
    if !HasEndToken(req) then Reject(400, AuthMissingIdentifier)
    else
      var cookieName := CookieName(req.headers["end_token"]);
      var token := Cookie(req, cookieName);
      if !Truthy(token) then Reject(401, AuthNoToken)
      else match verify(token.s)
        case None => Reject(403, AuthInvalidToken)
        case Some(decoded) =>
          var cookies := if cookieName != "" then CopyToRefreshToken(req.cookies, cookieName) else req.cookies;
          var props := if decodedKey != "" then req.props["authId" := Get(decoded, decodedKey)] else req.props;
          var updated := req.(cookies := cookies, props := props);
          if paramKey != "" && !StrictEquals(Param(req, paramKey), Str(ToStr(OwnerClaim(paramKey, decodedKey, decoded))))
          then Reject(403, AuthForbidden)
          else Next(updated)
  }

  // ---------------------------------------------------------------------
  // Properties

  /** Without an `end_token` header no middleware looks at a cookie or calls the verifier. */
  lemma MissingHeaderIgnoresCookiesAndVerifier(req: Request, cookies: map<string, string>,
                                               v1: Verifier, v2: Verifier, k: string, b: string, pk: string, dk: string)
    requires !HasEndToken(req)
    ensures VerifyJwt(k, b, req, v1) == VerifyJwt(k, b, req.(cookies := cookies), v2) == Reject(400, MissingIdentifier)
    ensures AuthenticateToken(pk, dk, req, v1) == AuthenticateToken(pk, dk, req.(cookies := cookies), v2)
    ensures ExtractCodeTokenFromCookie(req) == ExtractCodeTokenFromCookie(req.(cookies := cookies))
  {
  }

  /** A header without a comma is used verbatim. */
  lemma {:induction false} CookieNameVerbatim(h: string)
    requires forall i :: 0 <= i < |h| ==> h[i] != ','
    ensures CookieName(h) == CookiePrefix + h
  {
    forall j | 0 <= j < |h| ensures !OccursAt(h, ", ", j) {
      assert h[j] != ',';
    }
    assert forall j :: !OccursAt(h, ", ", j);
    assert ReplaceFirst(h, ", ", "") == h;
  }

  /**
   * Only the first `, ` is removed; every later one stays in the cookie name
   * (so "12, 34, 56" names the cookie auth_token_1234, 56).
   */
  lemma {:induction false} CookieNameRemovesOnlyFirstSeparator(a: string, rest: string)
    requires forall i :: 0 <= i < |a| ==> a[i] != ','
    ensures CookieName(a + ", " + rest) == CookiePrefix + a + rest
  {
    var h := a + ", " + rest;
    assert OccursAt(h, ", ", |a|) by { assert h[|a|..|a| + 2] == ", "; }
    forall j | 0 <= j < |a| ensures !OccursAt(h, ", ", j) {
      assert h[j] == a[j];
    }
    assert h[..|a|] == a && h[|a| + 2..] == rest;
  }

  /**
   * Under verifyJWT(key) a route parameter "07" matches the claim 7, while
   * authenticateToken(key) with the same request and token refuses it.
   */
  lemma LooseAndStrictOwnershipDiffer(req: Request, verify: Verifier, key: string)
    requires key != "" && HasEndToken(req) && Truthy(SessionCookie(req))
    requires verify(SessionCookie(req).s) == Some(map[key := Number(Int(7))])
    requires key in req.params && req.params[key] == "07"
    ensures VerifyJwt(key, "", req, verify).Next?
    ensures AuthenticateToken(key, "", req, verify) == Reject(403, AuthForbidden)
  {
    LeadingZeroNumeral();
    assert Param(req, key) == Str("07");
  }

  /** authenticateToken with neither option lets every verified token through. */
  lemma AuthenticateWithoutOptionsAcceptsVerified(req: Request, verify: Verifier)
    requires HasEndToken(req) && Truthy(SessionCookie(req)) && verify(SessionCookie(req).s).Some?
    ensures AuthenticateToken("", "", req, verify).Next?
  {
  }

  /**
   * The legacy check of verifyJWT() passes every verified token that has no
   * `id` claim on every route without a `comapanyId` parameter, because
   * `undefined == undefined`.
   */
  lemma LegacyCheckAcceptsTokenWithoutId(req: Request, verify: Verifier)
    requires HasEndToken(req) && Truthy(SessionCookie(req)) && verify(SessionCookie(req).s).Some?
    requires "id" !in verify(SessionCookie(req).s).value
    requires "comapanyId" !in req.params
    ensures VerifyJwt("", "", req, verify) == Next(req)
  {
    LooseEqualsUndefined(Undefined);
  }

  /** The legacy check as evidently intended: a route id parameter is present and loosely equals the `id` claim. */
  predicate LegacyOwnerMatches(req: Request, claims: Row) {
    ("userId" in req.params && LooseEquals(Str(req.params["userId"]), Get(claims, "id")))
    || ("comapanyId" in req.params && LooseEquals(Str(req.params["comapanyId"]), Get(claims, "id")))
  }

  /** verifyJWT with the legacy check corrected. */
  function VerifyJwtCorrected(key: string, bodyParam: string, req: Request, verify: Verifier): (g: Gate)
    ensures key != "" || bodyParam != "" ==> g == VerifyJwt(key, bodyParam, req, verify)
    // in legacy mode a verified token is accepted exactly when a present parameter matches its `id` claim
    ensures key == "" && bodyParam == "" ==>
      (g.Next? <==>
        HasEndToken(req) && Truthy(SessionCookie(req)) && verify(SessionCookie(req).s).Some?
        && LegacyOwnerMatches(req, verify(SessionCookie(req).s).value))
    // so an accepted token always carries an `id`, and the route has a parameter for it
    ensures key == "" && bodyParam == "" && g.Next? ==>
      && !IsNullish(Get(verify(SessionCookie(req).s).value, "id"))
      && ("userId" in req.params || "comapanyId" in req.params)
    // the correction only refuses more: whatever it accepts, verifyJWT accepts unchanged
    ensures g.Next? ==> VerifyJwt(key, bodyParam, req, verify) == g
    // a refusal is verifyJWT's own, or the legacy 403 for a token it would have let through
    ensures g.Reject? ==> g == VerifyJwt(key, bodyParam, req, verify) || g == Reject(403, InvalidToken)
  {
    if key != "" || bodyParam != "" || !HasEndToken(req) then VerifyJwt(key, bodyParam, req, verify)
    else
      var cookieValue := SessionCookie(req);
      if !Truthy(cookieValue) then Reject(400, MissingCookie)
      else match verify(cookieValue.s)
        case None => Reject(403, InvalidToken)
        case Some(decoded) =>
          if LegacyOwnerMatches(req, decoded) then
            LegacyOwnerNeedsId(req, decoded);
            Next(req)
          else Reject(403, InvalidToken)
  }

  lemma LegacyOwnerNeedsId(req: Request, claims: Row)
    requires LegacyOwnerMatches(req, claims)
    ensures !IsNullish(Get(claims, "id"))
  {
    var id := Get(claims, "id");
    if IsNullish(id) {
      var s := if "userId" in req.params && LooseEquals(Str(req.params["userId"]), id)
        then req.params["userId"] else req.params["comapanyId"];
      LooseEqualsSymmetric(Str(s), id);
      if id.Undefined? { LooseEqualsUndefined(Str(s)); }
    }
  }
}
