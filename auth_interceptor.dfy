/** The request-authentication gate of the observability API
    (`AuthInterceptor.interceptRequest`). For each request it decides whether the
    request continues (`true`) or stops with HTTP 401 (`false`):

    - an `OPTIONS` request (CORS preflight) and a request under `/api/auth`
      (the login flow) pass without any check;
    - any other request needs an `Authorization` header and a session cookie,
      both non-empty; the access token is element 1 of the header split on
      spaces followed directly by the cookie value;
    - the token goes to the OIDC validator once: `true` passes, `false` or a
      provider error gives 401.

    A header whose split has no element 1 makes the Java code throw
    `ArrayIndexOutOfBoundsException`, so that outcome is kept apart from 401. */
module Interceptor {
  import opened Wrappers
  import opened JavaStrings

  /** `javax.ws.rs.HttpMethod.OPTIONS`. */
  const OptionsMethod: string := "OPTIONS"
  /** Path prefix of the authentication endpoints, which must be reachable without a token. */
  const AuthApiPrefix: string := "/api/auth"
  const Unauthorized: int := 401
  /** Separator of `split(" ")`. */
  const Space: char := ' '

  /** What the gate reads from an msf4j request: the method, the URI, the
      `Authorization` header and the value of the HTTP-only session cookie
      (`None` where the header or cookie is absent). */
  datatype Request = Request(
    httpMethod: string,
    uri: string,
    authorization: Option<string>,
    sessionCookie: Option<string>)

  /** What `validateToken` does with a token: returns true, returns false, or
      throws `OIDCProviderException`. */
  datatype Verdict = Valid | Invalid | ProviderError

  /** How `interceptRequest` ends: it returns a boolean, or the header split
      throws `ArrayIndexOutOfBoundsException`. */
  datatype Outcome = Returned(proceed: bool) | IndexOutOfBounds

  /** The two exemptions: the preflight method and the raw `/api/auth` URI prefix. */
  predicate IsExempt(req: Request)
  {
    EqualsIgnoreCase(OptionsMethod, req.httpMethod)
    || (IsNotEmpty(req.uri) && StartsWith(req.uri, AuthApiPrefix))
  }

  /** Both credential parts are present and non-empty. */
  predicate HasCredentialParts(req: Request)
  {
    req.authorization.Some? && IsNotEmpty(req.authorization.value)
    && req.sessionCookie.Some? && IsNotEmpty(req.sessionCookie.value)
  }

  /** `header.split(" ")[1] + cookieValue`; `None` when the index is out of bounds. */
  function AccessToken(header: string, cookieValue: string): Option<string>
  {
    match Element(Split(header, Space), 1)
    case Some(token) => Some(token + cookieValue)
    case None => None
  }

  /** Which way a request goes through `interceptRequest` before the validator answers. */
  datatype Route = Exempt | MissingCredential | HeaderFault | ToValidator(token: string)

  /** The exemption test, the presence checks and the token composition, in the
      order the Java method applies them. */
  function Classify(req: Request): Route
  {
    if IsExempt(req) then Exempt
    else if !HasCredentialParts(req) then MissingCredential
    else
      match AccessToken(req.authorization.value, req.sessionCookie.value)
      case None => HeaderFault
      case Some(token) => ToValidator(token)
  }

  /** The outcome of `interceptRequest` for a request, given what the validator
      answers for each token. */
  function Decide(req: Request, answer: string -> Verdict): Outcome
  {
    match Classify(req)
    case Exempt => Returned(true)
    case MissingCredential => Returned(false)
    case HeaderFault => IndexOutOfBounds
    case ToValidator(token) => Returned(answer(token) == Valid)
  }

  /** The tokens `interceptRequest` hands to the validator, in order. */
  function ValidatorCalls(req: Request): (calls: seq<string>)
    ensures |calls| <= 1
    ensures calls != [] ==> !IsExempt(req) && HasCredentialParts(req)
  {
    match Classify(req)
    case ToValidator(token) => [token]
    case _ => []
  }

  /** The access token is the text between the first and the second space of the
      header (not all that follows the first space), then the cookie value with
      no separator; it does not exist when nothing but spaces follows the first
      space, or there is no space. The scheme name is never checked. */
  lemma AccessTokenComposition(header: string, cookieValue: string)
    ensures AccessToken(header, cookieValue) ==
              match SecondField(header, Space)
              case Some(token) => Some(token + cookieValue)
              case None => None
  {
    SplitElementOne(header, Space);
  }

  /** The whole decision, stated against the direct reading of the token:
      the request passes exactly when it is exempt or carries both parts and the
      validator accepts the token; it is refused exactly when it is not exempt and
      a part is missing or the validator does not accept; it faults exactly when
      it is not exempt, carries both parts and the header has no element 1. The
      validator is asked that token exactly when the request is not exempt and
      the token exists (whatever it answers), and never on the exempt,
      missing-credential or fault paths. */
  lemma DecisionCharacterisation(req: Request, answer: string -> Verdict)
    ensures var token := if HasCredentialParts(req)
                         then SecondField(req.authorization.value, Space) else None;
            && (Decide(req, answer) == Returned(true) <==>
                  IsExempt(req)
                  || (HasCredentialParts(req) && token.Some?
                      && answer(token.value + req.sessionCookie.value) == Valid))
            && (Decide(req, answer) == Returned(false) <==>
                  !IsExempt(req)
                  && (!HasCredentialParts(req)
                      || (token.Some? && answer(token.value + req.sessionCookie.value) != Valid)))
            && (Decide(req, answer) == IndexOutOfBounds <==>
                  !IsExempt(req) && HasCredentialParts(req) && token.None?)
            && ValidatorCalls(req) ==
                 if !IsExempt(req) && token.Some? then [token.value + req.sessionCookie.value] else []
  {
    if HasCredentialParts(req) {
      AccessTokenComposition(req.authorization.value, req.sessionCookie.value);
    }
  }

  /** A preflight request passes, whatever its headers and cookie, and the
      validator is not called. */
  lemma PreflightPasses(req: Request, answer: string -> Verdict)
    requires EqualsIgnoreCase(OptionsMethod, req.httpMethod)
    ensures Decide(req, answer) == Returned(true) && ValidatorCalls(req) == []
  {
  }

  /** The preflight test accepts exactly the 128 spellings of "OPTIONS" that mix
      upper- and lower-case letters. */
  lemma PreflightSpellings(verb: string)
    ensures EqualsIgnoreCase(OptionsMethod, verb) <==>
              |verb| == 7
              && forall i :: 0 <= i < 7 ==> verb[i] == OptionsMethod[i] || verb[i] == "options"[i]
  {
    assert IsUpperWord(OptionsMethod);
    EqualsIgnoreCaseUpperWord(OptionsMethod, verb);
    assert forall i :: 0 <= i < 7 ==> AsciiLower(OptionsMethod[i]) == "options"[i];
  }

  /** A request under the authentication endpoints passes without any credential
      check, and the validator is not called. */
  lemma AuthEndpointPasses(req: Request, answer: string -> Verdict)
    requires StartsWith(req.uri, AuthApiPrefix)
    ensures Decide(req, answer) == Returned(true) && ValidatorCalls(req) == []
  {
  }

  /** The URI test is a raw, case-sensitive prefix match that never accepts the
      empty URI. */
  lemma AuthPrefixExamples()
    ensures StartsWith("/api/auth/login", AuthApiPrefix)
    ensures StartsWith("/api/authz", AuthApiPrefix)
    ensures !StartsWith("/api/aut", AuthApiPrefix)
    ensures !StartsWith("/API/auth", AuthApiPrefix)
    ensures forall m, h, c :: !IsExempt(Request(m, "", h, c)) <==> !EqualsIgnoreCase(OptionsMethod, m)
  {
    assert "/api/authz"[..9] == AuthApiPrefix;
    assert "/api/auth/login"[..9] == AuthApiPrefix;
    assert "/API/auth"[1] != AuthApiPrefix[1];
  }

  /** Outside the exemptions, a missing or empty header or cookie gives 401 and
      the validator is not called. */
  lemma MissingCredentialRefused(req: Request, answer: string -> Verdict)
    requires !IsExempt(req) && !HasCredentialParts(req)
    ensures Decide(req, answer) == Returned(false) && ValidatorCalls(req) == []
  {
  }

  /** "Bearer abc" with cookie "xyz" gives "abcxyz". */
  lemma BearerTokenExample(header: string, cookieValue: string)
    requires header == "Bearer abc" && cookieValue == "xyz"
    ensures AccessToken(header, cookieValue) == Some("abcxyz")
  {
    IndexOfUnique(header, Space, 6);
    var t := header[7..];
    assert t == "abc";
    IndexOfUnique(t, Space, 3);
    assert t[0] != Space;
    assert SecondField(header, Space) == Some(t[..3]);
    assert t[..3] == "abc";
    AccessTokenComposition(header, cookieValue);
    assert "abc" + cookieValue == "abcxyz";
  }

  /** A second space ends the token: "Bearer abc def" gives "abc", not "abc def". */
  lemma SecondSpaceEndsToken(header: string, cookieValue: string)
    requires header == "Bearer abc def" && cookieValue == "xyz"
    ensures AccessToken(header, cookieValue) == Some("abcxyz")
  {
    IndexOfUnique(header, Space, 6);
    var t := header[7..];
    assert t == "abc def";
    assert t[..3] == "abc" && t[3] == Space;
    IndexOfUnique(t, Space, 3);
    assert t[0] != Space;
    assert SecondField(header, Space) == Some("abc");
    AccessTokenComposition(header, cookieValue);
    assert "abc" + cookieValue == "abcxyz";
  }

  /** A doubled space right after the scheme, followed by more text, makes element 1
      empty, so the token is the cookie value alone. */
  lemma DoubledSpaceEmptyToken(header: string, cookieValue: string)
    requires header == "Bearer  abc" && cookieValue == "xyz"
    ensures AccessToken(header, cookieValue) == Some("xyz")
  {
    IndexOfUnique(header, Space, 6);
    var t := header[7..];
    assert t == " abc";
    IndexOfUnique(t, Space, 0);
    assert t[1] != Space;
    assert SecondField(header, Space) == Some("");
    AccessTokenComposition(header, cookieValue);
    assert "" + cookieValue == "xyz";
  }

  /** "Bearer", "Bearer " and "Bearer  " have no element 1: the split faults. */
  lemma SchemeOnlyFaults(header: string, cookieValue: string)
    requires header == "Bearer" || header == "Bearer " || header == "Bearer  "
    ensures AccessToken(header, cookieValue) == None
  {
    IndexOfUnique(header, Space, 6);
    if header == "Bearer " {
      assert header[7..] == "";
    } else if header == "Bearer  " {
      assert header[7..] == " ";
    }
    assert SecondField(header, Space) == None;
    AccessTokenComposition(header, cookieValue);
  }

  /** An ordinary API request with "Bearer abc" and cookie "xyz": the validator is
      asked about "abcxyz" once, and its answer alone decides the outcome. */
  lemma ComposedTokenDecides(req: Request, answer: string -> Verdict)
    requires req.httpMethod == "GET" && req.uri == "/api/resource"
    requires req.authorization == Some("Bearer abc") && req.sessionCookie == Some("xyz")
    ensures ValidatorCalls(req) == ["abcxyz"]
    ensures Decide(req, answer) == Returned(answer("abcxyz") == Valid)
  {
    assert !EqualsIgnoreCase(OptionsMethod, req.httpMethod);
    assert req.uri[5] != AuthApiPrefix[5];
    assert !IsExempt(req);
    assert HasCredentialParts(req);
    BearerTokenExample(req.authorization.value, req.sessionCookie.value);
  }

  /** The response object: only its status is touched by the gate. */
  class Response {
    var status: int

    constructor (status: int)
      ensures this.status == status
    {
      this.status := status;
    }
  }

  /** The OIDC token validator, reduced to what the gate sees: a fixed answer per
      token, and the record of the tokens it was asked about. */
  class OidcOauthManager {
    const answer: string -> Verdict
    ghost var calls: seq<string>

    constructor (answer: string -> Verdict)
      ensures this.answer == answer && calls == []
    {
      this.answer := answer;
      calls := [];
    }

    method ValidateToken(accessToken: string) returns (verdict: Verdict)
      modifies this
      ensures verdict == answer(accessToken)
      ensures calls == old(calls) + [accessToken]
    {
      verdict := answer(accessToken);
      calls := calls + [accessToken];
    }
  }

  class AuthInterceptor {
    /** The validator the gate consults. */
    const oidcManager: OidcOauthManager

    constructor (oidcManager: OidcOauthManager)
      ensures this.oidcManager == oidcManager
    {
      this.oidcManager := oidcManager;
    }

    /** Decides one request: the outcome is `Decide`'s, status 401 is set on
        exactly the refusing paths (and nothing else on the response changes),
        and the validator is asked exactly `ValidatorCalls(request)`. */
    method InterceptRequest(request: Request, response: Response) returns (outcome: Outcome)
      modifies response, oidcManager
      ensures outcome == Decide(request, oidcManager.answer)
      ensures response.status ==
                if outcome == Returned(false) then Unauthorized else old(response.status)
      ensures oidcManager.calls == old(oidcManager.calls) + ValidatorCalls(request)
    {
      if !EqualsIgnoreCase(OptionsMethod, request.httpMethod)
         && !(IsNotEmpty(request.uri) && StartsWith(request.uri, AuthApiPrefix))
      {
        var header := request.authorization;
        var oAuthCookie := request.sessionCookie;
        if header.Some? && IsNotEmpty(header.value)
           && oAuthCookie.Some? && IsNotEmpty(oAuthCookie.value)
        {
          var parts := Split(header.value, Space);
          if |parts| < 2 {
            return IndexOutOfBounds;
          }
          var accessToken := parts[1] + oAuthCookie.value;
          var verdict := oidcManager.ValidateToken(accessToken);
          if verdict == Invalid {
            response.status := Unauthorized;
            return Returned(false);
          } else if verdict == ProviderError {
            // The provider error is only logged; the request is refused like an invalid token.
            response.status := Unauthorized;
            return Returned(false);
          }
        } else {
          response.status := Unauthorized;
          return Returned(false);
        }
      }
      return Returned(true);
    }
  }

  /** The gate keeps no state between requests: deciding the same request twice
      gives the same outcome and the same response status, and asks the validator
      the same token twice. */
  method InterceptTwice(interceptor: AuthInterceptor, request: Request, response: Response)
    returns (first: Outcome, second: Outcome)
    modifies response, interceptor.oidcManager
    ensures first == second
    ensures response.status ==
              if first == Returned(false) then Unauthorized else old(response.status)
    ensures interceptor.oidcManager.calls ==
              old(interceptor.oidcManager.calls) + ValidatorCalls(request) + ValidatorCalls(request)
  {
    first := interceptor.InterceptRequest(request, response);
    second := interceptor.InterceptRequest(request, response);
  }
}
