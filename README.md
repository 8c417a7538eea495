# Request-authentication gate of the Cellery observability API

This project models `AuthInterceptor.interceptRequest`, the msf4j request
interceptor that guards the observability API. For every request it decides
whether the request continues (`true`) or stops with HTTP 401 (`false`):

- **Exemptions.** An `OPTIONS` request (the CORS preflight, method matched
  ignoring case) passes, and so does a request whose URI is non-empty and starts
  with the raw prefix `/api/auth` (the login flow).
- **Credential composition.** Any other request needs a non-empty
  `Authorization` header and a session cookie with a non-empty value. The access
  token is `header.split(" ")[1] + cookieValue`. The scheme name (`Bearer`) is
  never checked.
- **Validation.** The token goes to the OIDC manager's `validateToken` once.
  `true` lets the request through. `false` gives 401, and so does an
  `OIDCProviderException`, which is swallowed and only logged.

Files:

- `wrappers.dfy`: the `Option` type.
- `java_strings.dfy` (module `JavaStrings`): the library string operations
  the gate calls. These are `equalsIgnoreCase` (ASCII only), `startsWith`,
  `StringUtils.isNotEmpty`, and `String.split` on one separator character with
  limit zero. The split keeps a leading empty field, drops trailing empty ones,
  and returns the input unchanged when the separator does not occur. Java array
  indexing is modelled too. `SecondField` is a direct reading of `split(" ")[1]`,
  and `SplitElementOne` proves the two agree.
- `auth_interceptor.dfy` (module `Interceptor`): the request record, the
  validator's three answers, the route a request takes (`Classify`), the decision as the function
  `Decide`, and three
  classes. `Response` has the `status` field the gate writes. `OidcOauthManager`
  answers with a fixed function and records each token it is asked about.
  `AuthInterceptor.InterceptRequest` mirrors the Java method branch for branch
  and is proved against `Decide` and `ValidatorCalls`.

A header whose split has no element 1 makes the Java code throw
`ArrayIndexOutOfBoundsException`. Examples are `"Bearer"` and `"Bearer "`. The
model keeps this as the separate outcome `IndexOutOfBounds`. In that case the
status is untouched and the validator is not called. It is not turned into a
401, because the code does not do that.

Two behaviours of the code are easy to misread:

- The token is the text between the first and the second space of the header,
  not everything after the first space. A doubled space right after the scheme,
  followed by more text (`"Bearer  abc"`), gives an empty token, so the cookie
  value alone is validated. With nothing after it (`"Bearer  "`), the header
  faults.
- A header with no usable element 1 faults; it is not denied.

## Model

| member | source | states |
|---|---|---|
| `JavaStrings.EqualsIgnoreCase` | components/global/core/io.cellery.observability.api/src/main/java/io/cellery/observability/api/interceptor/AuthInterceptor.java:43 | definition: `equalsIgnoreCase`, same length and the same letters up to ASCII case; characterised by `EqualsIgnoreCaseUpperWord` and `PreflightSpellings` |
| `JavaStrings.StartsWith` | components/global/core/io.cellery.observability.api/src/main/java/io/cellery/observability/api/interceptor/AuthInterceptor.java:44 | definition: `startsWith`, a raw case-sensitive prefix test; its behaviour on the auth prefix is shown by `AuthPrefixExamples` |
| `JavaStrings.IsNotEmpty` | components/global/core/io.cellery.observability.api/src/main/java/io/cellery/observability/api/interceptor/AuthInterceptor.java:44-48 | definition: `StringUtils.isNotEmpty` on a non-null string, length above zero |
| `JavaStrings.Split` | components/global/core/io.cellery.observability.api/src/main/java/io/cellery/observability/api/interceptor/AuthInterceptor.java:49 | definition: `split(" ")` with limit zero, the input unchanged when it has no separator, otherwise every field with trailing empty ones dropped; characterised by `SplitAllJoin`, `AllFieldsEmpty` and `SplitElementOne` |
| `JavaStrings.Element` | components/global/core/io.cellery.observability.api/src/main/java/io/cellery/observability/api/interceptor/AuthInterceptor.java:49 | definition: Java `parts[i]`, where `None` is `ArrayIndexOutOfBoundsException`; index 1 of the split is characterised by `SplitElementOne` |
| `Interceptor.IsExempt` | components/global/core/io.cellery.observability.api/src/main/java/io/cellery/observability/api/interceptor/AuthInterceptor.java:43-44 | definition: the preflight method or a non-empty URI under `/api/auth`; its consequences are stated by `PreflightPasses`, `AuthEndpointPasses` and `AuthPrefixExamples` |
| `Interceptor.HasCredentialParts` | components/global/core/io.cellery.observability.api/src/main/java/io/cellery/observability/api/interceptor/AuthInterceptor.java:47-48 | definition: a non-empty header and a present cookie with a non-empty value; the refusal without them is stated by `MissingCredentialRefused` |
| `Interceptor.AccessToken` | components/global/core/io.cellery.observability.api/src/main/java/io/cellery/observability/api/interceptor/AuthInterceptor.java:49 | definition: `header.split(" ")[1] + cookieValue`, absent on an index fault; characterised by `AccessTokenComposition` |
| `Interceptor.Classify` | components/global/core/io.cellery.observability.api/src/main/java/io/cellery/observability/api/interceptor/AuthInterceptor.java:43-49 | definition: the route a request takes (exempt, missing credential, header fault, or to the validator with its token), shared by `Decide` and `ValidatorCalls` |
| `Interceptor.Decide` | components/global/core/io.cellery.observability.api/src/main/java/io/cellery/observability/api/interceptor/AuthInterceptor.java:42-67 | definition: the outcome for a request and a validator; characterised path by path by `DecisionCharacterisation`, and `InterceptRequest` is proved equal to it |
| `JavaStrings.EqualsIgnoreCaseUpperWord` | components/global/core/io.cellery.observability.api/src/main/java/io/cellery/observability/api/interceptor/AuthInterceptor.java:43 | case-insensitive equality with an upper-case word accepts exactly the letter-by-letter upper/lower spellings, in both directions |
| `JavaStrings.IndexOf` | components/global/core/io.cellery.observability.api/src/main/java/io/cellery/observability/api/interceptor/AuthInterceptor.java:49 | the index is the first occurrence of the separator, or the length when there is none |
| `JavaStrings.SplitAll` | components/global/core/io.cellery.observability.api/src/main/java/io/cellery/observability/api/interceptor/AuthInterceptor.java:49 | at least one field; exactly one when the separator does not occur; the first field is the text before the first separator; no field contains the separator |
| `JavaStrings.SplitAllJoin` | components/global/core/io.cellery.observability.api/src/main/java/io/cellery/observability/api/interceptor/AuthInterceptor.java:49 | joining the split fields with the separator gives back the original string |
| `JavaStrings.DropTrailingEmpty` | components/global/core/io.cellery.observability.api/src/main/java/io/cellery/observability/api/interceptor/AuthInterceptor.java:49 | the result is a prefix of the fields; everything removed is empty; the result is empty or ends in a non-empty field |
| `JavaStrings.AllFieldsEmpty` | components/global/core/io.cellery.observability.api/src/main/java/io/cellery/observability/api/interceptor/AuthInterceptor.java:49 | every split field is empty exactly when the string holds only separators |
| `JavaStrings.SplitElementOne` | components/global/core/io.cellery.observability.api/src/main/java/io/cellery/observability/api/interceptor/AuthInterceptor.java:49 | `split(" ")[1]` is the text between the first separator and the next one (or the end); it is out of bounds exactly when there is no separator or only separators follow the first one |
| `Interceptor.AccessTokenComposition` | components/global/core/io.cellery.observability.api/src/main/java/io/cellery/observability/api/interceptor/AuthInterceptor.java:49 | the access token is element 1 of the header's split followed directly by the cookie value; it is absent exactly when element 1 is out of bounds |
| `Interceptor.BearerTokenExample` | components/global/core/io.cellery.observability.api/src/main/java/io/cellery/observability/api/interceptor/AuthInterceptor.java:49 | "Bearer abc" with cookie "xyz" gives the token "abcxyz" |
| `Interceptor.SecondSpaceEndsToken` | components/global/core/io.cellery.observability.api/src/main/java/io/cellery/observability/api/interceptor/AuthInterceptor.java:49 | "Bearer abc def" gives "abc" plus the cookie: a second space ends the token |
| `Interceptor.DoubledSpaceEmptyToken` | components/global/core/io.cellery.observability.api/src/main/java/io/cellery/observability/api/interceptor/AuthInterceptor.java:49 | "Bearer  abc" (two spaces) gives an empty element 1, so the token is the cookie value alone |
| `Interceptor.SchemeOnlyFaults` | components/global/core/io.cellery.observability.api/src/main/java/io/cellery/observability/api/interceptor/AuthInterceptor.java:49 | "Bearer", "Bearer " and "Bearer  " have no element 1, so the token cannot be built (index fault) |
| `Interceptor.PreflightPasses` | components/global/core/io.cellery.observability.api/src/main/java/io/cellery/observability/api/interceptor/AuthInterceptor.java:43 | a method equal to "OPTIONS" ignoring case passes whatever the headers and cookie, and the validator is not called |
| `Interceptor.PreflightSpellings` | components/global/core/io.cellery.observability.api/src/main/java/io/cellery/observability/api/interceptor/AuthInterceptor.java:43 | the preflight test accepts exactly the seven-letter mixed-case spellings of "OPTIONS" |
| `Interceptor.AuthEndpointPasses` | components/global/core/io.cellery.observability.api/src/main/java/io/cellery/observability/api/interceptor/AuthInterceptor.java:44 | a URI starting with "/api/auth" passes without any credential check, and the validator is not called |
| `Interceptor.AuthPrefixExamples` | components/global/core/io.cellery.observability.api/src/main/java/io/cellery/observability/api/interceptor/AuthInterceptor.java:44 | the prefix match is raw and case-sensitive ("/api/authz" is exempt, "/API/auth" and "/api/aut" are not), and an empty URI is exempt only through the preflight rule |
| `Interceptor.MissingCredentialRefused` | components/global/core/io.cellery.observability.api/src/main/java/io/cellery/observability/api/interceptor/AuthInterceptor.java:45-63 | outside the exemptions, a missing or empty header or cookie gives false (401), and the validator is not called |
| `Interceptor.ValidatorCalls` | components/global/core/io.cellery.observability.api/src/main/java/io/cellery/observability/api/interceptor/AuthInterceptor.java:49-52 | the validator is asked at most once, and only for a non-exempt request that carries both credential parts |
| `Interceptor.DecisionCharacterisation` | components/global/core/io.cellery.observability.api/src/main/java/io/cellery/observability/api/interceptor/AuthInterceptor.java:43-66 | result true iff exempt or both parts present and the validator accepts the token; false iff not exempt and a part is missing or the validator rejects or errors; index fault iff not exempt, both parts present and element 1 missing; the validator is asked that token exactly when the request is not exempt and the token exists (whatever it answers), and never on the exempt, missing-credential or fault paths |
| `Interceptor.ComposedTokenDecides` | components/global/core/io.cellery.observability.api/src/main/java/io/cellery/observability/api/interceptor/AuthInterceptor.java:42-66 | a GET of "/api/resource" with "Bearer abc" and cookie "xyz" asks the validator about "abcxyz" once, and its answer alone decides |
| `Interceptor.OidcOauthManager.ValidateToken` | components/global/core/io.cellery.observability.api/src/main/java/io/cellery/observability/api/interceptor/AuthInterceptor.java:52 | the verdict is the validator's answer for the token, and the token is recorded as asked |
| `Interceptor.AuthInterceptor.InterceptRequest` | components/global/core/io.cellery.observability.api/src/main/java/io/cellery/observability/api/interceptor/AuthInterceptor.java:42-67 | the outcome is `Decide`'s; status 401 is set exactly when the result is false and is otherwise left as it was; the validator is asked exactly `ValidatorCalls(request)` |
| `Interceptor.InterceptTwice` | components/global/core/io.cellery.observability.api/src/main/java/io/cellery/observability/api/interceptor/AuthInterceptor.java:42-67 | the gate keeps no state between requests: the same request decided twice gets the same outcome and status |

## Left out

- The OIDC validation itself (`ServiceHolder.getOidcOauthManager().validateToken`) is an external provider call. It is a fixed function from token to `Valid`, `Invalid` or `ProviderError`, injected into the interceptor instead of looked up through the global `ServiceHolder`. A validator whose answers change over time is not modelled.
- The msf4j `Request`/`Response` types are reduced to a record and a status field. Header-name case-insensitivity and cookie parsing are framework code. The request carries the `Authorization` value and the session-cookie value directly.
- A null method or URI is not modelled separately. `equalsIgnoreCase(null)` and `isNotEmpty(null)` give the same answers as the empty string, so the string fields cover both. A cookie whose value is null is represented by an empty value, which the gate also refuses.
- `JavaStrings.EqualsIgnoreCase`: ASCII case folding only. Java's Unicode folding also maps a few non-ASCII characters onto ASCII letters (for example the dotless `ı` to `I`), and that is not modelled.
- Only `OIDCProviderException` is caught at line 56. Any other failure at line 52 propagates uncaught instead of giving 401, for example a `RuntimeException` from `validateToken` or a null `ServiceHolder.getOidcOauthManager()`. `Verdict` has no value for these, so the model cannot express them.
- The debug logging of provider errors is a diagnostic side channel. It does not affect the decision.
- The Go agent code (file and database persisters, the tracing-agent `main.go`) and the Go test files are not part of this model. They are filesystem, SQL and goroutine wiring.
