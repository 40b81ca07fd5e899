# Siemens Miniweb default-login check

This project models the vendor-specific part of the Siemens Miniweb default-login
check. The generic brute-force engine calls two callbacks for each credential,
and both work on a shared request description called `task_information`:

- `build_post_request` fetches the login URI. When
  `/siemens_ad_session=(.*?);/i` matches the response's `Set-Cookie` text
  (the name in any letter case, anywhere in the text, followed by a `;` on the
  same line), it keeps the captured value as `Cookie: siemens_ad_session=<v>;`;
  otherwise it leaves the headers as they were. So an unterminated
  `siemens_ad_session=abc` is not kept, while `foo=siemens_ad_session=x;`
  yields `x`. It then writes the user and password into
  the form fields `Login` and `Password` and always reports success, so the
  attempt goes ahead even without a session.
- `validator` takes the login response and, from its `Set-Cookie`, writes
  `Cookie: siemens_ad_secure_session=; siemens_ad_session=<v>;`, with v the
  same pattern's capture. When the header is absent or the pattern does not
  match it writes the fixed default
  `siemens_ad_secure_session=; siemens_ad_session=;`. It then fetches the
  `Redirection` page with those headers and succeeds exactly when the page
  contains `You are logged in.`, ignoring case.

Files:

- `wrappers.dfy` (module `Wrappers`): `Option`, standing for Ruby's `nil`.
- `matching.dfy`, module `IgnoreCase`: case-insensitive search for a literal
  pattern, specified by `OccursAt`.
- `matching.dfy`, module `SessionCookie`: the regex
  `/siemens_ad_session=(.*?);/i`. It is computed left to right by
  `ExtractSession` and specified declaratively by `LeftmostCapture`: the match
  is the leftmost occurrence of the name in any letter case whose
  newline-free run reaches a `;`, and the capture stops at the first `;`.
  `ExtractSessionSpec` and `ExtractSessionNone` prove that the two agree.
- `miniweb_login.dfy` (module `MiniwebLogin`): the class `TaskInformation`
  with the `headers` and `data` maps that the two callbacks update in place.
  Its methods `BuildPostRequest` and `Validator` are the two callbacks. The
  functions `PrimedHeaders`, `ValidatorCookie`, `WithCredential` and `LoggedIn`
  give the new state and the verdict.

HTTP requests are not performed. Each callback takes the transport as a
parameter `get: GetRequest -> Response`, and its postcondition names the request
it issues: the login URI with no headers for `build_post_request`, and
`data['Redirection']` (None where Ruby's hash gives nil) with the updated headers
for `validator`. A response is the text of its `Set-Cookie` header (None when
absent) plus its already-decoded body.

One consequence of the code, proved in `ValidatorCookieIsDefault`: a
`Set-Cookie` text whose leftmost match captures the empty value (for example
`siemens_ad_session=; Path=/`) makes `validator` write exactly the default
Cookie string, the same as when there is no session at all. Only the leftmost
match counts (`LeftmostSessionWins`): `siemens_ad_session=abc; siemens_ad_session=;`
gives `siemens_ad_secure_session=; siemens_ad_session=abc;`.

## Model

| member | source | states |
|---|---|---|
| IgnoreCase.IndexFromSpec | lib/tasks/vuln/bruteforce/siemens_miniweb_default_login.rb:113 | the scan returns the first index at or after the start where the pattern occurs ignoring case, and None only when it occurs at no such index |
| IgnoreCase.ContainsIgnoringCase | lib/tasks/vuln/bruteforce/siemens_miniweb_default_login.rb:113 | a literal pattern matches with `/i` exactly when it occurs somewhere in the text, compared by case fold |
| SessionCookie.CaptureSpec | lib/tasks/vuln/bruteforce/siemens_miniweb_default_login.rb:95 | the lazy group `(.*?);` run from a position yields the newline-free, `;`-free text up to the first `;`, and fails exactly when no such capture exists |
| SessionCookie.CaptureUnique | lib/tasks/vuln/bruteforce/siemens_miniweb_default_login.rb:95 | from a given start the lazy group has at most one capture |
| SessionCookie.ScanSpec | lib/tasks/vuln/bruteforce/siemens_miniweb_default_login.rb:95 | trying every start position from i returns the capture of the first position where the whole pattern matches, or None when none matches |
| SessionCookie.ExtractSession | lib/tasks/vuln/bruteforce/siemens_miniweb_default_login.rb:95 | the regex match itself: a value it returns is the group of the leftmost match, and None means the pattern matches at no position; `ExtractSessionSpec` and `ExtractSessionNone` add the converse directions |
| SessionCookie.ExtractSessionSpec | lib/tasks/vuln/bruteforce/siemens_miniweb_default_login.rb:95 | the extracted value is v exactly when v is the capture of the leftmost case-insensitive match (both directions) |
| SessionCookie.ExtractedValueIsClean | lib/tasks/vuln/bruteforce/siemens_miniweb_default_login.rb:121 | an extracted cookie value never holds a `;` or a newline |
| SessionCookie.ExtractSessionNone | lib/tasks/vuln/bruteforce/siemens_miniweb_default_login.rb:95-97 | the match is nil exactly when the pattern matches at no position (both directions) |
| SessionCookie.NoSemicolonNoSession | lib/tasks/vuln/bruteforce/siemens_miniweb_default_login.rb:95 | header text with no `;` never yields a session, even when it holds an unterminated `siemens_ad_session=<v>` |
| SessionCookie.SessionOnFreshLine | lib/tasks/vuln/bruteforce/siemens_miniweb_default_login.rb:121 | a session cookie whose name is in any letter case, at the start of the text or after a newline that ends match-free text, yields exactly its value, whatever follows its `;` |
| SessionCookie.NoMatchAcrossNewline | lib/tasks/vuln/bruteforce/siemens_miniweb_default_login.rb:95 | a match cannot span a newline, so one that starts before a newline-terminated prefix ends inside that prefix |
| MiniwebLogin.SessionValue | lib/tasks/vuln/bruteforce/siemens_miniweb_default_login.rb:90-97 | no `Set-Cookie` header gives no session; otherwise the session is none exactly when the pattern matches nowhere, and is v exactly when v is the leftmost capture; the value holds no `;` or newline |
| MiniwebLogin.SessionPairRoundTrip | lib/tasks/vuln/bruteforce/siemens_miniweb_default_login.rb:127 | the pair `siemens_ad_session=<v>;` read back through the cookie pattern yields v, for every value the pattern can capture |
| MiniwebLogin.ValidatorCookie | lib/tasks/vuln/bruteforce/siemens_miniweb_default_login.rb:90-105 | the Cookie is the default string when `Set-Cookie` is absent or the pattern matches nowhere, and `siemens_ad_secure_session=; siemens_ad_session=<v>;` when v is the leftmost capture |
| MiniwebLogin.ValidatorCookieIsDefault | lib/tasks/vuln/bruteforce/siemens_miniweb_default_login.rb:91-104 | the Cookie equals the default string exactly when there is no session value or the captured value is empty |
| MiniwebLogin.LeftmostSessionWins | lib/tasks/vuln/bruteforce/siemens_miniweb_default_login.rb:95-104 | when the `Set-Cookie` text starts with a session pair `siemens_ad_session=<v>;`, whatever text follows it (later session pairs included, even an empty one), the Cookie `validator` writes is `siemens_ad_secure_session=; siemens_ad_session=<v>;` |
| MiniwebLogin.ValidatorCookieCarriesSession | lib/tasks/vuln/bruteforce/siemens_miniweb_default_login.rb:103-104 | the Cookie starts with the empty secure-session pair, and the rest reads back through the cookie pattern to the response's session value, or to the empty value when there was none |
| MiniwebLogin.PrimedHeaders | lib/tasks/vuln/bruteforce/siemens_miniweb_default_login.rb:119-128 | the headers are unchanged when `Set-Cookie` is absent or unmatched; on a match only Cookie changes, to `siemens_ad_session=<v>;`; every other header keeps its value or its absence |
| MiniwebLogin.PrimedCookieCarriesSession | lib/tasks/vuln/bruteforce/siemens_miniweb_default_login.rb:127 | when a session was found, the primed Cookie header reads back through the cookie pattern to that same value |
| MiniwebLogin.WithCredential | lib/tasks/vuln/bruteforce/siemens_miniweb_default_login.rb:133-134 | `Login` holds the user and `Password` the password; the keys are the old keys plus these two; every other field (`Token`, `Redirection`, ...) keeps its value or its absence |
| MiniwebLogin.LoggedIn | lib/tasks/vuln/bruteforce/siemens_miniweb_default_login.rb:113 | the verdict is true exactly when `You are logged in.` occurs in the body, compared by case fold |
| MiniwebLogin.LoggedInAnyCase | lib/tasks/vuln/bruteforce/siemens_miniweb_default_login.rb:113 | the marker in any letter case, anywhere in the body, gives success |
| MiniwebLogin.LoggedInNeedsDot | lib/tasks/vuln/bruteforce/siemens_miniweb_default_login.rb:113 | the escaped period is a literal dot: a body without `.` never gives success |
| MiniwebLogin.TaskInformation.ForTarget | lib/tasks/vuln/bruteforce/siemens_miniweb_default_login.rb:50-66 | the initial description: POST to `<base>/FormLogin`, the three headers, the `Token` and `Redirection` fields, redirects followed, timeout 10, the configured thread count |
| MiniwebLogin.TaskInformation.BuildPostRequest | lib/tasks/vuln/bruteforce/siemens_miniweb_default_login.rb:116-137 | issues a plain GET to the login URI; the new headers are `PrimedHeaders` of the old ones for that response; the form becomes `WithCredential` of the old one; the result is always true |
| MiniwebLogin.TaskInformation.Validator | lib/tasks/vuln/bruteforce/siemens_miniweb_default_login.rb:88-114 | the form is unchanged; only Cookie changes, to `ValidatorCookie` of the login response; the result is `LoggedIn` of the page fetched from `Redirection` with the updated headers |

## Left out

- The HTTP transport (`http_request`): it is a parameter of each callback. A failed request, which would make the Ruby code raise on a nil response, is not modelled.
- The brute-force engine `bruteforce_login`, its thread pool and the race on the shared `task_information`: the helper that defines them is not part of this model, and the race is a concurrency matter.
- Task metadata, the fingerprint checks, issue creation and all logging: configuration and reporting side effects with no bearing on the callbacks' results.
- URI parsing: the scheme, host and port reach `ForTarget` as strings already taken apart.
- Ruby's `to_s` rendering of a multi-valued `Set-Cookie` header: the header is taken as one string of decoded characters. A header with bytes invalid in its encoding, on which Ruby's `match` raises instead of returning nil, is not modelled.
- Ruby hashes keep insertion order (`Cookie` is appended after `Referer`, `Login` and `Password` after `Redirection`, which fixes the order of the POST form fields); `map<string, string>` has no order, so the model does not capture it. Only the engine, which is not part of this model, could observe it.
- The credential list of `run` (one `Administrator`/`100` pair) belongs to the task's setup, outside the two callbacks; it is not modelled.
- Body decoding (`body_utf8`): the body is taken as already decoded.
- Case folding covers ASCII letters only. Ruby's regex engine also folds some non-ASCII characters; for example U+017F (long s) matches `s` under `/i`. Such text is not modelled.
- MiniwebLogin.TaskInformation.Validator: returns a Boolean where Ruby returns the MatchData object or nil; the engine is assumed to test only its truth value, and its code is not part of this model.
