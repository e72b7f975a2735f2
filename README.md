# BasicAuthEdge in Dafny

BasicAuthEdge is a CloudFront viewer-request function (`func/index.js`) that
puts HTTP Basic authentication in front of a site. For every request it
forwards the request to the origin unchanged, answers with one fixed 401
response that carries a `Basic realm="Secure Area"` challenge, or (credentials
parsed but no `host` header) throws.

The handler takes the second space-separated token of the `Authorization`
header and decodes it with `atob`. It splits the decoded text on `:` into
exactly a username and a password. It takes an environment and an app from
the first two `.`-separated labels of the host name, and checks the
environment, the app and the username with `isValidPart`. It then reads the
secret stored under `environment/app/username` in the edge key/value store,
and compares it with the password using `timingSafeEqual`.

The project is made of these modules:

- `Wrappers`: `Option` and `Result`.
- `JsString`: the parts of JavaScript string semantics that the handler relies on.
  - `Split` is `String.prototype.split` with a one-character separator, so `"".split(".")` is `[""]`.
  - `CodeAt` is `charCodeAt` as `^` sees it, over strings of Unicode scalar values: past the end, `NaN` becomes 0.
- `Base64`: `atob`, modelled as the WHATWG "forgiving-base64 decode" over the alphabet of section 4 of RFC 4648.
  - `atob` returns a binary string with one character per byte.
  - The padded RFC 4648 encoder is the reference that decoding is proved to invert.
- `BasicAuth`: the handler and its helpers.
  - The data model and `UnauthorizedResponse`.
  - `IsValidPart`, the `TimingSafeEqual` method and the key template.
  - The guards, as the pure specification `Inspect`/`Outcome`.
  - The imperative `Handler` method, proved to compute `Outcome`.
  - The store is a `Store` object whose contents are a function `string -> StoreReply`. A reply is a string, `null`, or an exception. `Handler` reads it through `Get` alone, and `Get` records every key it is asked for.
  - A request whose credentials parse but that has no `host` header makes the function throw (the `Uncaught` verdict).
- `AuthProperties`: what the gate guarantees.
  - Each early return gives 401, whatever the store holds.
  - The request passes exactly when the store gives a non-empty secret that `timingSafeEqual` matches.
  - Every denial is the same response.
  - Well-formed credentials reach the lookup intact.
- `Scenario`: one concrete request, worked end to end. The host is `dev.myapp.example.com` and the header is `Basic ZGV2dXNlcjpzZWNyZXQxMjM=`.

Some JavaScript behaviours are modelled exactly as the code has them, and each one is stated as a lemma:

- A missing position compares as code 0, so `"a"` matches `"a\0"`, and an empty password matches a secret made only of NUL characters.
- A host without a `.` yields the app label `undefined`, which `isValidPart` accepts.
- The scheme word before the token is never checked.
- A password containing `:` is always refused. Section 2 of RFC 7617 splits at the first colon only, but this code requires exactly two fields.

## Model

| member | source | states |
|---|---|---|
| `AuthProperties.DenialIsFixed` | func/index.js:6-16 | Every denial is status 401 "Unauthorized" with the `www-authenticate: Basic realm="Secure Area"` and `content-type: text/html` headers and the body `Unauthorized: Access is denied.`; nothing in it depends on the request or the store |
| `BasicAuth.IsValidPartIff` | func/index.js:18-21 | `isValidPart(s)` holds exactly when `s` is non-empty and every character is in `[a-zA-Z0-9\-_.@]` (both directions) |
| `BasicAuth.ValidPartSeparators` | func/index.js:18-21 | A valid part holds no `/`, no `:` and no space |
| `BasicAuth.TimingSafeEqual` | func/index.js:23-30 | The result is true exactly when the codes agree at every position below the longer length, with code 0 past an end. The loop runs exactly as many rounds as the longer length, with no early exit. For equal lengths the result is string equality |
| `BasicAuth.BitXorZero` | func/index.js:27 | `x ^ y` is 0 exactly when `x == y` |
| `BasicAuth.BitOrZero` | func/index.js:27 | `x OR y` is 0 exactly when both are 0, so the accumulator stays 0 only while every position matched |
| `JsString.CodeAt` | func/index.js:27 | A character code, or 0 past the end (`NaN ^ x` is `x`), is below 0x110000, inside 21 bits |
| `BasicAuth.PaddedEqualIff` | func/index.js:23-30 | timingSafeEqual holds exactly when the two strings are equal once trailing NUL characters are removed |
| `BasicAuth.PaddedEqualSameLength` | func/index.js:23-30 | On strings of one length, timingSafeEqual is plain equality (both directions) |
| `BasicAuth.PaddedEqualReflexiveAndStrict` | func/index.js:23-30 | Every string matches itself, and one position below the longer length where the codes differ makes the comparison fail |
| `BasicAuth.PaddedEqualTrailingNuls` | func/index.js:24-28 | A string matches itself with NULs appended, though the two differ, and the empty string matches any all-NUL string |
| `JsString.Split` | func/index.js:40 | `split` with one separator gives at least one field, and no field holds the separator |
| `JsString.JoinSplit` | func/index.js:40 | Joining the fields of a split with the separator gives back the input |
| `JsString.SplitCount` | func/index.js:52 | A split has one more field than the input has separators |
| `Base64.Atob` | func/index.js:47 | A successful `atob` returns a binary string, every character below 256 |
| `Base64.DecodeRejectsForeignChar` | func/index.js:45-50 | A character that is not in the alphabet, not `=` and not ASCII whitespace makes `atob` throw, wherever it stands |
| `Base64.DecodeEncode` | func/index.js:47 | Decoding inverts padded base64 encoding for every byte string |
| `Base64.AtobOfEncoded` | func/index.js:47 | `atob(btoa(s)) == s` for every binary string `s` |
| `BasicAuth.ParseAuthorization` | func/index.js:40-57 | Accepted credentials hold no `:`, the header has a second token, and that token decodes to exactly `username:password` |
| `BasicAuth.HostLabels` | func/index.js:60-62 | The environment and app labels of the host hold no `.` |
| `BasicAuth.LookupKeyFields` | func/index.js:72 | A key splits on `/` back into its environment, app and username when none holds a `/` |
| `BasicAuth.LookupKeyInjective` | func/index.js:72 | Distinct valid (environment, app, username) triples give distinct keys |
| `BasicAuth.Inspect` | func/index.js:36-72 | When the guards pass, the lookup key is three valid parts joined by `/`. A missing host header is noticed only after the credentials parse |
| `BasicAuth.Store.constructor` | func/index.js:4 | A new store holds the given contents and has recorded no lookup |
| `BasicAuth.Store.Get` | func/index.js:74-76 | A lookup returns what the store holds under the key, and exactly that key is appended to the record of lookups |
| `BasicAuth.Handler` | func/index.js:32-90 | The handler's verdict is `Outcome(req, store.contents)`. The record of `Get` calls grows by exactly the lookup key when every guard passed, and by nothing when a guard returned the 401 or the host header was missing |
| `AuthProperties.StoreLocality` | func/index.js:72-89 | The verdict depends on the store only through the value under the lookup key, and not at all when the handler stops before the lookup |
| `AuthProperties.MissingHostThrows` | func/index.js:56-62 | Credentials that parse but no `host` header: the unguarded read of `headers.host.value` throws, outside any `try` |
| `AuthProperties.MissingHostNeverAllowed` | func/index.js:36-62 | A request without a `host` header gets the 401 or throws; it is never let in |
| `AuthProperties.ParseAuthorizationComplete` | func/index.js:40-57 | Converse of `ParseAuthorization`: any header whose second token `atob` decodes to `username:password`, no `:` in either, is accepted with exactly those credentials, padded or not |
| `AuthProperties.GuardsPassed` | func/index.js:56-72 | Credentials that parse, with a host whose first two labels and the username pass `isValidPart`, reach the lookup under `environment/app/username` with the decoded password |
| `AuthProperties.MissingAuthorizationDenied` | func/index.js:36-38 | No `authorization` header: rejected before the lookup, verdict 401, with or without a host header |
| `AuthProperties.MissingTokenDenied` | func/index.js:40-43 | No non-empty second space-separated token: rejected before the lookup, verdict 401 |
| `AuthProperties.UndecodableTokenDenied` | func/index.js:45-50 | A token on which `atob` throws: rejected before the lookup, verdict 401 |
| `AuthProperties.NotOneColonDenied` | func/index.js:52-54 | Decoded text without exactly one `:` (so a password containing `:`): rejected before the lookup, verdict 401 |
| `AuthProperties.InvalidPartDenied` | func/index.js:64-70 | An environment, app or username failing `isValidPart`: rejected before the lookup, verdict 401 |
| `AuthProperties.RejectionIgnoresStore` | func/index.js:36-70 | Whenever a guard rejects, the verdict is the 401 response for every store |
| `AuthProperties.AllowIff` | func/index.js:73-89 | The request passes exactly when the guards passed, the store gave a non-empty string, and timingSafeEqual matched it (both directions). A passing request is returned unchanged |
| `AuthProperties.StoreMissDenied` | func/index.js:73-89 | `null`, the empty string and a thrown lookup all give 401 |
| `AuthProperties.LookupPasswordHasNoColon` | func/index.js:52-57 | A password that reaches the lookup holds no `:` |
| `AuthProperties.ColonSecretNeverMatches` | func/index.js:78-81 | A stored secret containing `:` never matches a password without one |
| `AuthProperties.ColonSecretNeverAllowed` | func/index.js:52-86 | No request is ever let in against a stored secret containing `:` |
| `AuthProperties.HostLabelsOfName` | func/index.js:60-62 | For the host `environment.app` or `environment.app.<domain>`, the labels are the environment and the app |
| `AuthProperties.HostWithoutDot` | func/index.js:60-66 | A host without a `.` has the app label "undefined", and `isValidPart` accepts it |
| `AuthProperties.ParseEncodedCredentials` | func/index.js:40-57 | `<scheme> base64(username:password)` parses back to that username and password, for any scheme word without a space |
| `AuthProperties.ValidCredentialsAllowed` | func/index.js:32-90 | Well-formed credentials reach the lookup under `environment/app/username` with the password as sent. The request passes when the store holds that non-empty password |
| `Scenario.HeaderEncodesPlain` | func/index.js:40-47 | `Basic ZGV2dXNlcjpzZWNyZXQxMjM=` carries the base64 encoding of `devuser:secret123` |
| `Scenario.DevRequest` | func/index.js:32-90 | The host `dev.myapp.example.com` with that header looks up `dev/myapp/devuser` with the password `secret123`. It passes when the store holds `secret123` and gets 401 when the store holds `secret124` |

## Left out

- The CloudFront runtime import and the construction of the key/value store handle from its id (func/index.js:1-4). A `Store` object is built from its contents instead.
- `async`/`await` and the network call behind `kvsHandle.get` (func/index.js:74-76). The lookup is one atomic call of `Store.Get`.
- Real timing. Constant time cannot be stated in Dafny. `TimingSafeEqual` states only that the loop has a fixed round count with no early exit.
- The commented-out test harness (func/index.js:92-109).
- The JavaScript object shapes. A header is a name mapped to its value string (not a `{value}` object). The response headers are a map of strings.
- `headers.authorization.length === 0` (func/index.js:36). The header is an object with no `length`, so this test never holds and is not modelled.
- BasicAuth.Handler: the exception thrown when credentials parse and no `host` header is present (func/index.js:60, outside any `try`) is the verdict `Uncaught`. What CloudFront then sends the viewer is not modelled. A request without a host and with a missing or malformed `authorization` header gets the 401, as in the code.
- BasicAuth.Handler: the record of lookups counts calls of `Store.Get`. `contents` is a field the method could also read directly, so "one read" is a fact about the method's code, not a guarantee Dafny gives about every reader. What Dafny guarantees about the verdict is `StoreLocality`: it depends on the store only through the value under the lookup key.
- JsString.CodeAt: indexes Unicode scalar values, not UTF-16 code units. For a character outside the Basic Multilingual Plane it gives the whole code point where `charCodeAt` gives one surrogate half.
- BasicAuth.TimingSafeEqual: strings are sequences of Unicode scalar values, not UTF-16 code units. The verdict is the same: equality up to trailing NULs is preserved by the UTF-16 encoding. But for text outside the Basic Multilingual Plane the round count is the number of scalar values, not the number of code units.
- `ToInt32` of the XOR and OR results is not written out. Every operand is below 2^21, so it changes nothing.
- The exact `atob` of the JavaScript runtime is not part of this model. `Base64.Atob` is the WHATWG forgiving-base64 decode, and a runtime that is stricter or looser about padding would differ on those inputs.
- The parameter-store backend and any 500 response. Neither appears in the code.
- The first-colon split of section 2 of RFC 7617. The code requires exactly two `:`-separated fields (func/index.js:52), and the model follows the code.
