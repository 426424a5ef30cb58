# media-widget: the PKCE login, requests and time display of `widget.js`

A Dafny model of the logic inside the Spotify media widget's `widget.js`.
It covers five pieces:

- **Code verifier** (`generateCodeVerifier`): 128 characters drawn one at a
  time from the 66 unreserved characters. This is the code_verifier of
  section 4.1 of RFC 7636.
- **Code challenge** (`generateCodeChallenge`): SHA-256 over the UTF-8 bytes
  of the verifier, base 64 encoding (section 4 of RFC 4648), then the
  base64url rewrite without padding (section 5 of RFC 4648). Together these
  form the S256 method of section 4.2 of RFC 7636.
- **Authorization redirect** (`loginWithSpotify`): the URL built to send the
  user to the authorization server.
- **Redirect handling** (`handleRedirect`): the early return when there is no
  code, the token request with its form fields, and the single write of the
  module-level `accessToken`.
- **API requests and time display**: the `fetch` options of `spotifyApi`,
  and `formatTime`, which turns a playback position in milliseconds into `m:ss`.

The program is one file. The modules split it by concern: the browser APIs
it relies on, and the widget's own logic.

- `Pkce` (pkce.dfy) holds the verifier loop as a method proved against the
  function `Verifier`. It also holds the challenge, its base64url rewrite,
  and the rewrite's inverse.
- `Base64` (base64.dfy) is `btoa` over the digest bytes. It comes with a
  decoder, and encode-then-decode is proved to give back the same bytes.
- `Encoding` (encoding.dfy) holds UTF-8 (`TextEncoder`) and
  `encodeURIComponent`.
- `Text` (text.dfy) holds `replace` and `padStart`, which the widget calls
  (widget.js:20-22, 154). It also holds the `&`-splitting that the
  `URLSearchParams` parser performs and the `&`-joining that renders the query
  at widget.js:31.
- `Query` (query.dfy) holds the `name=value&...` query the authorization URL
  is written with, and the `URLSearchParams` reading of `location.search`.
- `Requests` (requests.dfy) holds the authorization URL, the token request
  and the `spotifyApi` request. Each is a record computed from its inputs.
- `Widget` (widget.dfy) holds the page's state as a class `Session`. Its
  fields are the token, `localStorage` and `location.search`, and its
  methods are login, redirect handling and API calls.
- `TimeFormat` (time_format.dfy) holds `formatTime` and the reading back
  of its output.

`Math.random`, `crypto.subtle.digest`, `JSON.stringify`, the token endpoint's
reply and `fetch` are parameters:

- `Math.random` is a sequence of draws.
- `crypto.subtle.digest` is a function from bytes to bytes.
- `JSON.stringify`, the token endpoint's reply and `fetch` are plain
  functions.

Navigation is represented by returning the URL or request that would be
sent.

In these edge cases the model follows `widget.js`:

- `spotifyApi` adds the JSON body and its `Content-Type` when the body is
  JavaScript-truthy (`if (body)`), not merely when it is non-null. So `0`,
  `false` and `""` are sent without a body.
- A missing stored verifier is sent as the text `null`, because
  `URLSearchParams` converts `null` to a string.
- A reply without `access_token` leaves the token `undefined`. Later
  requests then carry `Bearer undefined`.
- `if (!code)` also treats an empty `code=` as absent.

## Model

| member | source | states |
|---|---|---|
| Pkce.GenerateCodeVerifier | widget.js:7-14 | The loop's result is the string of `possible.charAt(draw)` for the first `length` draws. It has at most `length` characters, exactly `length` when every draw is in range, and every character is unreserved. |
| Pkce.CharAt | widget.js:11 | `charAt` gives a one-character string holding the character at the index, or `""` past the end. |
| Pkce.VerifierLength | widget.js:9-13 | The verifier is never longer than the number of draws. It is exactly as long if and only if every draw is below 66. |
| Pkce.VerifierCharacters | widget.js:10-12 | With in-range draws, character `i` of the verifier is `possible[draw i]`. |
| Pkce.VerifierAlphabet | widget.js:8-11 | Every character of a verifier is unreserved (section 2.3 of RFC 3986), whatever the draws. |
| Pkce.PossibleCharIsUnreserved | widget.js:8 | Every character of `possible` is unreserved. |
| Pkce.UnreservedIsPossible | widget.js:8 | Every unreserved character occurs in `possible`. |
| Pkce.PossibleIsUnreserved | widget.js:8 | `possible` has 66 characters. Every one of them is unreserved, and every unreserved character occurs among them. |
| Pkce.DefaultVerifierConforms | widget.js:7 | With the default length 128 and in-range draws, the verifier is a valid RFC 7636 code_verifier: 43 to 128 unreserved characters. |
| Encoding.Utf8Char | widget.js:17 | `TextEncoder` encodes one code point as 1 to 4 bytes. It uses one byte exactly for code points below 0x80, and that byte is the code point. Every byte of a longer encoding is at least 0x80. |
| Encoding.Utf8OfAscii | widget.js:17 | The UTF-8 bytes of an ASCII string (every verifier) are its character codes, one per character. |
| Base64.Sextet | widget.js:19 | Each 6-bit value maps to a base 64 alphabet character that decodes back to it. |
| Base64.EncodeLength | widget.js:19 | `btoa` output has `4 * ceil(n / 3)` characters, a multiple of four. |
| Base64.EncodeShape | widget.js:19 | `btoa` output is alphabet characters followed by exactly `(3 - n % 3) % 3` characters `=`. |
| Base64.DecodeEncode | widget.js:19 | Decoding the base 64 text gives back exactly the digest bytes. |
| Text.ReplaceChar | widget.js:20-21 | A global one-character `replace` keeps the length. It changes exactly the occurrences of the pattern, leaves none behind, and leaves every other character in place. |
| Text.StripTrailing | widget.js:22 | `replace(/=+$/, '')` gives a prefix after which only `=` follow, and which does not itself end in `=`. |
| Text.StripTrailingUnique | widget.js:22 | Those three conditions leave exactly one result. |
| Pkce.ChallengeCharacters | widget.js:19-22 | The challenge is the base 64 text without its padding. Each `+` becomes `-` and each `/` becomes `_`, every other character stays in order, and every character is base64url. |
| Pkce.ChallengeHasNoBase64Only | widget.js:19-22 | The challenge contains no `+`, no `/` and no `=`, and is made of unreserved characters. |
| Pkce.ChallengeOfDigestLength | widget.js:18-22 | A 32-byte digest encodes to 44 characters with exactly one trailing `=`. The challenge has 43 characters and is itself a valid code_verifier-length string. |
| Pkce.ChallengeRoundTrip | widget.js:19-22 | Re-padding and reversing the rewrite gives back the `btoa` text, which decodes to the digest. |
| Encoding.EncodeUriComponent | widget.js:31 | The encoded text is never shorter than the input. It consists only of the characters `encodeURIComponent` leaves alone (letters, digits, `-_.!~*'()`) and `%`. |
| Encoding.PercentBytesAlphabet | widget.js:31 | Percent-escaped bytes consist only of `%` and characters `encodeURIComponent` leaves alone (the upper-case hex digits). |
| Encoding.EncodeSafeIsIdentity | widget.js:31 | Text made only of safe characters passes through `encodeURIComponent` unchanged. |
| Encoding.EncodedHasNoDelimiters | widget.js:31 | Encoded text contains no `&`, `=` or `?`, so it cannot break the query. |
| Text.Split | widget.js:39 | The `URLSearchParams` parser's split of the query on `&` (the widget itself calls no `split`) gives at least one piece, no piece holds the separator, and joining the pieces gives the input back. |
| Text.JoinInjective | widget.js:31 | Joining separator-free pieces with `&`, as the query at widget.js:31 is written, is injective. |
| Text.SplitJoin | widget.js:31 | The parser's split on `&` of a query joined from `&`-free pieces gives back the pieces. |
| Query.ParseRender | widget.js:39-40 | `URLSearchParams` reads a rendered query, with or without its leading `?`, as the same parameters in the same order, provided no name holds `&` or `=` and no value holds `&`. |
| Query.GetMeaning | widget.js:40 | `get` returns null exactly when no parameter has the name. Otherwise it returns the value of the first parameter that has it. |
| Query.GetFirst | widget.js:40 | A parameter whose name no earlier parameter has is what `get` returns for that name. |
| Requests.AuthorizationParamsLookup | widget.js:31 | The authorization query has, under their own names: response_type=code, the client_id, the scope, the redirect_uri, code_challenge_method=S256 and the code_challenge. |
| Requests.AuthorizationParamsRenderable | widget.js:31 | No name of the authorization query holds `&` or `=`, and no value holds `&` when none was put in. |
| Requests.AuthorizationParamsRoundTrip | widget.js:31 | The authorization query reads back as exactly those six parameters, in the order the template writes them. |
| Requests.QueryOfJoined | widget.js:31 | The query of `endpoint?query` is `query` when the endpoint has no `?`. |
| Requests.ScopeHasNoDelimiter | widget.js:30-31 | The encoded scope contains no `&`. |
| Requests.AuthorizationUrlQuery | widget.js:27-31 | The authorization URL is the authorize endpoint plus `?` plus a query that reads back as the six parameters. The encoded scope and redirect URI and the given challenge are found under their names. |
| Requests.TokenRequestFields | widget.js:42-54 | The token request is a POST to the token endpoint with Content-Type application/x-www-form-urlencoded. Its form has exactly the fields grant_type=authorization_code, code, redirect_uri, client_id and code_verifier, in that order. The verifier is the stored one, or `null` as text when nothing is stored. |
| Requests.ApiRequestShape | widget.js:66-75 | The URL is the API base followed by the endpoint, and the method is the given one. The first header is `Authorization: Bearer <token>`. `Content-Type: application/json` and the stringified body are present if and only if the body is truthy. There are exactly two headers when the body is truthy and one otherwise. |
| Requests.DefaultApiRequest | widget.js:66-75 | `spotifyApi(endpoint)` with the defaults `method = 'GET'` and `body = null` is a GET of the API base plus the endpoint. Its only header is `Authorization: Bearer <token>`, and it has no body. |
| Requests.BearerTokenRoundTrip | widget.js:70 | The token can be read back from the Authorization header after `Bearer `. |
| Widget.StorageItem | widget.js:42 | `getItem` gives the stored string if and only if the key is stored, and null otherwise. |
| Widget.Session.constructor | widget.js:2-4 | A page starts with the token `''`, redirect URI = origin + pathname, and its search and storage. |
| Widget.Session.LoginWithSpotify | widget.js:26-32 | Stores a fresh 128-draw verifier under `widget_code_verifier` and changes nothing else. Returns the authorization URL carrying the challenge of exactly the stored verifier. |
| Widget.Session.HandleRedirect | widget.js:38-57 | With no non-empty `code`, it sends nothing and changes nothing. Otherwise it sends the token request for the code, the redirect URI and the stored verifier. The token becomes the reply's `access_token`, and the search is cleared. |
| Widget.Session.SpotifyApi | widget.js:66-77 | Returns what `fetch` answers to the request built from the token held at the time of the call. |
| Widget.RedirectCarriesCode | widget.js:39-41 | `?code=<c>` yields `c` as the code, and passes the `!code` test if and only if `c` is non-empty. |
| Widget.EmptySearchHasNoCode | widget.js:57 | After `replaceState` the address carries no code, so a second handling sends nothing. |
| Widget.ChallengeHasNoAmpersand | widget.js:19-31 | No code challenge contains `&`, so it reads back whole from the authorization URL. |
| Widget.LoginAndRedirect | widget.js:26-57 | Across login and redirect, the token request carries the returned code. It carries the verifier whose S256 challenge went out in the authorization URL (section 4.6 of RFC 7636), and the same redirect URI whose encoding went out. The token becomes the reply's, and handling the redirect again sends nothing. |
| TimeFormat.DecimalString | widget.js:154 | `toString` of a natural gives at least one digit and no leading zero, and has one digit exactly when the number is below 10. |
| TimeFormat.DecimalRoundTrip | widget.js:154 | The digits of a number denote that number. |
| Text.PadStart | widget.js:154 | `padStart` gives length `max(|s|, n)`: filler characters followed by `s`. |
| TimeFormat.TwoDigitsValue | widget.js:154 | Seconds below 100, padded, are exactly two digits denoting the seconds. |
| TimeFormat.ColonAt | widget.js:154 | The colon after the minutes is the first colon of the result. |
| TimeFormat.FormatTimeBounds | widget.js:151-155 | `formatTime(ms)` reads back as (ms / 60000, (ms % 60000) / 1000). The seconds are exactly two digits in 0..59, and `min*60000 + sec*1000 <= ms < min*60000 + (sec+1)*1000`. |
| TimeFormat.WholeSeconds | widget.js:152-153 | Minutes and seconds of `ms` are those of `ms / 1000` whole seconds. |
| TimeFormat.FormatTimeInjective | widget.js:151-155 | Two positions display alike if and only if they fall in the same whole second. |

## Left out

- service-worker.js: it is plumbing over the browser Cache API with no logic of its own, so it is not part of this model.
- Asynchrony: `await`, the interleaving of concurrent UI actions, and `setTimeout` (widget.js:109). The model runs each function to completion.
- DOM work: DOM lookups, button and icon toggling, `getCurrentPlayback`, `searchSongs`, playback controls (widget.js:58-60, 80-183), and the drag logic (widget.js:186-206). These are rendering and pixel arithmetic on browser-supplied numbers.
- `crypto.subtle.digest` and `Math.random` are parameters. SHA-256 is not modelled, and nothing says the draws are uniform.
- `JSON.stringify`, `fetch`, `response.json()` and the token endpoint are parameters. Their results are taken as given.
- Widget.Session.LoginWithSpotify: the navigation `window.location = authUrl` (widget.js:32) is the returned URL. The page unload is not modelled.
- Widget.Session.HandleRedirect: `replaceState` is modelled as clearing the search only. The history entry and document title are not modelled.
- Widget.CodeParam and Query.Parse: `URLSearchParams` percent-decoding and `+`-to-space are not modelled, so a code or value holding escapes is read as written.
- Requests.TokenRequestFields: the serialization of the form body into `a=b&c=d` text with its form-urlencoding is not modelled. The form is the ordered field list.
- Widget.Session.HandleRedirect: the path where `fetch` or `response.json()` rejects is not modelled. On that path widget.js:56-57 is never reached, so the token and the address with its code stay unchanged. The model's `respond` always answers.
- Widget.TokenResponse: an `access_token` that is present but not a string (a number, `null`) is not modelled. A reply either carries a string or leaves the token `undefined`.
- Requests.Truthy: JavaScript numbers are integers here. `NaN`, `-0`, fractions, `BigInt` and symbols are not modelled.
- TimeFormat.FormatTimeBounds: negative, fractional or non-finite milliseconds are not modelled, because `%` and `Math.floor` differ there.
- Encoding.Utf8Char: lone surrogates, which `TextEncoder` replaces with U+FFFD, are not modelled. Dafny's `char` in this model is a Unicode scalar value.
