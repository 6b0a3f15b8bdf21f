# Lobby client request helper, modelled in Dafny

The browser client of the game lobby sends every API call through one small
helper (`client/src/services/Api/index.js`). This project models that helper
and proves what it promises:

- `queryString(params)` writes a params object as `?k1=v1&k2=v2…`. Each key and
  value goes through `encodeURIComponent`, and an empty object gives the empty
  string.
- `headers()` builds the `Accept`, `Content-Type` and `Authorization` headers
  from the token in local storage. First it hands the stored text to
  `JSON.parse`, which throws on text that is not JSON.
- `parseResponse(response)` fulfils with the parsed body when `ok` is set and
  rejects with the same body otherwise.
- `get`, `post`, `patch` and `delete` each put together the URL, method,
  headers and body that they hand to `fetch`.

Files and modules:

- `wrappers.dfy` (`Wrappers`): `Option` and `Result`.
- `strings.dfy` (`Strings`): `Array.prototype.join` and `String.prototype.split`
  with a one-character separator, and the lemmas that each undoes the other.
- `uri.dfy` (`Uri`): `encodeURIComponent` and `decodeURIComponent` of ECMA-262.
  Characters outside the unreserved set of RFC 3986 section 2.3 (plus `!*'()`)
  become their UTF-8 octets (RFC 3629), written as `%HH` (RFC 3986 section 2.1).
  The model proves that encoded text never holds `&`, `=` or `?`, and that
  decoding gives the original text back.
- `json.dfy` (`Json`): a recognizer for the JSON-text grammar of ECMA-404
  (what `JSON.parse` accepts), and `JSON.stringify` of a string (QuoteJSONString
  of ECMA-262).
- `api.dfy` (`Api`): the helper itself.

The environment comes in as parameters:
- the API base URL, from the build-time variable `REACT_APP_API_URL`, is
  `Option<string>`; an unset variable prints as `undefined`;
- what `localStorage.getItem('token')` returned is `Option<string>`; `null`
  prints as `null`;
- the response `fetch` resolved with is its `ok` flag and its body text.

A params object is the sequence of its own keys, in `Object.keys` order, each
paired with its value as a string.

Signup stores the token as `JSON.stringify(token)`
(client/src/redux/modules/Auth/actions.js:29). `headers()` parses that text and
drops the result (client/src/services/Api/index.js:10), then puts the stored
text into the header. So the client sends `Authorization: Bearer: "<token>"`,
with the JSON quotes. The server's request test sends `Bearer: <token>` without
quotes (spec/requests/api/games_request_spec.rb:10). The model follows the
client code, and `Api.StoredPlainTokenHeaders` states the quoted form. How the
server reads the header is not part of this model.

## Model

| member | source | states |
|---|---|---|
| `Api.QueryString` | client/src/services/Api/index.js:31-35 | The query string is empty exactly when the object has no keys. Otherwise it starts with `?`, and no other `?` appears in it. |
| `Api.QueryStringDelimiterCount` | client/src/services/Api/index.js:32-34 | With n keys, the query string holds n - 1 `&`, n `=` and exactly one `?`. |
| `Api.QueryStringSplitsBack` | client/src/services/Api/index.js:32 | Take the text after `?`, split it on `&`, then split each piece on `=`. The result is exactly (encodeURIComponent(key), encodeURIComponent(value)) for every key, in key order. |
| `Api.QueryStringRoundTrip` | client/src/services/Api/index.js:32-34 | Splitting the query string back and percent-decoding each component gives the params object unchanged. |
| `Api.OnePiecePerKey` | client/src/services/Api/index.js:32 | Distinct keys give distinct encoded names, so every key has its own `name=value` piece. |
| `Uri.EncodeURIComponent` | client/src/services/Api/index.js:32 | The output contains only unreserved characters and `%`, and is at least as long as the input. |
| `Uri.DecodeEncode` | client/src/services/Api/index.js:32 | `decodeURIComponent(encodeURIComponent(s)) == s` for every string. |
| `Uri.EncodeInjective` | client/src/services/Api/index.js:32 | Two texts with the same encoding are equal. |
| `Strings.SplitJoin` | client/src/services/Api/index.js:32 | Joining parts that contain no separator, then splitting on it, gives back the same parts. |
| `Strings.JoinSplit` | client/src/services/Api/index.js:32 | Splitting any string and joining the pieces gives the string back. |
| `Strings.JoinSeparatorCount` | client/src/services/Api/index.js:32 | Joining n parts that contain no separator puts exactly n - 1 separators in the result. |
| `Api.Headers` | client/src/services/Api/index.js:5-18 | Throws `SyntaxError` exactly when the stored text is non-empty and not JSON. Otherwise returns three headers. |
| `Api.HeadersContents` | client/src/services/Api/index.js:13-17 | The headers are `Accept` and `Content-Type`, both `application/json`, and `Authorization`, which is `Bearer: ` followed by the stored text verbatim or by `null` when nothing is stored. |
| `Api.StoredTokenHeaders` | client/src/services/Api/index.js:7-16 | The signup action stores `JSON.stringify(token)` (client/src/redux/modules/Auth/actions.js:29). `headers()` never throws on that text, and `Authorization` is `Bearer: ` followed by that text verbatim, JSON quotes included. The result of `JSON.parse` is dropped. |
| `Api.StoredPlainTokenHeaders` | client/src/services/Api/index.js:16 | For a token with no quote, backslash or control character, such as a JWT, the header is `Bearer: "<token>"`. |
| `Api.UndefinedTokenThrows` | client/src/services/Api/index.js:8-11 | A signup response with no token leaves the text `undefined` in storage, and `headers()` throws on it. |
| `Json.QuoteIsJsonText` | client/src/redux/modules/Auth/actions.js:29 | `JSON.parse` accepts whatever `JSON.stringify` makes of any string. |
| `Json.QuotePlain` | client/src/redux/modules/Auth/actions.js:29 | A string with no quote, backslash or control character is stringified as itself in double quotes. |
| `Json.UndefinedIsNotJsonText` | client/src/services/Api/index.js:10 | `JSON.parse("undefined")` throws. |
| `Api.ResponseJson` | client/src/services/Api/index.js:21 | `response.json()` succeeds exactly when the body is JSON text, and then carries that body. |
| `Api.ParseResponse` | client/src/services/Api/index.js:20-29 | Fulfils exactly when `ok` is set and the body is JSON. It fulfils with the body. Otherwise it rejects with the same body when `ok` is unset, or with a `SyntaxError` when the body is not JSON. |
| `Api.ParseResponseOkDecides` | client/src/services/Api/index.js:23-27 | For a JSON body, only the `ok` flag decides between fulfilment and rejection, and both carry the same body. |
| `Api.Get` | client/src/services/Api/index.js:39-46 | Fails exactly when `headers()` throws. Otherwise it makes a GET to the base URL, then the path, then the query string, with the headers and no body. What follows the base URL and path decodes back to the params. |
| `Api.Post` | client/src/services/Api/index.js:48-57 | Fails exactly when `headers()` throws. Otherwise it makes a POST to the base URL plus the path, with no query. The body is the data's JSON text, or `{}` when the data is left out. |
| `Api.Patch` | client/src/services/Api/index.js:59-69 | Fails exactly when `headers()` throws. Otherwise it makes a PATCH to the base URL plus the path, with no query. The body is the data's JSON text, or no body when the data is left out. |
| `Api.Delete` | client/src/services/Api/index.js:71-78 | Fails exactly when `headers()` throws. Otherwise it makes a DELETE to the base URL plus the path, with no query and no body. |
| `Api.GetUrlReadsBack` | client/src/services/Api/index.js:40 | Suppose neither the base URL nor the path holds `?`. Cutting the `get` URL at its first `?` gives the base URL plus path before it, and the params, decoded unchanged and in order, from the rest. |
| `Api.SameTargetWithoutParams` | client/src/services/Api/index.js:39-78 | With no params, all four requests go to the base URL plus the path. |

## Left out

- The `fetch` calls, promise chaining and `.catch(console.log)` (lines 39-78) are network I/O. The model stops at the request each method would hand to `fetch`. It does not capture that `.catch(console.log)` turns every rejection into a fulfilment with `undefined`.
- `localStorage` and `process.env` are ambient state. Their values are parameters.
- `JSON.stringify(data)` of arbitrary request data (lines 49 and 60) is left out. `Api.Post` and `Api.Patch` take the data as the JSON text it stringifies to. Only the string case of `JSON.stringify` is modelled, in `Json.Quote`.
- `Api.ResponseJson`: the parsed body is represented by its validated text. The JavaScript value `JSON.parse` would build is not modelled.
- `Api.QueryString`: values that are not strings are taken as already converted by `ToString`. The order of keys is taken from `Object.keys`, so how an object orders integer-like keys ahead of the others is not modelled.
- `Uri.EncodeURIComponent`: Dafny characters are Unicode scalar values, so the `URIError` that JavaScript throws on a lone surrogate cannot arise.
- `client/src/redux/modules/Auth/actions.js` is not part of this model beyond the one line that stores the token. The rest is Redux dispatch, form reset and routing.
- The server side (token issue and verification, the 403 gate, title uniqueness, game status rules) is not part of this model. Its only source here is a request test of code that is not included.
