/**
  The request helper of the lobby's browser client: how it writes a
  params object as a URL query, the headers it sends with every request,
  how it splits a response into success and rejection, and the URL,
  method, headers and body of the four requests it makes.

  Inputs from the environment are parameters: the API base URL (a build-time
  environment variable), the text that `localStorage.getItem('token')`
  returned, and the response the network produced.
 */
module Api {

  import opened Wrappers
  import Strings
  import Uri
  import Json

  // Query string

  /**
    A params object, as the pairs of its own keys (in `Object.keys` order)
    and their values.
   */
  type Params = seq<(string, string)>

  /** `${encodeURIComponent(key)}=${encodeURIComponent(value)}` */
  function EncodePair(pair: (string, string)): (r: string)
  {
    Uri.EncodeURIComponent(pair.0) + "=" + Uri.EncodeURIComponent(pair.1)
  }

  function EncodedPairs(params: Params): (r: seq<string>)
    ensures |r| == |params|
  {
    seq(|params|, i requires 0 <= i < |params| => EncodePair(params[i]))
  }

  /** The `query` of `queryString`: the encoded pairs joined by `&`. */
  function Query(params: Params): string
  {
    Strings.Join(EncodedPairs(params), '&')
  }

  /** An encoded pair holds one `=` and neither `&` nor `?`. */
  lemma EncodedPairShape(pair: (string, string))
    ensures '&' !in EncodePair(pair) && '?' !in EncodePair(pair)
    ensures multiset(EncodePair(pair))['='] == 1
  {
    var k, v := Uri.EncodeURIComponent(pair.0), Uri.EncodeURIComponent(pair.1);
    Uri.EncodedHasNoDelimiters(k);
    Uri.EncodedHasNoDelimiters(v);
    assert multiset(k)['='] == 0 && multiset(v)['='] == 0;
    assert EncodePair(pair) == k + ("=" + v);
  }

  lemma EncodedPairsShape(params: Params)
    ensures Strings.FreeOf(EncodedPairs(params), '&')
    ensures Strings.FreeOf(EncodedPairs(params), '?')
  {
    forall i | 0 <= i < |params| ensures '&' !in EncodedPairs(params)[i] && '?' !in EncodedPairs(params)[i] {
      EncodedPairShape(params[i]);
    }
  }

  /**
    `queryString(params)`: the query with a leading `?`, or nothing at all
    when there are no keys.
   */
  function QueryString(params: Params): (r: string)
    ensures r == [] <==> params == []
    ensures r != [] ==> r[0] == '?' && '?' !in r[1..]
  {
    var q := Query(params);
    EncodedPairsShape(params);
    Strings.JoinKeepsOut(EncodedPairs(params), '&', '?');
    assert params != [] ==> |q| >= |EncodePair(params[0])| > 0;
    if |q| > 0 then "?" + q else q
  }

  /** The number of `&`, `=` and `?` in a query string: n keys give n - 1 `&`, n `=` and one `?`. */
  lemma QueryStringDelimiterCount(params: Params)
    requires params != []
    ensures multiset(QueryString(params))['&'] == |params| - 1
    ensures multiset(QueryString(params))['='] == |params|
    ensures multiset(QueryString(params))['?'] == 1
  {
    var parts := EncodedPairs(params);
    EncodedPairsShape(params);
    Strings.JoinSeparatorCount(parts, '&');
    Strings.JoinCount(parts, '&', '=');
    Strings.JoinKeepsOut(parts, '&', '?');
    EqualsCount(params);
    assert QueryString(params) == "?" + Query(params);
  }

  lemma EqualsCount(params: Params)
    ensures Strings.CountIn(EncodedPairs(params), '=') == |params|
  {
    forall i | 0 <= i < |params| ensures multiset(EncodedPairs(params)[i])['='] == 1 {
      EncodedPairShape(params[i]);
    }
    CountOnce(EncodedPairs(params), '=');
  }

  lemma {:induction false} CountOnce(parts: seq<string>, c: char)
    requires forall i :: 0 <= i < |parts| ==> multiset(parts[i])[c] == 1
    ensures Strings.CountIn(parts, c) == |parts|
  {
    if parts != [] {
      CountOnce(parts[1..], c);
    }
  }

  // Reading a query string back

  /** One `&`-separated piece, split on `=` into name and value; `None` unless there is exactly one `=`. */
  function ReadPair(piece: string): (r: Option<(string, string)>)
  {
    var halves := Strings.Split(piece, '=');
    if |halves| == 2 then Some((halves[0], halves[1])) else None
  }

  function ReadPairs(pieces: seq<string>): (r: Option<seq<(string, string)>>)
    ensures r.Some? ==> |r.value| == |pieces|
  {
    if pieces == [] then Some([])
    else match (ReadPair(pieces[0]), ReadPairs(pieces[1..]))
      case (Some(p), Some(ps)) => Some([p] + ps)
      case _ => None
  }

  /** The still-encoded pairs of a query string: drop `?`, split on `&`, split each piece on `=`. */
  function ReadQuery(r: string): (pairs: Option<seq<(string, string)>>)
  {
    if r == [] then Some([])
    else if r[0] != '?' then None
    else ReadPairs(Strings.Split(r[1..], '&'))
  }

  /** What a reader of the query gets back: each component percent-decoded. */
  function DecodePairs(pairs: seq<(string, string)>): (r: Option<Params>)
    ensures r.Some? ==> |r.value| == |pairs|
  {
    if pairs == [] then Some([])
    else match (Uri.DecodeURIComponent(pairs[0].0), Uri.DecodeURIComponent(pairs[0].1), DecodePairs(pairs[1..]))
      case (Some(k), Some(v), Some(rest)) => Some([(k, v)] + rest)
      case _ => None
  }

  /** Each pair with both components encoded, in key order. */
  function EncodedComponents(params: Params): (r: seq<(string, string)>)
    ensures |r| == |params|
  {
    seq(|params|, i requires 0 <= i < |params| =>
      (Uri.EncodeURIComponent(params[i].0), Uri.EncodeURIComponent(params[i].1)))
  }

  lemma ReadEncodedPair(pair: (string, string))
    ensures ReadPair(EncodePair(pair)) ==
      Some((Uri.EncodeURIComponent(pair.0), Uri.EncodeURIComponent(pair.1)))
  {
    var k, v := Uri.EncodeURIComponent(pair.0), Uri.EncodeURIComponent(pair.1);
    Uri.EncodedHasNoDelimiters(k);
    Uri.EncodedHasNoDelimiters(v);
    Strings.SplitAtFirst(k, v, '=');
    Strings.SplitWithout(v, '=');
  }

  lemma {:induction false} ReadPairsEach(pieces: seq<string>, pairs: seq<(string, string)>)
    requires |pieces| == |pairs|
    requires forall i :: 0 <= i < |pieces| ==> ReadPair(pieces[i]) == Some(pairs[i])
    ensures ReadPairs(pieces) == Some(pairs)
  {
    if pieces != [] {
      ReadPairsEach(pieces[1..], pairs[1..]);
      assert [pairs[0]] + pairs[1..] == pairs;
    }
  }

  lemma ReadEncodedPairs(params: Params)
    ensures ReadPairs(EncodedPairs(params)) == Some(EncodedComponents(params))
  {
    forall i | 0 <= i < |params|
      ensures ReadPair(EncodedPairs(params)[i]) == Some(EncodedComponents(params)[i])
    {
      ReadEncodedPair(params[i]);
    }
    ReadPairsEach(EncodedPairs(params), EncodedComponents(params));
  }

  /**
    Splitting a query string after its `?` on `&`, then each piece on `=`,
    gives exactly the encoded key and value of every key, in key order.
   */
  lemma QueryStringSplitsBack(params: Params)
    ensures ReadQuery(QueryString(params)) == Some(EncodedComponents(params))
  {
    if params != [] {
      EncodedPairsShape(params);
      Strings.SplitJoin(EncodedPairs(params), '&');
      assert QueryString(params)[1..] == Query(params);
      ReadEncodedPairs(params);
    }
  }

  lemma {:induction false} DecodePairsEach(pairs: seq<(string, string)>, params: Params)
    requires |pairs| == |params|
    requires forall i :: 0 <= i < |pairs| ==>
      Uri.DecodeURIComponent(pairs[i].0) == Some(params[i].0) &&
      Uri.DecodeURIComponent(pairs[i].1) == Some(params[i].1)
    ensures DecodePairs(pairs) == Some(params)
  {
    if pairs != [] {
      DecodePairsEach(pairs[1..], params[1..]);
      assert [params[0]] + params[1..] == params;
    }
  }

  lemma DecodeEncodedComponents(params: Params)
    ensures DecodePairs(EncodedComponents(params)) == Some(params)
  {
    forall i | 0 <= i < |params|
      ensures Uri.DecodeURIComponent(EncodedComponents(params)[i].0) == Some(params[i].0)
      ensures Uri.DecodeURIComponent(EncodedComponents(params)[i].1) == Some(params[i].1)
    {
      Uri.DecodeEncode(params[i].0);
      Uri.DecodeEncode(params[i].1);
    }
    DecodePairsEach(EncodedComponents(params), params);
  }

  /** How a server reads a query string: split it back, then percent-decode every component. */
  function DecodeQuery(r: string): (params: Option<Params>)
  {
    match ReadQuery(r)
    case None => None
    case Some(pairs) => DecodePairs(pairs)
  }

  /** A reader that splits the query string and decodes each component recovers the params exactly. */
  lemma QueryStringRoundTrip(params: Params)
    ensures DecodeQuery(QueryString(params)) == Some(params)
  {
    QueryStringSplitsBack(params);
    DecodeEncodedComponents(params);
  }

  /** The keys of an object are pairwise different. */
  ghost predicate DistinctKeys(params: Params)
  {
    forall i, j :: 0 <= i < j < |params| ==> params[i].0 != params[j].0
  }

  /** One `name=value` piece per key: distinct keys stay distinct once encoded. */
  lemma OnePiecePerKey(params: Params)
    requires DistinctKeys(params)
    ensures forall i, j :: 0 <= i < j < |params| ==>
      EncodedComponents(params)[i].0 != EncodedComponents(params)[j].0
  {
    forall i, j | 0 <= i < j < |params|
      ensures EncodedComponents(params)[i].0 != EncodedComponents(params)[j].0
    {
      if Uri.EncodeURIComponent(params[i].0) == Uri.EncodeURIComponent(params[j].0) {
        Uri.EncodeInjective(params[i].0, params[j].0);
      }
    }
  }

  // Headers

  datatype Header = Header(name: string, value: string)

  const JsonMediaType: string := "application/json"

  /** The exception `JSON.parse` throws on a text that is not JSON. */
  datatype Error = SyntaxError

  /** `${token}` for what `localStorage.getItem('token')` returned: `null` prints as `null`. */
  function TokenText(token: Option<string>): string
  {
    match token
    case None => "null"
    case Some(t) => t
  }

  /** The first header with the given name. */
  function HeaderValue(headers: seq<Header>, name: string): (r: Option<string>)
    ensures r.Some? <==> exists i :: 0 <= i < |headers| && headers[i].name == name
  {
    if headers == [] then None
    else if headers[0].name == name then Some(headers[0].value)
    else HeaderValue(headers[1..], name)
  }

  /**
    `headers()` with the stored token as a parameter. A non-empty stored text
    is handed to `JSON.parse`, whose result is dropped but which throws when
    the text is not JSON; otherwise the three JSON headers, the token going
    into `Authorization` as stored.
   */
  function Headers(token: Option<string>): (r: Result<seq<Header>, Error>)
    ensures r.Failure? <==> token.Some? && token.value != "" && !Json.IsJsonText(token.value)
    ensures r.Success? ==> |r.value| == 3
  {
    if token.Some? && token.value != "" && !Json.IsJsonText(token.value) then Failure(SyntaxError)
    else Success([
      Header("Accept", JsonMediaType),
      Header("Content-Type", JsonMediaType),
      Header("Authorization", "Bearer: " + TokenText(token))
    ])
  }

  /**
    Whenever `headers()` returns, it names `Accept`, `Content-Type` and
    `Authorization` once each, the first two `application/json` and the last
    `Bearer: ` followed by the stored text, or by `null` when nothing is stored.
   */
  lemma HeadersContents(token: Option<string>)
    requires Headers(token).Success?
    ensures var hs := Headers(token).value;
      && [hs[0].name, hs[1].name, hs[2].name] == ["Accept", "Content-Type", "Authorization"]
      && HeaderValue(hs, "Accept") == Some(JsonMediaType)
      && HeaderValue(hs, "Content-Type") == Some(JsonMediaType)
      && HeaderValue(hs, "Authorization") == Some("Bearer: " + TokenText(token))
      && (token.None? ==> HeaderValue(hs, "Authorization") == Some("Bearer: null"))
  {
    var hs := Headers(token).value;
    assert HeaderValue(hs[2..], "Authorization") == Some("Bearer: " + TokenText(token));
    assert hs[1..][1..] == hs[2..];
    assert "Bearer: " + "null" == "Bearer: null";
  }

  /**
    The token the signup action stores is `JSON.stringify(token)`: `headers()`
    never throws on it, and `Authorization` carries it with its JSON quotes.
   */
  lemma StoredTokenHeaders(token: string)
    ensures Headers(Some(Json.Quote(token))).Success?
    ensures HeaderValue(Headers(Some(Json.Quote(token))).value, "Authorization")
      == Some("Bearer: " + Json.Quote(token))
  {
    Json.QuoteIsJsonText(token);
    JsonTextAuthorization(Json.Quote(token));
  }

  lemma JsonTextAuthorization(text: string)
    requires Json.IsJsonText(text)
    ensures Headers(Some(text)).Success?
    ensures HeaderValue(Headers(Some(text)).value, "Authorization") == Some("Bearer: " + text)
  {
    HeadersContents(Some(text));
  }

  /** For a token of plain characters (a JWT is one), the header is the token in double quotes. */
  lemma StoredPlainTokenHeaders(token: string)
    requires forall i :: 0 <= i < |token| ==> Json.NeedsNoEscape(token[i])
    ensures Headers(Some(Json.Quote(token))).Success?
    ensures HeaderValue(Headers(Some(Json.Quote(token))).value, "Authorization")
      == Some("Bearer: \"" + token + "\"")
  {
    StoredTokenHeaders(token);
    Json.QuotePlain(token);
    assert "Bearer: " + ("\"" + token + "\"") == "Bearer: \"" + token + "\"";
  }

  /** A signup response without a token stores the text `undefined`, on which `headers()` throws. */
  lemma UndefinedTokenThrows()
    ensures Headers(Some("undefined")) == Failure(SyntaxError)
  {
    Json.UndefinedIsNotJsonText();
  }

  // Responses

  /** What `fetch` resolved with: the `ok` flag and the body text. */
  datatype Response = Response(ok: bool, body: string)

  /** A parsed JSON body, represented by the text it was parsed from. */
  datatype Document = Document(text: string)

  /** Why the promise `parseResponse` returns is rejected. */
  datatype Rejection = ErrorBody(body: Document) | BodySyntaxError

  datatype Settlement = Fulfilled(value: Document) | Rejected(reason: Rejection)

  /** `response.json()`: the body parsed, or the `SyntaxError` it rejects with. */
  function ResponseJson(response: Response): (r: Result<Document, Error>)
    ensures r.Success? <==> Json.IsJsonText(response.body)
    ensures r.Success? ==> r.value.text == response.body
  {
    if Json.IsJsonText(response.body) then Success(Document(response.body)) else Failure(SyntaxError)
  }

  /**
    `parseResponse(response)`: the parsed body, fulfilled when `ok` is set
    and rejected with the same body otherwise; a body that is not JSON
    rejects whatever `ok` says.
   */
  function ParseResponse(response: Response): (r: Settlement)
    ensures r.Fulfilled? <==> response.ok && Json.IsJsonText(response.body)
    ensures r.Fulfilled? ==> r.value == Document(response.body)
    ensures r == Rejected(BodySyntaxError) <==> !Json.IsJsonText(response.body)
    ensures r.Rejected? && r.reason.ErrorBody? ==> !response.ok && r.reason.body == Document(response.body)
  {
    match ResponseJson(response)
    case Failure(_) => Rejected(BodySyntaxError)
    case Success(json) => if response.ok then Fulfilled(json) else Rejected(ErrorBody(json))
  }

  /** The `ok` flag alone decides between the two outcomes; the body carried is the same. */
  lemma ParseResponseOkDecides(body: string)
    requires Json.IsJsonText(body)
    ensures ParseResponse(Response(true, body)) == Fulfilled(Document(body))
    ensures ParseResponse(Response(false, body)) == Rejected(ErrorBody(Document(body)))
  {
  }

  // Requests

  datatype Method = GET | POST | PATCH | DELETE

  datatype Request = Request(verb: Method, url: string, headers: seq<Header>, body: Option<string>)

  /** `${API}`: the base URL the build was given, `undefined` when it was given none. */
  function BaseUrl(api: Option<string>): string
  {
    match api
    case None => "undefined"
    case Some(u) => u
  }

  /**
    `get(url, params)`: the base URL, the path, then the query string, which
    reads back as the params; no body.
   */
  function Get(api: Option<string>, url: string, params: Params, token: Option<string>): (r: Result<Request, Error>)
    ensures r.Failure? <==> Headers(token).Failure?
    ensures r.Success? ==> r.value.verb == GET && r.value.headers == Headers(token).value && r.value.body == None
    ensures r.Success? ==> r.value.url == BaseUrl(api) + url + QueryString(params)
    ensures r.Success? ==> DecodeQuery(r.value.url[|BaseUrl(api) + url|..]) == Some(params)
  {
    var target := BaseUrl(api) + url + QueryString(params);
    QueryStringRoundTrip(params);
    assert target[|BaseUrl(api) + url|..] == QueryString(params);
    match Headers(token)
    case Failure(e) => Failure(e)
    case Success(hs) => Success(Request(GET, target, hs, None))
  }

  /**
    `post(url, data)` with `data` given as its JSON text; `None` when the
    argument is left out, which defaults to `{}`.
   */
  function Post(api: Option<string>, url: string, data: Option<string>, token: Option<string>): (r: Result<Request, Error>)
    ensures r.Failure? <==> Headers(token).Failure?
    ensures r.Success? ==> r.value == Request(POST, BaseUrl(api) + url, Headers(token).value, Some(if data.Some? then data.value else "{}"))
  {
    var body := match data case None => "{}" case Some(d) => d;
    match Headers(token)
    case Failure(e) => Failure(e)
    case Success(hs) => Success(Request(POST, BaseUrl(api) + url, hs, Some(body)))
  }

  /**
    `patch(url, data)` with `data` given as its JSON text; `None` when the
    argument is left out, which `JSON.stringify` turns into no body at all.
   */
  function Patch(api: Option<string>, url: string, data: Option<string>, token: Option<string>): (r: Result<Request, Error>)
    ensures r.Failure? <==> Headers(token).Failure?
    ensures r.Success? ==> r.value == Request(PATCH, BaseUrl(api) + url, Headers(token).value, data)
  {
    match Headers(token)
    case Failure(e) => Failure(e)
    case Success(hs) => Success(Request(PATCH, BaseUrl(api) + url, hs, data))
  }

  /** `delete(url)`: no query and no body. */
  function Delete(api: Option<string>, url: string, token: Option<string>): (r: Result<Request, Error>)
    ensures r.Failure? <==> Headers(token).Failure?
    ensures r.Success? ==> r.value == Request(DELETE, BaseUrl(api) + url, Headers(token).value, None)
  {
    match Headers(token)
    case Failure(e) => Failure(e)
    case Success(hs) => Success(Request(DELETE, BaseUrl(api) + url, hs, None))
  }

  /** The part of a URL before its first `?`, and the rest from that `?` on. */
  function SplitAtQuery(u: string): (r: (string, string))
    ensures r.0 + r.1 == u
    ensures '?' !in r.0
    ensures r.1 == [] || r.1[0] == '?'
  {
    if u == [] then ([], [])
    else if u[0] == '?' then ([], u)
    else var (path, query) := SplitAtQuery(u[1..]); ([u[0]] + path, query)
  }

  lemma {:induction false} SplitAtQueryOf(path: string, query: string)
    requires '?' !in path
    requires query == [] || query[0] == '?'
    ensures SplitAtQuery(path + query) == (path, query)
  {
    if path != [] {
      SplitAtQueryOf(path[1..], query);
      assert (path + query)[1..] == path[1..] + query;
      assert (path + query)[0] == path[0] != '?';
      assert [path[0]] + path[1..] == path;
    } else {
      assert path + query == query;
    }
  }

  /**
    When neither the base URL nor the path holds a `?`, a server that cuts
    the `get` URL at its first `?` finds the base URL and path before it, and
    reads the params back, unchanged and in order, from the rest.
   */
  lemma GetUrlReadsBack(api: Option<string>, url: string, params: Params, token: Option<string>)
    requires '?' !in BaseUrl(api) + url
    requires Get(api, url, params, token).Success?
    ensures SplitAtQuery(Get(api, url, params, token).value.url).0 == BaseUrl(api) + url
    ensures DecodeQuery(SplitAtQuery(Get(api, url, params, token).value.url).1) == Some(params)
  {
    SplitAtQueryOf(BaseUrl(api) + url, QueryString(params));
    QueryStringRoundTrip(params);
  }

  /**
    All four requests go to the same URL when `get` has no params; none but
    `get` ever adds a query, and all four send the same headers.
   */
  lemma SameTargetWithoutParams(api: Option<string>, url: string, data: Option<string>, token: Option<string>)
    requires Headers(token).Success?
    ensures Get(api, url, [], token).value.url == BaseUrl(api) + url
    ensures Post(api, url, data, token).value.url == BaseUrl(api) + url
    ensures Patch(api, url, data, token).value.url == BaseUrl(api) + url
    ensures Delete(api, url, token).value.url == BaseUrl(api) + url
  {
  }
}
