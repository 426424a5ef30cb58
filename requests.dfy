/**
 * The three requests the widget builds, each as a record computed from its
 * inputs: the authorization redirect of `loginWithSpotify` (widget.js:31,
 * section 4.1.1 of RFC 6749 with the parameters of section 4.3 of RFC 7636),
 * the token request of `handleRedirect` (widget.js:43-54, section 4.1.3 of
 * RFC 6749 with the code_verifier of section 4.5 of RFC 7636), and the
 * options of `spotifyApi` (widget.js:66-75, with the Bearer header of
 * section 2.1 of RFC 6750).
 */
module Requests {
  import opened Wrappers
  import opened Encoding
  import opened Query

  const ClientId: string := "d91f367c3a62465db529d844a632846b"
  const Scope: string := "user-read-playback-state user-modify-playback-state user-read-currently-playing playlist-read-private playlist-read-collaborative"
  const AuthorizeEndpoint: string := "https://accounts.spotify.com/authorize"
  const TokenEndpoint: string := "https://accounts.spotify.com/api/token"
  const ApiBase: string := "https://api.spotify.com/v1/"

  /**
   * The query of the authorization URL, in the order the template of
   * widget.js:31 writes it, from the values as they are put in (the scope
   * and the redirect URI already passed through `encodeURIComponent`).
   */
  function AuthorizationParams(clientId: string, scope: string, redirectUri: string, codeChallenge: string): seq<Param>
  {
    [ Param("response_type", "code"),
      Param("client_id", clientId),
      Param("scope", scope),
      Param("redirect_uri", redirectUri),
      Param("code_challenge_method", "S256"),
      Param("code_challenge", codeChallenge) ]
  }

  /** The URL loginWithSpotify navigates to. */
  function AuthorizationUrl(redirectUri: string, codeChallenge: string): string
  {
    AuthorizeEndpoint + "?" + Render(AuthorizationParams(ClientId, EncodeUriComponent(Scope), EncodeUriComponent(redirectUri), codeChallenge))
  }

  /** What follows the first `?` of a URL, or `""` when it has none. */
  function QueryOf(url: string): string
  {
    if '?' in url then url[Text.IndexOf(url, '?') + 1..] else ""
  }

  /** The query of `base?q`, for a base without `?`, is `q`. */
  lemma QueryOfJoined(base: string, q: string)
    requires '?' !in base
    ensures QueryOf(base + "?" + q) == q
  {
    var url := base + "?" + q;
    assert url[|base|] == '?';
    var i := Text.IndexOf(url, '?');
    assert forall j :: 0 <= j < |base| ==> url[j] == base[j];
    assert forall j :: 0 <= j < i ==> url[..i][j] == url[j];
    assert i == |base|;
    assert url[i + 1..] == q;
  }

  /** Each parameter of the authorization query is found under its own name, and reads back unchanged. */
  lemma AuthorizationParamsLookup(clientId: string, scope: string, redirectUri: string, codeChallenge: string)
    ensures var q := AuthorizationParams(clientId, scope, redirectUri, codeChallenge);
      Get(q, "response_type") == Some("code") &&
      Get(q, "client_id") == Some(clientId) &&
      Get(q, "scope") == Some(scope) &&
      Get(q, "redirect_uri") == Some(redirectUri) &&
      Get(q, "code_challenge_method") == Some("S256") &&
      Get(q, "code_challenge") == Some(codeChallenge)
  {
    var q := AuthorizationParams(clientId, scope, redirectUri, codeChallenge);
    GetFirst(q, 0);
    GetFirst(q, 1);
    GetFirst(q, 2);
    GetFirst(q, 3);
    GetFirst(q, 4);
    GetFirst(q, 5);
  }

  /** The fixed names and values of the authorization query hold neither `&` nor `=`. */
  lemma AuthorizationConstantsArePlain()
    ensures '&' !in "response_type" && '=' !in "response_type"
    ensures '&' !in "client_id" && '=' !in "client_id"
    ensures '&' !in "scope" && '=' !in "scope"
    ensures '&' !in "redirect_uri" && '=' !in "redirect_uri"
    ensures '&' !in "code_challenge_method" && '=' !in "code_challenge_method"
    ensures '&' !in "code_challenge" && '=' !in "code_challenge"
    ensures '&' !in "code" && '&' !in "S256"
  {
  }

  /** No name of the authorization query holds `&` or `=`, and no value holds `&` when none was put in. */
  lemma AuthorizationParamsRenderable(clientId: string, scope: string, redirectUri: string, codeChallenge: string)
    requires '&' !in clientId && '&' !in scope && '&' !in redirectUri && '&' !in codeChallenge
    ensures Renderable(AuthorizationParams(clientId, scope, redirectUri, codeChallenge))
  {
    var q := AuthorizationParams(clientId, scope, redirectUri, codeChallenge);
    AuthorizationConstantsArePlain();
    forall k | 0 <= k < |q|
      ensures '&' !in q[k].name && '=' !in q[k].name && '&' !in q[k].value
    {
      if k == 0 { assert q[k] == Param("response_type", "code"); }
      else if k == 1 { assert q[k] == Param("client_id", clientId); }
      else if k == 2 { assert q[k] == Param("scope", scope); }
      else if k == 3 { assert q[k] == Param("redirect_uri", redirectUri); }
      else if k == 4 { assert q[k] == Param("code_challenge_method", "S256"); }
      else { assert q[k] == Param("code_challenge", codeChallenge); }
    }
  }

  /** The authorization query reads back unchanged when no value holds `&`. */
  lemma AuthorizationParamsRoundTrip(clientId: string, scope: string, redirectUri: string, codeChallenge: string)
    requires '&' !in clientId && '&' !in scope && '&' !in redirectUri && '&' !in codeChallenge
    ensures ParseQuery(Render(AuthorizationParams(clientId, scope, redirectUri, codeChallenge)))
            == AuthorizationParams(clientId, scope, redirectUri, codeChallenge)
  {
    AuthorizationParamsRenderable(clientId, scope, redirectUri, codeChallenge);
    ParseRender(AuthorizationParams(clientId, scope, redirectUri, codeChallenge));
  }

  /** The constant parts of the authorization URL hold no query delimiter. */
  lemma EndpointHasNoQuery()
    ensures '?' !in AuthorizeEndpoint
  {
  }

  lemma ClientIdHasNoDelimiter()
    ensures '&' !in ClientId
  {
  }

  lemma ScopeHasNoDelimiter()
    ensures '&' !in EncodeUriComponent(Scope)
  {
    EncodedHasNoDelimiters(Scope);
  }

  /**
   * The authorization URL is the authorize endpoint, `?`, and a query that
   * reads back as response_type=code, the client_id, the encoded scope and
   * redirect_uri, code_challenge_method=S256 and the given code_challenge,
   * in that order; any challenge free of `&` comes back unchanged.
   */
  lemma AuthorizationUrlQuery(redirectUri: string, codeChallenge: string)
    requires '&' !in codeChallenge
    ensures var q := AuthorizationParams(ClientId, EncodeUriComponent(Scope), EncodeUriComponent(redirectUri), codeChallenge);
      AuthorizationUrl(redirectUri, codeChallenge) == AuthorizeEndpoint + "?" + QueryOf(AuthorizationUrl(redirectUri, codeChallenge)) &&
      ParseQuery(QueryOf(AuthorizationUrl(redirectUri, codeChallenge))) == q
    ensures var q := ParseQuery(QueryOf(AuthorizationUrl(redirectUri, codeChallenge)));
      Get(q, "response_type") == Some("code") &&
      Get(q, "client_id") == Some(ClientId) &&
      Get(q, "redirect_uri") == Some(EncodeUriComponent(redirectUri)) &&
      Get(q, "code_challenge_method") == Some("S256") &&
      Get(q, "code_challenge") == Some(codeChallenge)
  {
    var scope, uri := EncodeUriComponent(Scope), EncodeUriComponent(redirectUri);
    var q := AuthorizationParams(ClientId, scope, uri, codeChallenge);
    EndpointHasNoQuery();
    ClientIdHasNoDelimiter();
    ScopeHasNoDelimiter();
    EncodedHasNoDelimiters(redirectUri);
    AuthorizationParamsLookup(ClientId, scope, uri, codeChallenge);
    AuthorizationParamsRoundTrip(ClientId, scope, uri, codeChallenge);
    QueryOfJoined(AuthorizeEndpoint, Render(q));
  }

  datatype Header = Header(name: string, value: string)

  /** The value of the first header called `name`. */
  function HeaderValue(headers: seq<Header>, name: string): Option<string>
  {
    if headers == [] then None
    else if headers[0].name == name then Some(headers[0].value)
    else HeaderValue(headers[1..], name)
  }

  /** A POST to the token endpoint with a form-encoded body. */
  datatype TokenRequest = TokenRequest(url: string, httpMethod: string, headers: seq<Header>, form: seq<Param>)

  /**
   * The string `URLSearchParams` stores for a record value: `localStorage.getItem`
   * yields `null` when nothing was stored, and `null` becomes `"null"`.
   */
  function FormValue(v: Option<string>): string
  {
    if v.Some? then v.value else "null"
  }

  /** The token request of widget.js:43-54 for a code and the verifier read from storage. */
  function TokenRequestFor(code: string, redirectUri: string, storedVerifier: Option<string>): TokenRequest
  {
    TokenRequest(
      TokenEndpoint,
      "POST",
      [Header("Content-Type", "application/x-www-form-urlencoded")],
      [ Param("grant_type", "authorization_code"),
        Param("code", code),
        Param("redirect_uri", redirectUri),
        Param("client_id", ClientId),
        Param("code_verifier", FormValue(storedVerifier)) ])
  }

  /**
   * The token request is a form-encoded POST to the token endpoint whose
   * body has exactly the fields grant_type=authorization_code, code,
   * redirect_uri, client_id and code_verifier; the verifier is the stored
   * one, or the text "null" when nothing was stored.
   */
  lemma TokenRequestFields(code: string, redirectUri: string, storedVerifier: Option<string>)
    ensures var r := TokenRequestFor(code, redirectUri, storedVerifier);
      r.url == TokenEndpoint && r.httpMethod == "POST" &&
      HeaderValue(r.headers, "Content-Type") == Some("application/x-www-form-urlencoded")
    ensures Names(TokenRequestFor(code, redirectUri, storedVerifier).form)
            == ["grant_type", "code", "redirect_uri", "client_id", "code_verifier"]
    ensures var f := TokenRequestFor(code, redirectUri, storedVerifier).form;
      Get(f, "grant_type") == Some("authorization_code") &&
      Get(f, "code") == Some(code) &&
      Get(f, "redirect_uri") == Some(redirectUri) &&
      Get(f, "client_id") == Some(ClientId) &&
      Get(f, "code_verifier") == Some(if storedVerifier.Some? then storedVerifier.value else "null")
  {
    var f := TokenRequestFor(code, redirectUri, storedVerifier).form;
    GetFirst(f, 0);
    GetFirst(f, 1);
    GetFirst(f, 2);
    GetFirst(f, 3);
    GetFirst(f, 4);
  }

  /** The JavaScript values a request body can be. */
  datatype JsValue =
    | JsUndefined
    | JsNull
    | JsBool(b: bool)
    | JsNumber(n: int)
    | JsString(s: string)
    | JsArray(items: seq<JsValue>)
    | JsObject(fields: seq<(string, JsValue)>)

  /** `if (v)`: `undefined`, `null`, `false`, `0` and `""` are falsy; every array and object is truthy. */
  predicate Truthy(v: JsValue)
  {
    match v
    case JsUndefined => false
    case JsNull => false
    case JsBool(b) => b
    case JsNumber(n) => n != 0
    case JsString(s) => s != ""
    case JsArray(_) => true
    case JsObject(_) => true
  }

  /** `${accessToken}`: a token that is `undefined` prints as the text "undefined". */
  function TokenText(accessToken: Option<string>): string
  {
    if accessToken.Some? then accessToken.value else "undefined"
  }

  /** The URL and the options object `spotifyApi` hands to `fetch`. */
  datatype ApiRequest = ApiRequest(url: string, httpMethod: string, headers: seq<Header>, body: Option<string>)

  /**
   * The request of spotifyApi(endpoint, method, body) under the current
   * token; `stringify` stands for `JSON.stringify`.
   */
  function ApiRequestFor(accessToken: Option<string>, endpoint: string, httpMethod: string,
                         body: JsValue, stringify: JsValue -> string): ApiRequest
  {
    var headers := [Header("Authorization", "Bearer " + TokenText(accessToken))];
    if Truthy(body) then
      ApiRequest(ApiBase + endpoint, httpMethod, headers + [Header("Content-Type", "application/json")], Some(stringify(body)))
    else
      ApiRequest(ApiBase + endpoint, httpMethod, headers, None)
  }

  /**
   * Every API request goes to the API base followed by the endpoint, carries
   * `Authorization: Bearer <token>` first, and carries
   * `Content-Type: application/json` and the serialized body if and only
   * if the body is truthy; no other header is set.
   */
  lemma ApiRequestShape(accessToken: Option<string>, endpoint: string, httpMethod: string,
                        body: JsValue, stringify: JsValue -> string)
    ensures var r := ApiRequestFor(accessToken, endpoint, httpMethod, body, stringify);
      r.url[..|ApiBase|] == ApiBase && r.url[|ApiBase|..] == endpoint && r.httpMethod == httpMethod
    ensures var r := ApiRequestFor(accessToken, endpoint, httpMethod, body, stringify);
      |r.headers| == (if Truthy(body) then 2 else 1) &&
      r.headers[0] == Header("Authorization", "Bearer " + TokenText(accessToken)) &&
      (HeaderValue(r.headers, "Content-Type") == Some("application/json") <==> Truthy(body)) &&
      (HeaderValue(r.headers, "Content-Type").None? <==> !Truthy(body)) &&
      (r.body.Some? <==> Truthy(body)) &&
      (r.body.Some? ==> r.body.value == stringify(body))
  {
  }

  /** The defaults of `spotifyApi(endpoint, method = 'GET', body = null)`. */
  const DefaultMethod: string := "GET"
  const DefaultBody: JsValue := JsNull

  /**
   * `spotifyApi(endpoint)` with both defaults: a GET of the API base followed
   * by the endpoint, with the Authorization header as its only header and no
   * body.
   */
  lemma DefaultApiRequest(accessToken: Option<string>, endpoint: string, stringify: JsValue -> string)
    ensures var r := ApiRequestFor(accessToken, endpoint, DefaultMethod, DefaultBody, stringify);
      r.url == ApiBase + endpoint && r.httpMethod == "GET" &&
      r.headers == [Header("Authorization", "Bearer " + TokenText(accessToken))] &&
      r.body == None
  {
    ApiRequestShape(accessToken, endpoint, DefaultMethod, DefaultBody, stringify);
  }

  /** The bearer credential can be read back from the Authorization header. */
  lemma BearerTokenRoundTrip(accessToken: string, endpoint: string, httpMethod: string,
                             body: JsValue, stringify: JsValue -> string)
    ensures var v := HeaderValue(ApiRequestFor(Some(accessToken), endpoint, httpMethod, body, stringify).headers, "Authorization");
      v.Some? && v.value[..7] == "Bearer " && v.value[7..] == accessToken
  {
  }
}
