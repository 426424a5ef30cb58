/**
 * The widget's session state (widget.js:2-4, 26-61, 66-78): the module-level
 * `accessToken`, the page's `localStorage` and `window.location.search`,
 * and the three functions that read and write them. Navigation, `fetch`
 * and the token endpoint's reply are parameters: `loginWithSpotify` returns
 * the URL it would navigate to, `handleRedirect` returns the request it
 * would post, and `respond`/`fetch` stand for the server.
 */
module Widget {
  import opened Wrappers
  import opened Encoding
  import opened Query
  import opened Requests
  import opened Pkce
  import Text

  /** The `localStorage` key under which the code_verifier waits for the redirect. */
  const VerifierKey: string := "widget_code_verifier"

  /** `localStorage.getItem(key)`: the stored string, or `null`. */
  function StorageItem(storage: map<string, string>, key: string): (r: Option<string>)
    ensures r.Some? <==> key in storage
    ensures r.Some? ==> r.value == storage[key]
  {
    if key in storage then Some(storage[key]) else None
  }

  /** `new URLSearchParams(search).get('code')`. */
  function CodeParam(search: string): Option<string>
  {
    Get(Parse(search), "code")
  }

  /** The test `if (!code) return;` lets through: a `code` parameter that is present and not empty. */
  predicate HasCode(search: string)
  {
    CodeParam(search).Some? && CodeParam(search).value != ""
  }

  /** The reply of the token endpoint, as far as the widget reads it: `data.access_token`, absent meaning `undefined`. */
  datatype TokenResponse = TokenResponse(accessToken: Option<string>)

  /** One page load of the widget. */
  class Session {
    /** `window.location.origin + window.location.pathname`, fixed when the script loads. */
    const redirectUri: string
    /** The module-level `accessToken`; `None` is `undefined`. */
    var accessToken: Option<string>
    /** The page's `localStorage`. */
    var storage: map<string, string>
    /** `window.location.search`. */
    var search: string

    /** The script loading on a page at `origin + pathname + search`, with the token still `''`. */
    constructor (origin: string, pathname: string, search: string, storage: map<string, string>)
      ensures redirectUri == origin + pathname
      ensures accessToken == Some("")
      ensures this.search == search && this.storage == storage
    {
      redirectUri := origin + pathname;
      accessToken := Some("");
      this.search := search;
      this.storage := storage;
    }

    /**
     * loginWithSpotify: a fresh 128-character verifier is stored under
     * VerifierKey, and the URL returned is the authorization URL carrying the
     * challenge of exactly that stored verifier. Nothing else changes.
     */
    method LoginWithSpotify(random: seq<nat>, sha256: seq<byte> -> seq<byte>) returns (authUrl: string)
      requires |random| >= DefaultVerifierLength
      modifies this`storage
      ensures storage == old(storage)[VerifierKey := Verifier(random[..DefaultVerifierLength])]
      ensures authUrl == AuthorizationUrl(redirectUri, GenerateCodeChallenge(storage[VerifierKey], sha256))
    {
      var codeVerifier := GenerateCodeVerifier(DefaultVerifierLength, random);
      storage := storage[VerifierKey := codeVerifier];
      var codeChallenge := GenerateCodeChallenge(codeVerifier, sha256);
      authUrl := AuthorizationUrl(redirectUri, codeChallenge);
    }

    /**
     * handleRedirect: without a non-empty `code` in the query nothing is sent
     * and nothing changes. With one, the token request for that code, this
     * page's redirect URI and the stored verifier is sent, the token becomes
     * the reply's `access_token`, and `replaceState` leaves the address
     * without its query. Storage is never touched.
     */
    method HandleRedirect(respond: TokenRequest -> TokenResponse) returns (sent: Option<TokenRequest>)
      modifies this`accessToken, this`search
      ensures !HasCode(old(search)) ==>
        sent == None && accessToken == old(accessToken) && search == old(search)
      ensures HasCode(old(search)) ==>
        sent == Some(TokenRequestFor(CodeParam(old(search)).value, redirectUri, StorageItem(storage, VerifierKey))) &&
        accessToken == respond(sent.value).accessToken &&
        search == ""
    {
      var code := CodeParam(search);
      if code.None? || code.value == "" {
        return None;
      }
      var codeVerifier := StorageItem(storage, VerifierKey);
      var request := TokenRequestFor(code.value, redirectUri, codeVerifier);
      var data := respond(request);
      accessToken := data.accessToken;
      search := "";
      sent := Some(request);
    }

    /** spotifyApi: what `fetch` answers to the request built from the token held at the time of the call. */
    method SpotifyApi(endpoint: string, httpMethod: string, body: JsValue,
                      stringify: JsValue -> string, fetch: ApiRequest -> JsValue) returns (response: JsValue)
      ensures response == fetch(ApiRequestFor(accessToken, endpoint, httpMethod, body, stringify))
    {
      var request := ApiRequestFor(accessToken, endpoint, httpMethod, body, stringify);
      response := fetch(request);
    }
  }

  /** The redirect back from the authorization server, `?code=<code>`, carries that code. */
  lemma RedirectCarriesCode(code: string)
    requires '&' !in code
    ensures CodeParam("?code=" + code) == Some(code)
    ensures HasCode("?code=" + code) <==> code != ""
  {
    var ps := [Param("code", code)];
    assert Render(ps) == "code=" + code;
    assert "?code=" + code == "?" + Render(ps);
    assert '&' !in "code" && '=' !in "code";
    ParseRender(ps);
    GetFirst(ps, 0);
  }

  /** The address `replaceState` leaves behind has no code, so a later handleRedirect does nothing. */
  lemma EmptySearchHasNoCode()
    ensures CodeParam("") == None && !HasCode("")
  {
    assert Text.Split("", '&') == [""];
  }

  /** A code challenge never holds `&`, so it reads back whole from the authorization URL. */
  lemma ChallengeHasNoAmpersand(codeVerifier: string, sha256: seq<byte> -> seq<byte>)
    ensures '&' !in GenerateCodeChallenge(codeVerifier, sha256)
  {
    var c := GenerateCodeChallenge(codeVerifier, sha256);
    ChallengeHasNoBase64Only(sha256(Utf8(codeVerifier)));
    assert forall i :: 0 <= i < |c| ==> c[i] != '&';
  }

  /**
   * The authorization code flow across the redirect: the widget logs in on
   * one page, the authorization server sends the browser back to the same
   * address with `?code=<code>`, and the new page handles the redirect. The
   * token request then carries the code, the very verifier whose S256
   * challenge went out in the authorization URL (the binding of section 4.6
   * of RFC 7636), and the redirect URI whose encoding went out with it; the
   * token becomes the reply's, and handling the redirect again sends nothing.
   */
  method LoginAndRedirect(origin: string, pathname: string, search: string, storage: map<string, string>,
                          random: seq<nat>, sha256: seq<byte> -> seq<byte>,
                          code: string, respond: TokenRequest -> TokenResponse)
    returns (authUrl: string, sent: Option<TokenRequest>, token: Option<string>, again: Option<TokenRequest>)
    requires |random| >= DefaultVerifierLength
    requires code != "" && '&' !in code
    ensures sent.Some?
    ensures var q, form := ParseQuery(QueryOf(authUrl)), sent.value.form;
      Get(form, "code") == Some(code) &&
      Get(form, "code_verifier") == Some(Verifier(random[..DefaultVerifierLength])) &&
      Get(q, "code_challenge") == Some(GenerateCodeChallenge(Verifier(random[..DefaultVerifierLength]), sha256)) &&
      Get(form, "redirect_uri") == Some(origin + pathname) &&
      Get(q, "redirect_uri") == Some(EncodeUriComponent(origin + pathname))
    ensures token == respond(sent.value).accessToken
    ensures again == None
  {
    var page := new Session(origin, pathname, search, storage);
    authUrl := page.LoginWithSpotify(random, sha256);
    var verifier := Verifier(random[..DefaultVerifierLength]);
    var challenge := GenerateCodeChallenge(verifier, sha256);
    ChallengeHasNoAmpersand(verifier, sha256);
    AuthorizationUrlQuery(origin + pathname, challenge);

    var back := new Session(origin, pathname, "?code=" + code, page.storage);
    RedirectCarriesCode(code);
    sent := back.HandleRedirect(respond);
    token := back.accessToken;
    TokenRequestFields(code, origin + pathname, Some(verifier));

    EmptySearchHasNoCode();
    again := back.HandleRedirect(respond);
  }
}
