/**
 * `OAuth2PKCEFlow` of scripts/oauth_login.py: building the authorization
 * request URL (section 4.1.1 of RFC 6749, section 4.3 of RFC 7636) and
 * validating the redirect back to the client, whose `state` check is the
 * CSRF defence of sections 4.1.2 and 10.12 of RFC 6749.
 */
module OAuthFlow {
  import opened Wrappers
  import opened Bytes
  import opened Text
  import opened UrlCodec
  import opened Pkce
  import opened Auth0
  import opened TokenStore

  /** `f"http://localhost:{port}/callback"`. */
  function RedirectUri(port: int): string
  {
    "http://localhost:" + IntToString(port) + "/callback"
  }

  /** The eight query parameters of the authorization request, in the order the dictionary lists them. */
  function AuthorizationParams(config: Auth0Config, p: PkceParams): seq<(string, string)>
  {
    [ ("response_type", "code"),
      ("client_id", config.clientId),
      ("redirect_uri", RedirectUri(config.redirectPort)),
      ("scope", Join(config.scopes, " ")),
      ("code_challenge", p.codeChallenge),
      ("code_challenge_method", p.codeChallengeMethod),
      ("state", p.state),
      ("audience", config.audience) ]
  }

  /** `f"https://{domain}/authorize?{urlencode(auth_params)}"`. */
  function AuthorizationUrl(config: Auth0Config, p: PkceParams): string
  {
    "https://" + config.domain + "/authorize" + "?" + UrlEncode(AuthorizationParams(config, p))
  }

  /**
   * `validate_callback_params` with `expected` as `self.pkce_params`: the
   * code and True only when the query has no `error`, has a nonempty `code`
   * and `state`, and the first `state` equals the expected one; otherwise
   * `("", False)`.
   */
  function CheckCallback(expected: Option<PkceParams>, callbackUrl: string): (r: (string, bool))
    ensures var pairs := ParseQsl(UrlQuery(callbackUrl));
            r.1 <==> && ValuesOf(pairs, "error") == []
                     && ValuesOf(pairs, "code") != []
                     && ValuesOf(pairs, "state") != []
                     && expected.Some?
                     && ValuesOf(pairs, "state")[0] == expected.value.state
    ensures r.1 ==> r.0 == ValuesOf(ParseQsl(UrlQuery(callbackUrl)), "code")[0]
    ensures !r.1 ==> r.0 == ""
  {
    var query := UrlQuery(callbackUrl);
    var params := ParseQs(query);
    ParseQsValues(query, "error");
    ParseQsValues(query, "code");
    ParseQsValues(query, "state");
    if "error" in params then ("", false)
    else if "code" !in params || "state" !in params then ("", false)
    else
      var receivedState := params["state"][0];
      if expected.None? || receivedState != expected.value.state then ("", false)
      else (params["code"][0], true)
  }

  class OAuth2PkceFlow {
    const config: Auth0Config
    const storage: TokenStorage
    var pkceParams: Option<PkceParams>

    /** `__init__`: keeps the configuration, opens the default token storage, no PKCE parameters yet. */
    constructor (config: Auth0Config, disk: FileState, diskMode: int)
      ensures this.config == config && pkceParams == None
      ensures fresh(storage) && storage.appName == "oauth-precommit" && storage.dirMode == DirMode
      ensures storage.file == disk && storage.fileMode == diskMode
    {
      this.config := config;
      storage := new TokenStorage("oauth-precommit", disk, diskMode);
      pkceParams := None;
    }

    /**
     * `build_authorization_url`: draws fresh PKCE parameters, replacing the
     * previous ones, and returns the authorization URL carrying their
     * challenge and state.
     */
    method BuildAuthorizationUrl(verifierBytes: Bytes32, stateBytes: Bytes32, sha256: seq<byte> -> Bytes32)
      returns (authUrl: string)
      modifies this
      ensures pkceParams == Some(GeneratePkceParams(verifierBytes, stateBytes, sha256))
      ensures authUrl == AuthorizationUrl(config, pkceParams.value)
    {
      pkceParams := Some(GeneratePkceParams(verifierBytes, stateBytes, sha256));
      authUrl := AuthorizationUrl(config, pkceParams.value);
    }

    /** `validate_callback_params`, checked against the parameters of the latest authorization URL. */
    function ValidateCallbackParams(callbackUrl: string): (r: (string, bool))
      reads this
      ensures r.1 ==> pkceParams.Some? && ValuesOf(ParseQsl(UrlQuery(callbackUrl)), "state") != []
                      && ValuesOf(ParseQsl(UrlQuery(callbackUrl)), "state")[0] == pkceParams.value.state
    {
      CheckCallback(pkceParams, callbackUrl)
    }
  }

  // ---------------------------------------------------------------- lemmas

  /** No character that would make `urlparse` see a query, a fragment or a dropped control character. */
  predicate PlainUrlText(s: string)
  {
    forall i :: 0 <= i < |s| ==> s[i] !in {'?', '#', '\t', '\r', '\n'}
  }

  /** The query `urlparse` finds in `base?urlencode(pairs)` parses back to the nonblank pairs. */
  lemma EncodedQuery(base: string, pairs: seq<(string, string)>)
    requires PlainUrlText(base)
    ensures ParseQsl(UrlQuery(base + "?" + UrlEncode(pairs))) == NonBlank(pairs)
  {
    UrlEncodeExcludes(pairs, '#');
    UrlEncodeExcludes(pairs, '\t');
    UrlEncodeExcludes(pairs, '\r');
    UrlEncodeExcludes(pairs, '\n');
    UrlQueryOf(base, UrlEncode(pairs));
    ParseQslUrlEncode(pairs);
  }

  lemma AuthorizeBase(domain: string)
    requires PlainUrlText(domain)
    ensures PlainUrlText("https://" + domain + "/authorize")
  {
    var base := "https://" + domain + "/authorize";
    forall i | 0 <= i < |base|
      ensures base[i] !in {'?', '#', '\t', '\r', '\n'}
    {
      if 8 <= i < 8 + |domain| {
        assert base[i] == domain[i - 8];
      }
    }
  }

  /**
   * The authorization server reads back from the URL exactly the eight
   * parameters, in order, provided the host is plain and no parameter value
   * is empty; in particular the `state` it will echo is the one drawn.
   */
  lemma AuthorizationUrlParams(config: Auth0Config, p: PkceParams)
    requires PlainUrlText(config.domain)
    requires config.clientId != "" && config.audience != "" && Join(config.scopes, " ") != ""
    requires Valid(p) && p.codeChallengeMethod != ""
    ensures ParseQsl(UrlQuery(AuthorizationUrl(config, p))) == AuthorizationParams(config, p)
    ensures var m := ParseQs(UrlQuery(AuthorizationUrl(config, p)));
            "state" in m && m["state"] == [p.state] && "code_challenge" in m && m["code_challenge"] == [p.codeChallenge]
  {
    var pairs := AuthorizationParams(config, p);
    var base := "https://" + config.domain + "/authorize";
    AuthorizeBase(config.domain);
    AuthorizationNames(pairs);
    EncodedParams(base, pairs);
  }

  lemma EncodedParams(base: string, pairs: seq<(string, string)>)
    requires PlainUrlText(base)
    requires |pairs| == 8 && forall i :: 0 <= i < |pairs| ==> pairs[i].1 != ""
    requires pairs[6].0 == "state" && forall j :: 0 <= j < 8 && j != 6 ==> pairs[j].0 != "state"
    requires pairs[4].0 == "code_challenge" && forall j :: 0 <= j < 8 && j != 4 ==> pairs[j].0 != "code_challenge"
    ensures ParseQsl(UrlQuery(base + "?" + UrlEncode(pairs))) == pairs
    ensures var m := ParseQs(UrlQuery(base + "?" + UrlEncode(pairs)));
            "state" in m && m["state"] == [pairs[6].1] && "code_challenge" in m && m["code_challenge"] == [pairs[4].1]
  {
    var q := UrlQuery(base + "?" + UrlEncode(pairs));
    EncodedQuery(base, pairs);
    NonBlankAll(pairs);
    ParseQsOnly(q, 6, "state");
    ParseQsOnly(q, 4, "code_challenge");
  }

  /** Among the authorization parameters only the seventh is named `state`, only the fifth `code_challenge`. */
  lemma AuthorizationNames(pairs: seq<(string, string)>)
    requires |pairs| == 8
    requires pairs[0].0 == "response_type" && pairs[1].0 == "client_id" && pairs[2].0 == "redirect_uri"
    requires pairs[3].0 == "scope" && pairs[4].0 == "code_challenge" && pairs[5].0 == "code_challenge_method"
    requires pairs[6].0 == "state" && pairs[7].0 == "audience"
    ensures pairs[6].0 == "state" && pairs[4].0 == "code_challenge"
    ensures forall j :: 0 <= j < 8 && j != 6 ==> pairs[j].0 != "state"
    ensures forall j :: 0 <= j < 8 && j != 4 ==> pairs[j].0 != "code_challenge"
  {
    assert "response_type"[0] != "state"[0] && |"client_id"| != |"state"| && "redirect_uri"[0] != "state"[0];
    assert "scope"[1] != "state"[1] && "code_challenge"[0] != "state"[0] && "code_challenge_method"[0] != "state"[0];
    assert "audience"[0] != "state"[0];
    assert "response_type"[0] != "code_challenge"[0] && "client_id"[1] != "code_challenge"[1];
    assert "redirect_uri"[0] != "code_challenge"[0] && "scope"[0] != "code_challenge"[0];
    assert |"code_challenge_method"| != |"code_challenge"| && "state"[0] != "code_challenge"[0];
    assert "audience"[0] != "code_challenge"[0];
  }

  /**
   * A redirect carrying a nonempty `code` and `state` and no `error` is
   * accepted, with that code, exactly when its state is the expected one.
   */
  lemma CallbackWithCode(p: PkceParams, base: string, code: string, state: string)
    requires PlainUrlText(base) && code != "" && state != ""
    ensures CheckCallback(Some(p), base + "?" + UrlEncode([("code", code), ("state", state)]))
            == if state == p.state then (code, true) else ("", false)
  {
    var pairs := [("code", code), ("state", state)];
    var url := base + "?" + UrlEncode(pairs);
    EncodedQuery(base, pairs);
    NonBlankAll(pairs);
    CodeStateValues(code, state);
    assert ParseQsl(UrlQuery(url)) == pairs;
  }

  lemma CodeStateValues(code: string, state: string)
    ensures ValuesOf([("code", code), ("state", state)], "code") == [code]
    ensures ValuesOf([("code", code), ("state", state)], "state") == [state]
    ensures ValuesOf([("code", code), ("state", state)], "error") == []
  {
    var pairs := [("code", code), ("state", state)];
    var tail := [("state", state)];
    assert pairs[1..] == tail && tail[1..] == [];
    assert "code"[0] != "state"[0] && "code"[0] != "error"[0] && "state"[0] != "error"[0];
    assert ValuesOf(tail, "code") == [];
    assert ValuesOf(tail, "error") == [];
    assert ValuesOf(tail, "state") == [state];
  }

  /** A redirect naming an `error` is refused, whatever code and state come with it. */
  lemma CallbackWithError(expected: Option<PkceParams>, base: string, pairs: seq<(string, string)>, i: nat)
    requires PlainUrlText(base)
    requires i < |pairs| && pairs[i].0 == "error" && pairs[i].1 != ""
    ensures CheckCallback(expected, base + "?" + UrlEncode(pairs)) == ("", false)
  {
    EncodedQuery(base, pairs);
    NonBlankKeeps(pairs, i);
    var j :| 0 <= j < |NonBlank(pairs)| && NonBlank(pairs)[j] == pairs[i];
    ValuesOfPresent(NonBlank(pairs), "error");
  }

  /** A blank `code=` counts as no code at all: the redirect is refused. */
  lemma CallbackBlankCode(expected: Option<PkceParams>, base: string, state: string)
    requires PlainUrlText(base)
    ensures CheckCallback(expected, base + "?" + UrlEncode([("code", ""), ("state", state)])) == ("", false)
  {
    var pairs := [("code", ""), ("state", state)];
    EncodedQuery(base, pairs);
    BlankCodeDropped(state);
  }

  lemma BlankCodeDropped(state: string)
    ensures ValuesOf(NonBlank([("code", ""), ("state", state)]), "code") == []
  {
    var pairs := [("code", ""), ("state", state)];
    var kept := NonBlank(pairs);
    forall j | 0 <= j < |kept|
      ensures kept[j].0 != "code"
    {
      assert kept[j] in pairs;
      assert kept[j].1 != "";
      assert "state"[0] != "code"[0];
    }
    ValuesOfAbsent(kept, "code");
  }

  /**
   * A redirect answering an earlier authorization URL is refused once a new
   * one was built from different random bytes: the states differ.
   */
  lemma StaleStateRejected(verifierBytes: Bytes32, stateBytes: Bytes32, sha256: seq<byte> -> Bytes32,
                           oldStateBytes: Bytes32, base: string, code: string)
    requires PlainUrlText(base) && code != ""
    requires oldStateBytes != stateBytes
    ensures CheckCallback(Some(GeneratePkceParams(verifierBytes, stateBytes, sha256)),
                          base + "?" + UrlEncode([("code", code), ("state", GenerateState(oldStateBytes))]))
            == ("", false)
  {
    StateInjective(oldStateBytes, stateBytes);
    CallbackWithCode(GeneratePkceParams(verifierBytes, stateBytes, sha256), base, code, GenerateState(oldStateBytes));
  }

  /** The redirect URI is plain URL text whatever the port. */
  lemma RedirectUriPlain(port: int)
    ensures PlainUrlText(RedirectUri(port))
  {
    var uri := RedirectUri(port);
    var digits := IntToString(port);
    forall i | 0 <= i < |uri|
      ensures uri[i] !in {'?', '#', '\t', '\r', '\n'}
    {
      if 17 <= i < 17 + |digits| {
        assert uri[i] == digits[i - 17];
      }
    }
  }

  /**
   * A flow object used the way the login script uses it: before any
   * authorization URL every redirect is refused; the redirect answering the
   * URL just built is accepted with its code; once a new URL is built from
   * different random bytes, the old redirect is refused.
   */
  method Reauthorize(config: Auth0Config, disk: FileState, diskMode: int, sha256: seq<byte> -> Bytes32,
                     verifier1: Bytes32, state1: Bytes32, verifier2: Bytes32, state2: Bytes32, code: string)
    returns (early: (string, bool), first: (string, bool), stale: (string, bool))
    requires state1 != state2 && code != ""
    ensures early == ("", false) && first == (code, true) && stale == ("", false)
  {
    var flow := new OAuth2PkceFlow(config, disk, diskMode);
    var callback := RedirectUri(config.redirectPort) + "?" + UrlEncode([("code", code), ("state", GenerateState(state1))]);
    early := flow.ValidateCallbackParams(callback);
    var url1 := flow.BuildAuthorizationUrl(verifier1, state1, sha256);
    RedirectUriPlain(config.redirectPort);
    CallbackWithCode(flow.pkceParams.value, RedirectUri(config.redirectPort), code, GenerateState(state1));
    first := flow.ValidateCallbackParams(callback);
    var url2 := flow.BuildAuthorizationUrl(verifier2, state2, sha256);
    StaleStateRejected(verifier2, state2, sha256, state1, RedirectUri(config.redirectPort), code);
    stale := flow.ValidateCallbackParams(callback);
  }
}
