/**
 * `Auth0Config` and `Auth0Config.load_from_env` of scripts/oauth_login.py.
 * The environment the script reads with `os.getenv` (after `load_dotenv`)
 * is the map `env`; a `ValueError` is a `Failure`.
 */
module Auth0 {
  import opened Wrappers
  import opened Text

  datatype Auth0Config = Auth0Config(
    domain: string,
    clientId: string,
    audience: string,
    scopes: seq<string>,
    redirectPort: int := 8080)

  /** The `ValueError`s `load_from_env` raises: a required variable unset or empty, or a port `int()` rejects. */
  datatype ConfigError = Missing(variable: string) | InvalidPort(text: string)

  /** The required variables, in the order they are checked. */
  const Required: seq<string> := ["AUTH0_DOMAIN", "AUTH0_CLIENT_ID", "AUTH0_AUDIENCE"]

  const DefaultScopes: string := "openid,profile,offline_access"
  const DefaultPort: string := "8080"

  /** `os.getenv(name)` is truthy: present and not empty. */
  predicate IsSet(env: map<string, string>, name: string)
  {
    name in env && env[name] != ""
  }

  /** `os.getenv(name, default)`: an empty value is kept, only absence gives the default. */
  function GetEnv(env: map<string, string>, name: string, default: string): string
  {
    if name in env then env[name] else default
  }

  /** `[scope.strip() for scope in parts]`. */
  function StripEach(parts: seq<string>): (r: seq<string>)
    ensures |r| == |parts| && forall i :: 0 <= i < |parts| ==> r[i] == Strip(parts[i])
  {
    if parts == [] then [] else [Strip(parts[0])] + StripEach(parts[1..])
  }

  /**
   * The configuration `load_from_env` builds from `env`, or the `ValueError`
   * it raises: a missing variable is a required one that is unset or empty, a
   * rejected port is the port text read, and a configuration is built only
   * when all three required variables are set, from their values, with at
   * least one scope.
   */
  function LoadFromEnv(env: map<string, string>): (r: Result<Auth0Config, ConfigError>)
    ensures r.Failure? && r.error.Missing? ==> r.error.variable in Required && !IsSet(env, r.error.variable)
    ensures r.Failure? && r.error.InvalidPort? ==> r.error.text == GetEnv(env, "AUTH0_REDIRECT_PORT", DefaultPort)
    ensures r.Success? ==>
              && IsSet(env, "AUTH0_DOMAIN") && r.value.domain == env["AUTH0_DOMAIN"]
              && IsSet(env, "AUTH0_CLIENT_ID") && r.value.clientId == env["AUTH0_CLIENT_ID"]
              && IsSet(env, "AUTH0_AUDIENCE") && r.value.audience == env["AUTH0_AUDIENCE"]
              && |r.value.scopes| >= 1
  {
    if !IsSet(env, "AUTH0_DOMAIN") then Failure(Missing("AUTH0_DOMAIN"))
    else if !IsSet(env, "AUTH0_CLIENT_ID") then Failure(Missing("AUTH0_CLIENT_ID"))
    else if !IsSet(env, "AUTH0_AUDIENCE") then Failure(Missing("AUTH0_AUDIENCE"))
    else
      var scopesText := GetEnv(env, "AUTH0_SCOPES", DefaultScopes);
      var scopes := StripEach(Split(scopesText, ','));
      var portText := GetEnv(env, "AUTH0_REDIRECT_PORT", DefaultPort);
      match ParseInt(portText)
      case None => Failure(InvalidPort(portText))
      case Some(port) =>
        Success(Auth0Config(env["AUTH0_DOMAIN"], env["AUTH0_CLIENT_ID"], env["AUTH0_AUDIENCE"], scopes, port))
  }

  /**
   * The required variables are checked in order: loading fails with `Missing`
   * exactly when one of them is unset or empty, and names the first such.
   */
  lemma LoadFromEnvRequired(env: map<string, string>)
    ensures var r := LoadFromEnv(env);
            r.Failure? && r.error.Missing? <==> exists i :: 0 <= i < |Required| && !IsSet(env, Required[i])
    ensures var r := LoadFromEnv(env);
            r.Failure? && r.error.Missing? ==>
              exists i :: 0 <= i < |Required| && r.error.variable == Required[i] && !IsSet(env, Required[i])
                          && forall j :: 0 <= j < i ==> IsSet(env, Required[j])
  {
    if !IsSet(env, "AUTH0_DOMAIN") {
      assert !IsSet(env, Required[0]);
    } else if !IsSet(env, "AUTH0_CLIENT_ID") {
      assert !IsSet(env, Required[1]) && IsSet(env, Required[0]);
    } else if !IsSet(env, "AUTH0_AUDIENCE") {
      assert !IsSet(env, Required[2]) && IsSet(env, Required[1]) && IsSet(env, Required[0]);
    } else {
      assert forall i :: 0 <= i < |Required| ==> IsSet(env, Required[i]);
    }
  }

  /**
   * Once the required variables are set, only the port can fail, exactly when
   * `int()` rejects its text; on success the fields are the variables' values,
   * the port is the parsed text and the scopes are the comma-separated pieces
   * of AUTH0_SCOPES, each stripped, with nothing lost between the pieces.
   */
  lemma LoadFromEnvFields(env: map<string, string>)
    requires forall i :: 0 <= i < |Required| ==> IsSet(env, Required[i])
    ensures var r := LoadFromEnv(env);
            var portText := GetEnv(env, "AUTH0_REDIRECT_PORT", DefaultPort);
            && (r.Failure? <==> ParseInt(portText).None?)
            && (r.Failure? ==> r.error == InvalidPort(portText))
    ensures var r := LoadFromEnv(env);
            r.Success? ==>
              && r.value.domain == env["AUTH0_DOMAIN"]
              && r.value.clientId == env["AUTH0_CLIENT_ID"]
              && r.value.audience == env["AUTH0_AUDIENCE"]
              && ParseInt(GetEnv(env, "AUTH0_REDIRECT_PORT", DefaultPort)) == Some(r.value.redirectPort)
    ensures var r := LoadFromEnv(env);
            var scopesText := GetEnv(env, "AUTH0_SCOPES", DefaultScopes);
            var raw := Split(scopesText, ',');
            r.Success? ==>
              && Join(raw, ",") == scopesText
              && |r.value.scopes| == |raw|
              && forall i :: 0 <= i < |raw| ==> r.value.scopes[i] == Strip(raw[i]) && ',' !in raw[i]
  {
    assert IsSet(env, Required[0]) && IsSet(env, Required[1]) && IsSet(env, Required[2]);
    JoinSplit(GetEnv(env, "AUTH0_SCOPES", DefaultScopes), ',');
  }

  /** Without AUTH0_REDIRECT_PORT, loading succeeds once the required variables are set, with port 8080. */
  lemma LoadFromEnvDefaultPort(env: map<string, string>)
    requires forall i :: 0 <= i < |Required| ==> IsSet(env, Required[i])
    requires "AUTH0_REDIRECT_PORT" !in env
    ensures LoadFromEnv(env).Success? && LoadFromEnv(env).value.redirectPort == 8080
  {
    assert IsSet(env, Required[0]) && IsSet(env, Required[1]) && IsSet(env, Required[2]);
    DefaultPortText();
    ParseIntToString(8080);
  }

  /** Without AUTH0_SCOPES, the scopes are `openid`, `profile` and `offline_access`. */
  lemma LoadFromEnvDefaultScopes(env: map<string, string>)
    requires "AUTH0_SCOPES" !in env
    ensures LoadFromEnv(env).Success? ==> LoadFromEnv(env).value.scopes == ["openid", "profile", "offline_access"]
  {
    var r := LoadFromEnv(env);
    if r.Success? {
      assert r.value.scopes == StripEach(Split(DefaultScopes, ','));
      DefaultScopesSplit();
    }
  }

  /** The default text splits at its commas into the three default scopes. */
  lemma DefaultScopesPieces()
    ensures Split(DefaultScopes, ',') == ["openid", "profile", "offline_access"]
  {
    var parts := ["openid", "profile", "offline_access"];
    assert parts[1..] == ["profile", "offline_access"];
    assert parts[2..] == ["offline_access"];
    assert Join(parts, ",") == DefaultScopes;
    SplitJoin(parts, ',');
  }

  lemma StripEachUnpadded(parts: seq<string>)
    requires forall i :: 0 <= i < |parts| ==> parts[i] != [] && !IsSpace(parts[i][0]) && !IsSpace(parts[i][|parts[i]| - 1])
    ensures StripEach(parts) == parts
  {
    forall i | 0 <= i < |parts|
      ensures Strip(parts[i]) == parts[i]
    {
      TrimNoSpace(parts[i], IsSpace);
    }
  }

  /** The default scopes split and strip to `openid`, `profile`, `offline_access`. */
  lemma DefaultScopesSplit()
    ensures StripEach(Split(DefaultScopes, ',')) == ["openid", "profile", "offline_access"]
  {
    DefaultScopesPieces();
    DefaultScopesUnpadded();
  }

  lemma DefaultScopesUnpadded()
    ensures StripEach(["openid", "profile", "offline_access"]) == ["openid", "profile", "offline_access"]
  {
    StripEachUnpadded(["openid", "profile", "offline_access"]);
  }

  /** The default port text is `str(8080)`. */
  lemma DefaultPortText()
    ensures IntToString(8080) == DefaultPort
  {
    assert NatToString(8) == "8";
    assert NatToString(80) == NatToString(8) + "0";
    assert NatToString(808) == NatToString(80) + "8";
  }
}
