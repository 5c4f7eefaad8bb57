/**
 * `OpenAIModelConfig` of src/config.py and the `get_env_variable` helper of
 * src/utils.py. The process environment is the map `env`; an
 * `EnvironmentError` is a `Failure`. Configuration values are opaque: only
 * the few the defaults build are spelt out.
 */
module ModelConfig {
  import opened Wrappers

  /** A value read from a configuration dictionary. */
  datatype Value =
    | Str(s: string)
    | Int(i: int)
    | Float(r: real)
    | Dict(entries: map<string, Value>)
    | Other(tag: string)

  /** The `EnvironmentError` raised for a variable that is not set. */
  datatype EnvError = NotFound(variable: string)

  datatype OpenAIModelConfig = OpenAIModelConfig(modelId: Value, params: Value, clientArgs: Value)

  const ApiKeyVariable: string := "OPENAI_API_KEY"
  const DefaultModelId: Value := Str("gpt-4o")
  const DefaultParams: Value := Dict(map["max_tokens" := Int(800), "temperature" := Float(0.1)])

  /** `get_env_variable`: the value of a set variable, even an empty one; only an unset variable fails. */
  function GetEnvVariable(env: map<string, string>, name: string): (r: Result<string, EnvError>)
    ensures r.Success? <==> name in env
    ensures r.Success? ==> r.value == env[name]
    ensures r.Failure? ==> r.error == NotFound(name)
  {
    if name in env then Success(env[name]) else Failure(NotFound(name))
  }

  /** `config.get(key, default)`. */
  function Get(config: map<string, Value>, key: string, default: Value): Value
  {
    if key in config then config[key] else default
  }

  /** The `client_args` default: the API key under `api_key`. */
  function DefaultClientArgs(apiKey: string): Value
  {
    Dict(map["api_key" := Str(apiKey)])
  }

  /**
   * `OpenAIModelConfig.from_dict`. The `client_args` default is an argument
   * of `config.get`, so it is built, and the API key looked up, whether or
   * not the dictionary has `client_args`.
   */
  function FromDict(config: map<string, Value>, env: map<string, string>): (r: Result<OpenAIModelConfig, EnvError>)
    ensures r.Failure? <==> ApiKeyVariable !in env
    ensures r.Failure? ==> r.error == NotFound(ApiKeyVariable)
    ensures r.Success? ==>
              && r.value.modelId == (if "model_id" in config then config["model_id"] else DefaultModelId)
              && r.value.params == (if "params" in config then config["params"] else DefaultParams)
              && r.value.clientArgs == (if "client_args" in config then config["client_args"]
                                        else DefaultClientArgs(env[ApiKeyVariable]))
  {
    var modelId := Get(config, "model_id", DefaultModelId);
    var params := Get(config, "params", DefaultParams);
    match GetEnvVariable(env, ApiKeyVariable)
    case Failure(e) => Failure(e)
    case Success(apiKey) =>
      Success(OpenAIModelConfig(modelId, params, Get(config, "client_args", DefaultClientArgs(apiKey))))
  }

  /** `OpenAIModelConfig.to_dict`: exactly the three field names, each with its field's value. */
  function ToDict(c: OpenAIModelConfig): (d: map<string, Value>)
    ensures d.Keys == {"model_id", "params", "client_args"}
    ensures d["model_id"] == c.modelId && d["params"] == c.params && d["client_args"] == c.clientArgs
  {
    map["model_id" := c.modelId, "params" := c.params, "client_args" := c.clientArgs]
  }

  /** `from_dict(to_dict(c)) == c` once the API key variable is set. */
  lemma FromDictToDict(c: OpenAIModelConfig, env: map<string, string>)
    requires ApiKeyVariable in env
    ensures FromDict(ToDict(c), env) == Success(c)
  {
  }

  /** An empty dictionary gives the defaults: `gpt-4o`, 800 tokens at temperature 0.1, and the API key. */
  lemma FromDictEmpty(env: map<string, string>)
    requires ApiKeyVariable in env
    ensures FromDict(map[], env) == Success(OpenAIModelConfig(DefaultModelId, DefaultParams, DefaultClientArgs(env[ApiKeyVariable])))
  {
  }
}
