/**
 * `_checkEnv`: the two credentials the updater needs must be set in the process
 * environment. The environment is a map from variable names to values; dotenv
 * loading is not part of the model.
 */
module EnvCheck {
  import opened Wrappers

  type Env = map<string, string>

  const GhToken := "GH_TOKEN"
  const WakatimeApiKey := "WAKATIME_API_KEY"

  /** The messages of the errors thrown for a missing `GH_TOKEN` and `WAKATIME_API_KEY`. */
  const GhTokenMissing := "`" + GhToken + "` is a required `.env` item"
  const WakatimeApiKeyMissing := "`" + WakatimeApiKey + "` is a required `.env` item"

  /**
   * `process.env[name]` is truthy: the variable is present and not the empty
   * string (every other JavaScript string is truthy).
   */
  predicate IsSet(env: Env, name: string)
    ensures name !in env ==> !IsSet(env, name)
    ensures name in env ==> (IsSet(env, name) <==> |env[name]| > 0)
  {
    name in env && env[name] != ""
  }

  /** Passes when both credentials are set; otherwise fails naming the first one missing, `GH_TOKEN` first. */
  function CheckEnv(env: Env): (r: Outcome<string>)
    ensures r.Pass? <==> IsSet(env, GhToken) && IsSet(env, WakatimeApiKey)
    ensures !IsSet(env, GhToken) ==> r == Fail(GhTokenMissing)
    ensures IsSet(env, GhToken) && !IsSet(env, WakatimeApiKey) ==> r == Fail(WakatimeApiKeyMissing)
  {
    if !IsSet(env, GhToken) then Fail(GhTokenMissing)
    else if !IsSet(env, WakatimeApiKey) then Fail(WakatimeApiKeyMissing)
    else Pass
  }

  /** The check reads nothing but the two credentials. */
  lemma CheckEnvReadsOnlyCredentials(env1: Env, env2: Env)
    requires IsSet(env1, GhToken) == IsSet(env2, GhToken)
    requires IsSet(env1, WakatimeApiKey) == IsSet(env2, WakatimeApiKey)
    ensures CheckEnv(env1) == CheckEnv(env2)
  {
  }

  /** With both credentials missing, the error is the one for `GH_TOKEN`. */
  lemma BothMissingNamesGhToken(env: Env)
    requires !IsSet(env, GhToken) && !IsSet(env, WakatimeApiKey)
    ensures CheckEnv(env) == Fail(GhTokenMissing)
  {
  }

  /** Each message names its own variable between backquotes, so the two errors differ. */
  lemma MessagesNameTheirVariable()
    ensures GhTokenMissing[0] == '`' && GhTokenMissing[1..|GhToken| + 1] == GhToken
    ensures WakatimeApiKeyMissing[0] == '`' && WakatimeApiKeyMissing[1..|WakatimeApiKey| + 1] == WakatimeApiKey
    ensures GhTokenMissing != WakatimeApiKeyMissing
  {
    assert GhTokenMissing[1] != WakatimeApiKeyMissing[1];
  }
}
