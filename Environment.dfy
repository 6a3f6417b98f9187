/**
 * `config/environment.js`: the configuration record derived from the process environment,
 * with JavaScript's `||` defaults (an unset or empty variable takes the default), and its
 * `validate()` check.
 */
module Environment {
  import opened Wrappers

  /** `process.env`: every value is a string; an absent key is `undefined`. */
  type Env = map<string, string>

  /** `process.env[name]` is truthy. */
  predicate IsSet(env: Env, name: string)
  {
    name in env && env[name] != ""
  }

  /** `process.env[name] || fallback`. */
  function OrDefault(env: Env, name: string, fallback: string): (r: string)
    ensures IsSet(env, name) ==> r == env[name]
    ensures !IsSet(env, name) ==> r == fallback
  {
    if IsSet(env, name) then env[name] else fallback
  }

  /** `process.env.PORT || 3000`: the variable's text, or the number 3000. */
  datatype Port = PortText(text: string) | PortNumber(number: int)

  datatype Config = Config(
    port: Port,
    nodeEnv: string,
    isDevelopment: bool,
    isProduction: bool,
    databasePath: string,
    databaseType: string,
    connectionLimitText: string,
    jwtSecret: string,
    jwtExpiry: string,
    corsOrigin: string,
    logLevel: string,
    enableRegistration: bool)

  /** The exported object literal: every setting is its variable when that is set and
      non-empty, and the documented default otherwise; `nodeEnv` decides both mode flags. */
  function LoadConfig(env: Env): (c: Config)
    ensures c.nodeEnv == (if IsSet(env, "NODE_ENV") then env["NODE_ENV"] else "development")
    ensures c.isDevelopment <==> c.nodeEnv == "development"
    ensures c.isProduction <==> c.nodeEnv == "production"
    ensures c.databasePath == (if IsSet(env, "DATABASE_PATH") then env["DATABASE_PATH"] else "./database/teacher_portal.db")
    ensures c.databaseType == (if IsSet(env, "DB_TYPE") then env["DB_TYPE"] else "sqlite")
    ensures c.connectionLimitText == (if IsSet(env, "DB_CONNECTION_LIMIT") then env["DB_CONNECTION_LIMIT"] else "5")
    ensures c.corsOrigin == (if IsSet(env, "CORS_ORIGIN") then env["CORS_ORIGIN"] else "http://localhost:3000")
    ensures c.logLevel == (if IsSet(env, "LOG_LEVEL") then env["LOG_LEVEL"] else "debug")
  {
    Config(
      if IsSet(env, "PORT") then PortText(env["PORT"]) else PortNumber(3000),
      OrDefault(env, "NODE_ENV", "development"),
      OrDefault(env, "NODE_ENV", "development") == "development",
      "NODE_ENV" in env && env["NODE_ENV"] == "production",
      OrDefault(env, "DATABASE_PATH", "./database/teacher_portal.db"),
      OrDefault(env, "DB_TYPE", "sqlite"),
      OrDefault(env, "DB_CONNECTION_LIMIT", "5"),
      OrDefault(env, "JWT_SECRET", "change_this_secret_key"),
      OrDefault(env, "JWT_EXPIRY", "7d"),
      OrDefault(env, "CORS_ORIGIN", "http://localhost:3000"),
      OrDefault(env, "LOG_LEVEL", "debug"),
      "ENABLE_REGISTRATION" in env && env["ENABLE_REGISTRATION"] == "true")
  }

  /** What the configuration promises about its server and security settings. */
  lemma ConfigDefaults(env: Env)
    ensures LoadConfig(env).port == (if IsSet(env, "PORT") then PortText(env["PORT"]) else PortNumber(3000))
    ensures LoadConfig(env).isDevelopment <==> !IsSet(env, "NODE_ENV") || env["NODE_ENV"] == "development"
    ensures LoadConfig(env).isProduction <==> IsSet(env, "NODE_ENV") && env["NODE_ENV"] == "production"
    ensures !(LoadConfig(env).isDevelopment && LoadConfig(env).isProduction)
    ensures !IsSet(env, "JWT_SECRET") ==> LoadConfig(env).jwtSecret == "change_this_secret_key"
    ensures !IsSet(env, "JWT_EXPIRY") ==> LoadConfig(env).jwtExpiry == "7d"
    ensures LoadConfig(env).enableRegistration <==> IsSet(env, "ENABLE_REGISTRATION") && env["ENABLE_REGISTRATION"] == "true"
  {
  }

  /** The variables `validate` insists on. */
  const RequiredVars: seq<string> := ["JWT_SECRET"]

  /** `requiredVars.filter(v => !process.env[v])`: the unset ones, in their listed order. */
  function MissingVars(required: seq<string>, env: Env): (r: seq<string>)
    ensures |r| <= |required|
    ensures forall v :: v in r <==> v in required && !IsSet(env, v)
    ensures r == [] <==> forall k :: 0 <= k < |required| ==> IsSet(env, required[k])
    decreases |required|
  {
    if |required| == 0 then []
    else
      var rest := MissingVars(required[1..], env);
      assert forall v :: v in required <==> v == required[0] || v in required[1..];
      if IsSet(env, required[0]) then rest else [required[0]] + rest
  }

  /** `missing.join(', ')`: the parts in order, the separator between each two of them. */
  function Join(parts: seq<string>, separator: string): (r: string)
    ensures |parts| == 0 ==> r == ""
    ensures |parts| == 1 ==> r == parts[0]
    ensures |parts| > 1 ==> |r| >= |parts[0]| + |separator| && r[..|parts[0]| + |separator|] == parts[0] + separator
    decreases |parts|
  {
    if |parts| == 0 then ""
    else if |parts| == 1 then parts[0]
    else parts[0] + separator + Join(parts[1..], separator)
  }

  const MissingPrefix: string := "Missing required environment variables: "

  /** `validate()`: `None` when it returns, `Some(message)` when it throws. It reads the
      production flag computed when the module was loaded and the environment as it is now. */
  function Validate(config: Config, env: Env): (thrown: Option<string>)
    ensures thrown.Some? <==> config.isProduction && MissingVars(RequiredVars, env) != []
    ensures thrown.Some? ==> thrown.value == MissingPrefix + Join(MissingVars(RequiredVars, env), ", ")
  {
    var missing := MissingVars(RequiredVars, env);
    if |missing| > 0 && config.isProduction then Some(MissingPrefix + Join(missing, ", ")) else None
  }

  /** Against the configuration loaded from the same environment: `validate()` throws exactly
      when NODE_ENV is "production" and JWT_SECRET is unset or empty, and the message then
      names JWT_SECRET alone. */
  lemma ValidateThrowsOnlyForMissingSecretInProduction(env: Env)
    ensures Validate(LoadConfig(env), env).Some? <==>
      !IsSet(env, "JWT_SECRET") && "NODE_ENV" in env && env["NODE_ENV"] == "production"
    ensures Validate(LoadConfig(env), env).Some? ==>
      Validate(LoadConfig(env), env).value == "Missing required environment variables: JWT_SECRET"
  {
    ValidateWithRequiredVars(LoadConfig(env), env);
  }

  /** With the one required variable: `validate()` throws exactly in production with JWT_SECRET
      unset or empty, and names JWT_SECRET alone. */
  lemma ValidateWithRequiredVars(config: Config, env: Env)
    ensures Validate(config, env).Some? <==> config.isProduction && !IsSet(env, "JWT_SECRET")
    ensures Validate(config, env).Some? ==>
      Validate(config, env).value == "Missing required environment variables: JWT_SECRET"
  {
    var missing := MissingVars(RequiredVars, env);
    assert RequiredVars[1..] == [];
    if !IsSet(env, "JWT_SECRET") {
      assert missing == ["JWT_SECRET"];
    }
  }
}
