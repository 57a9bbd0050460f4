/**
 * Environment-variable access with a cast and a pluggable error handler.
 * The environment is an explicit map; a cast is a parser from the string
 * module whose failure stands for the `ValueError`/`TypeError` the handler
 * catches. Python's `None` is `Option.None`, and the "no default" marker
 * is `Fallback.NoDefault`.
 */
module ParseEnv {
  import opened Wrappers
  import opened ParseStr

  /** The errors `raise_error` reports. */
  datatype EnvError = Missing(name: string) | Invalid(name: string, raw: string)

  /**
   * An `on_error` handler: given the variable name and the raw value (None
   * when the variable is absent), it returns a value, possibly None, or fails.
   */
  type ErrorHandler<T> = (string, Option<string>) -> Result<Option<T>, EnvError>

  /** The `default` argument: absent (`MISSING`) or a value, which may be None. */
  datatype Fallback<T> = NoDefault | Default(value: Option<T>)

  /** `raise_error`: always fails, reporting a missing variable or the invalid raw value. */
  function RaiseError<T>(name: string, raw: Option<string>): (r: Result<Option<T>, EnvError>)
    ensures r.Failure?
    ensures raw.None? <==> r.error == Missing(name)
    ensures raw.Some? ==> r.error == Invalid(name, raw.value)
  {
    match raw
    case None => Failure(Missing(name))
    case Some(value) => Failure(Invalid(name, value))
  }

  /** `on_error_return_value`: a handler that ignores its arguments and returns `value`. */
  function OnErrorReturnValue<T>(value: Option<T>): (handler: ErrorHandler<T>)
    ensures forall name, raw :: handler(name, raw) == Success(value)
  {
    (name: string, raw: Option<string>) => Success(value)
  }

  /**
   * `get_env`: a present variable is cast, and a failed cast goes to the
   * handler with the raw value; a missing one yields the default when there
   * is one and otherwise goes to the handler with None.
   */
  function GetEnv<T>(name: string, cast: Cast<T>, default: Fallback<T>, env: map<string, string>,
                     onError: ErrorHandler<T>): (r: Result<Option<T>, EnvError>)
    ensures name in env && cast(env[name]).Success? ==> r == Success(Some(cast(env[name]).value))
    ensures name in env && cast(env[name]).Failure? ==> r == onError(name, Some(env[name]))
    ensures name !in env && default.Default? ==> r == Success(default.value)
    ensures name !in env && default.NoDefault? ==> r == onError(name, None)
  {
    if name !in env then
      match default
      case NoDefault => onError(name, None)
      case Default(value) => Success(value)
    else
      match cast(env[name])
      case Success(value) => Success(Some(value))
      case Failure(_) => onError(name, Some(env[name]))
  }

  /** The handler is never consulted for a missing variable with a default, nor for a valid one. */
  lemma GetEnvIgnoresHandler<T>(name: string, cast: Cast<T>, default: Fallback<T>, env: map<string, string>,
                                handler: ErrorHandler<T>, other: ErrorHandler<T>)
    requires (name !in env && default.Default?) || (name in env && cast(env[name]).Success?)
    ensures GetEnv(name, cast, default, env, handler) == GetEnv(name, cast, default, env, other)
  {
  }

  /** With the default handler, a missing variable without default or an invalid one is an error naming it. */
  lemma GetEnvRaises<T>(name: string, cast: Cast<T>, env: map<string, string>)
    ensures name !in env ==> GetEnv(name, cast, NoDefault, env, RaiseError) == Failure(Missing(name))
    ensures name in env && cast(env[name]).Failure? ==>
      GetEnv(name, cast, NoDefault, env, RaiseError) == Failure(Invalid(name, env[name]))
  {
  }

  /** `env_or_none`: the cast value, or None when the variable is missing or invalid; it never fails. */
  function EnvOrNone<T>(name: string, cast: Cast<T>, env: map<string, string>): (r: Result<Option<T>, EnvError>)
    ensures r.Success?
    ensures r.value.Some? <==> name in env && cast(env[name]).Success?
    ensures r.value.Some? ==> r.value.value == cast(env[name]).value
  {
    GetEnv(name, cast, Default(None), env, OnErrorReturnValue(None))
  }

  /** `env_or_default`: the cast value, or `default` when the variable is missing or invalid; it never fails. */
  function EnvOrDefault<T>(name: string, cast: Cast<T>, default: T, env: map<string, string>)
    : (r: Result<Option<T>, EnvError>)
    ensures r.Success? && r.value.Some?
    ensures name in env && cast(env[name]).Success? ==> r.value.value == cast(env[name]).value
    ensures !(name in env && cast(env[name]).Success?) ==> r.value.value == default
  {
    GetEnv(name, cast, Default(Some(default)), env, OnErrorReturnValue(Some(default)))
  }

  /**
   * `_env_wrapper`, the body of every typed `env_*` helper: a required
   * variable has no default and raises; an optional one falls back to
   * `default` (possibly None) both when missing and when invalid.
   */
  function EnvWrapper<T>(name: string, parser: Cast<T>, default: Option<T>, required: bool,
                         env: map<string, string>): (r: Result<Option<T>, EnvError>)
    ensures name in env && parser(env[name]).Success? ==> r == Success(Some(parser(env[name]).value))
    ensures required && name !in env ==> r == Failure(Missing(name))
    ensures required && name in env && parser(env[name]).Failure? ==> r == Failure(Invalid(name, env[name]))
    ensures !required && !(name in env && parser(env[name]).Success?) ==> r == Success(default)
  {
    var handler: ErrorHandler<T> := if required then RaiseError else OnErrorReturnValue(default);
    var fallback := if required then NoDefault else Default(default);
    GetEnv(name, parser, fallback, env, handler)
  }

  /** An optional variable never makes the wrapper fail. */
  lemma OptionalNeverFails<T>(name: string, parser: Cast<T>, default: Option<T>, env: map<string, string>)
    ensures EnvWrapper(name, parser, default, false, env).Success?
  {
  }

  /** A required variable makes the wrapper fail exactly when it is missing or invalid. */
  lemma RequiredFailsIffUnusable<T>(name: string, parser: Cast<T>, default: Option<T>, env: map<string, string>)
    ensures EnvWrapper(name, parser, default, true, env).Failure? <==> !(name in env && parser(env[name]).Success?)
  {
  }

  /** `env_or_none` is the optional wrapper with no default. */
  lemma EnvOrNoneIsOptionalWrapper<T>(name: string, cast: Cast<T>, env: map<string, string>)
    ensures EnvOrNone(name, cast, env) == EnvWrapper(name, cast, None, false, env)
  {
  }

  const Debug: string := "DEBUG"

  /**
   * A value `parse_bool` rejects goes to the handler with its raw text: with
   * the raising handler that is an invalid-value error, with a handler that
   * returns False the result is False.
   */
  lemma InvalidBoolGoesToHandler()
    ensures GetEnv(Debug, ParseBool, NoDefault, map[Debug := Maybe], RaiseError) == Failure(Invalid(Debug, Maybe))
    ensures GetEnv(Debug, ParseBool, NoDefault, map[Debug := Maybe], OnErrorReturnValue(Some(false)))
            == Success(Some(false))
  {
    ParseBoolMaybe();
  }
}
