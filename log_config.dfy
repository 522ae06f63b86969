/** The logging configuration (`server/src/logging/config.rs`): its
    defaults, and `from_env`, which starts from them and overwrites one
    field after another from the environment. */
module LoggingConfig {
  import opened Wrappers
  import opened Text
  import opened Environment

  datatype LogFormat = Json | Pretty | Compact

  /** `LogConfig`. The sizes, the retention and the threshold are `u64`,
      except `retentionDays`, a `u32`. */
  datatype LogConfig = LogConfig(
    customLogDir: Option<string>,
    consoleLogLevel: string,
    fileLogLevel: string,
    accessEnabled: bool,
    applicationEnabled: bool,
    format: LogFormat,
    maxSizeMb: nat,
    retentionDays: nat,
    maxTotalSizeMb: nat,
    compressionEnabled: bool,
    enableCleanup: bool,
    logSlowRequests: bool,
    slowRequestThresholdMs: nat)

  /** `LogConfig::default`. */
  function Default(): LogConfig {
    LogConfig(None, "info", "debug", true, true, Json, 50, 30, 1000, true, true, true, 5000)
  }

  /** The console level when `RUST_LOG` is unset. */
  const DefaultConsoleLevel: string := "porua_server=info,ort=warn,kokoros=warn"

  // ---------------------------------------------------------------------------
  // The configuration field by field
  // ---------------------------------------------------------------------------

  /** A flag: when its variable is set, whether the value lower-cased is
      "true"; otherwise its default. */
  function Flag(env: Env, name: string, default: bool): bool {
    match Var(env, name)
    case None => default
    case Some(v) => IsTrue(v)
  }

  /** `value.to_lowercase() == "true"`. */
  predicate IsTrue(value: string) {
    Lowercase(value) == "true"
  }

  /** A number: the variable's value when it is set and parses as an
      integer of at most `max`; otherwise the default. */
  function Number(env: Env, name: string, max: nat, default: nat): nat {
    match Var(env, name)
    case None => default
    case Some(v) => ParseUnsigned(v, max).GetOr(default)
  }

  /** The format named by a lower-cased `LOG_FORMAT`. */
  function FormatNamed(lowered: string): LogFormat {
    if lowered == "pretty" then Pretty
    else if lowered == "compact" then Compact
    else Json
  }

  /** The format: when `LOG_FORMAT` is set, the one it names; otherwise
      the default. */
  function Format(env: Env, default: LogFormat): LogFormat {
    match Var(env, "LOG_FORMAT")
    case None => default
    case Some(f) => FormatNamed(Lowercase(f))
  }

  /** What `from_env` computes, each field from its own variable. */
  function Configured(env: Env): LogConfig {
    var d := Default();
    LogConfig(
      Var(env, "PORUA_LOG_DIR"),
      Var(env, "RUST_LOG").GetOr(DefaultConsoleLevel),
      Var(env, "PORUA_FILE_LOG_LEVEL").GetOr(d.fileLogLevel),
      Flag(env, "LOG_ACCESS_ENABLED", d.accessEnabled),
      Flag(env, "LOG_APPLICATION_ENABLED", d.applicationEnabled),
      Format(env, d.format),
      Number(env, "LOG_MAX_SIZE_MB", U64_MAX, d.maxSizeMb),
      Number(env, "LOG_RETENTION_DAYS", U32_MAX, d.retentionDays),
      Number(env, "LOG_MAX_TOTAL_SIZE_MB", U64_MAX, d.maxTotalSizeMb),
      Flag(env, "LOG_COMPRESSION", d.compressionEnabled),
      Flag(env, "LOG_ENABLE_CLEANUP", d.enableCleanup),
      Flag(env, "LOG_SLOW_REQUESTS", d.logSlowRequests),
      Number(env, "LOG_SLOW_REQUEST_THRESHOLD_MS", U64_MAX, d.slowRequestThresholdMs))
  }

  /** `LogConfig::from_env`: the default, then each variable in turn
      overwrites its field when it is set (a number only when it also
      parses). */
  method FromEnv(env: Env) returns (config: LogConfig)
    ensures config == Configured(env)
  {
    config := Default();
    if "PORUA_LOG_DIR" in env {
      config := config.(customLogDir := Some(env["PORUA_LOG_DIR"]));
    }
    config := config.(consoleLogLevel := Var(env, "RUST_LOG").GetOr(DefaultConsoleLevel));
    config := config.(fileLogLevel := Var(env, "PORUA_FILE_LOG_LEVEL").GetOr(config.fileLogLevel));
    config := config.(accessEnabled := Flag(env, "LOG_ACCESS_ENABLED", config.accessEnabled));
    config := config.(applicationEnabled := Flag(env, "LOG_APPLICATION_ENABLED", config.applicationEnabled));
    config := config.(format := Format(env, config.format));
    config := config.(maxSizeMb := Number(env, "LOG_MAX_SIZE_MB", U64_MAX, config.maxSizeMb));
    config := config.(retentionDays := Number(env, "LOG_RETENTION_DAYS", U32_MAX, config.retentionDays));
    config := config.(maxTotalSizeMb := Number(env, "LOG_MAX_TOTAL_SIZE_MB", U64_MAX, config.maxTotalSizeMb));
    config := config.(compressionEnabled := Flag(env, "LOG_COMPRESSION", config.compressionEnabled));
    config := config.(enableCleanup := Flag(env, "LOG_ENABLE_CLEANUP", config.enableCleanup));
    config := config.(logSlowRequests := Flag(env, "LOG_SLOW_REQUESTS", config.logSlowRequests));
    config := config.(slowRequestThresholdMs :=
      Number(env, "LOG_SLOW_REQUEST_THRESHOLD_MS", U64_MAX, config.slowRequestThresholdMs));
  }

  // ---------------------------------------------------------------------------
  // Properties
  // ---------------------------------------------------------------------------

  /** With no variable set the configuration is the default, except for
      the console level, which is always overwritten. */
  lemma EmptyEnvironment()
    ensures Configured(map[]) == Default().(consoleLogLevel := DefaultConsoleLevel)
  {
  }

  /** Only the exact word "true", in any case, turns a set flag on;
      anything else, "1" or "yes" included, turns it off. */
  lemma FlagSpec(env: Env, name: string, default: bool)
    ensures name !in env ==> Flag(env, name, default) == default
    ensures name in env ==> (Flag(env, name, default) <==> Lowercase(env[name]) == "true")
    ensures Var(env, name) == Some("TRUE") ==> Flag(env, name, default)
    ensures Var(env, name) == Some("1") ==> !Flag(env, name, default)
  {
    LowercaseAscii("TRUE");
    assert ToLower("TRUE") == "true";
    LowercaseAscii("1");
    assert ToLower("1") == "1";
  }

  /** A number is overwritten exactly when its value parses: any value up
      to the maximum written in decimal is taken, anything with a
      character other than a digit (after an optional leading '+') keeps
      the default. */
  lemma NumberSpec(env: Env, name: string, max: nat, default: nat, n: nat, i: nat)
    ensures name !in env ==> Number(env, name, max, default) == default
    ensures n <= max && Var(env, name) == Some(NatToDecimal(n)) ==> Number(env, name, max, default) == n
    ensures name in env && i < |env[name]| && !IsAsciiDigit(env[name][i]) && !(i == 0 && env[name][i] == '+') ==>
      Number(env, name, max, default) == default
    ensures default <= max ==> Number(env, name, max, default) <= max
  {
    if n <= max {
      ParseDecimal(n, max);
    }
    if name in env && i < |env[name]| && !IsAsciiDigit(env[name][i]) && !(i == 0 && env[name][i] == '+') {
      ParseRejectsNonDigit(env[name], max, i);
    }
  }

  /** The format: "pretty" and "compact" in any case name theirs, every
      other value selects JSON. */
  lemma FormatSpec(lowered: string)
    ensures FormatNamed(lowered) == Pretty <==> lowered == "pretty"
    ensures FormatNamed(lowered) == Compact <==> lowered == "compact"
    ensures FormatNamed(lowered) == Json <==> lowered != "pretty" && lowered != "compact"
  {
  }

  /** The retention and the sizes keep to the width of their fields, and
      the custom directory is present exactly when `PORUA_LOG_DIR` is
      set. */
  lemma ConfiguredBounds(env: Env)
    ensures Configured(env).retentionDays <= U32_MAX
    ensures Configured(env).maxSizeMb <= U64_MAX && Configured(env).maxTotalSizeMb <= U64_MAX
    ensures Configured(env).slowRequestThresholdMs <= U64_MAX
    ensures Configured(env).customLogDir.Some? <==> "PORUA_LOG_DIR" in env
  {
  }
}
