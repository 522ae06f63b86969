/** The start-up decisions of the server binary (`server/src/main.rs`):
    the command-line flags, the pool size, the rate-limit mode with its
    limits, and the request timeout. */
module ServerMain {
  import opened Wrappers
  import opened Text
  import opened Environment

  // ---------------------------------------------------------------------------
  // Command line
  // ---------------------------------------------------------------------------

  /** The first position of `x` in `s`. */
  function IndexOf(s: seq<string>, x: string): (r: Option<nat>)
    ensures r.Some? ==> r.value < |s| && s[r.value] == x && forall j :: 0 <= j < r.value ==> s[j] != x
    ensures r.None? <==> x !in s
  {
    if s == [] then None
    else if s[0] == x then Some(0)
    else match IndexOf(s[1..], x)
      case None => None
      case Some(k) => Some(k + 1)
  }

  const DefaultPort: nat := 3000
  const DefaultPoolSize: nat := 2

  /** The port: the argument after the first `--port`, when there is one
      and it parses as a `u16`; otherwise 3000. */
  function Port(args: seq<string>): nat {
    match IndexOf(args, "--port")
    case None => DefaultPort
    case Some(pos) =>
      if pos + 1 < |args| then ParseUnsigned(args[pos + 1], U16_MAX).GetOr(DefaultPort) else DefaultPort
  }

  /** `TTS_POOL_SIZE` when it parses as a `usize`, otherwise 2. */
  function PoolSize(env: Env): nat {
    match Var(env, "TTS_POOL_SIZE")
    case None => DefaultPoolSize
    case Some(v) => ParseUnsigned(v, U64_MAX).GetOr(DefaultPoolSize)
  }

  /** What `main` sets out to do: print the version and stop, or go on in
      server or command-line mode with a port and a pool size. */
  datatype Startup = ShowVersion | Run(serverMode: bool, port: nat, poolSize: nat)

  function StartupOf(args: seq<string>, env: Env): Startup {
    if "--version" in args || "-v" in args then ShowVersion
    else Run("--server" in args, Port(args), PoolSize(env))
  }

  /** The version flags win over every other argument; otherwise the port
      fits a `u16` and is 3000 unless given. */
  lemma StartupSpec(args: seq<string>, env: Env)
    ensures StartupOf(args, env) == ShowVersion <==> "--version" in args || "-v" in args
    ensures StartupOf(args, env).Run? ==> StartupOf(args, env).port <= U16_MAX
    ensures "--port" !in args ==> Port(args) == DefaultPort
    ensures "TTS_POOL_SIZE" !in env ==> PoolSize(env) == DefaultPoolSize
  {
  }

  /** Only the first `--port` counts: whatever follows a later one is
      ignored. */
  lemma FirstPortWins(before: seq<string>, value: string, after: seq<string>)
    requires "--port" !in before
    ensures Port(before + ["--port", value] + after) == ParseUnsigned(value, U16_MAX).GetOr(DefaultPort)
  {
    var args := before + ["--port", value] + after;
    assert args[|before|] == "--port";
    assert args[|before| + 1] == value;
    forall j | 0 <= j < |before| ensures args[j] != "--port" {
      assert args[j] == before[j];
    }
  }

  /** A port written in decimal is used as given. */
  lemma PortGiven(before: seq<string>, p: nat, after: seq<string>)
    requires "--port" !in before && p <= U16_MAX
    ensures Port(before + ["--port", NatToDecimal(p)] + after) == p
  {
    FirstPortWins(before, NatToDecimal(p), after);
    ParseDecimal(p, U16_MAX);
  }

  // ---------------------------------------------------------------------------
  // Rate limiting
  // ---------------------------------------------------------------------------

  /** `RateLimitConfig`: both fields are `u32`. */
  datatype RateLimitConfig = RateLimitConfig(perSecond: nat, burstSize: nat)

  datatype RateLimiterMode = PerKey(config: RateLimitConfig) | PerIp(config: RateLimitConfig)

  /** A limit: the specific variable when it is set, else the generic one;
      the chosen value parsed as a `u32`, or the default when it does not
      parse. An unparseable specific value does not fall back to the
      generic variable. */
  function Setting(env: Env, specific: string, generic: string, default: nat): nat {
    var chosen := if specific in env then Var(env, specific) else Var(env, generic);
    match chosen
    case None => default
    case Some(v) => ParseUnsigned(v, U32_MAX).GetOr(default)
  }

  function AuthenticatedConfig(env: Env): RateLimitConfig {
    RateLimitConfig(
      Setting(env, "RATE_LIMIT_AUTHENTICATED_PER_SECOND", "RATE_LIMIT_PER_SECOND", 10),
      Setting(env, "RATE_LIMIT_AUTHENTICATED_BURST_SIZE", "RATE_LIMIT_BURST_SIZE", 20))
  }

  function UnauthenticatedConfig(env: Env): RateLimitConfig {
    RateLimitConfig(
      Setting(env, "RATE_LIMIT_UNAUTHENTICATED_PER_SECOND", "RATE_LIMIT_PER_SECOND", 5),
      Setting(env, "RATE_LIMIT_UNAUTHENTICATED_BURST_SIZE", "RATE_LIMIT_BURST_SIZE", 10))
  }

  /** `load_rate_limit_config`: `RATE_LIMIT_MODE`, lower-cased and "auto"
      when unset, selects no limiter, the per-key or the per-IP limiter;
      any other value chooses per key exactly when API keys are on. */
  function RateLimitMode(env: Env, apiKeysEnabled: bool): Option<RateLimiterMode> {
    var mode := Lowercase(Var(env, "RATE_LIMIT_MODE").GetOr("auto"));
    if mode == "disabled" then None
    else if mode == "per-key" then Some(PerKey(AuthenticatedConfig(env)))
    else if mode == "per-ip" then Some(PerIp(UnauthenticatedConfig(env)))
    else if apiKeysEnabled then Some(PerKey(AuthenticatedConfig(env)))
    else Some(PerIp(UnauthenticatedConfig(env)))
  }

  /** Where a limit comes from: the specific variable decides whenever it
      is set, the generic one only when the specific one is not, and the
      default covers what is unset or does not parse. Every limit fits a
      `u32`. */
  lemma SettingSpec(env: Env, specific: string, generic: string, default: nat)
    ensures specific in env ==> Setting(env, specific, generic, default) == ParseUnsigned(env[specific], U32_MAX).GetOr(default)
    ensures specific !in env && generic in env ==>
      Setting(env, specific, generic, default) == ParseUnsigned(env[generic], U32_MAX).GetOr(default)
    ensures specific !in env && generic !in env ==> Setting(env, specific, generic, default) == default
    ensures default <= U32_MAX ==> Setting(env, specific, generic, default) <= U32_MAX
  {
  }

  /** With nothing set, the per-key limiter allows 10 requests a second in
      bursts of 20, the per-IP one 5 in bursts of 10. */
  lemma DefaultLimits(env: Env)
    requires forall name :: name in env ==> !StartsWith(name, "RATE_LIMIT_")
    ensures AuthenticatedConfig(env) == RateLimitConfig(10, 20)
    ensures UnauthenticatedConfig(env) == RateLimitConfig(5, 10)
  {
    NotRateLimitVar(env, "RATE_LIMIT_AUTHENTICATED_PER_SECOND");
    NotRateLimitVar(env, "RATE_LIMIT_AUTHENTICATED_BURST_SIZE");
    NotRateLimitVar(env, "RATE_LIMIT_UNAUTHENTICATED_PER_SECOND");
    NotRateLimitVar(env, "RATE_LIMIT_UNAUTHENTICATED_BURST_SIZE");
    NotRateLimitVar(env, "RATE_LIMIT_PER_SECOND");
    NotRateLimitVar(env, "RATE_LIMIT_BURST_SIZE");
  }

  lemma NotRateLimitVar(env: Env, name: string)
    requires forall n :: n in env ==> !StartsWith(n, "RATE_LIMIT_")
    requires StartsWith(name, "RATE_LIMIT_")
    ensures name !in env
  {
  }

  /** The mode decides the limiter: "disabled" turns limiting off, the two
      explicit modes pick their limiter whatever the keys, and every other
      mode (including none) follows whether API keys are on. */
  lemma RateLimitModeSpec(env: Env, apiKeysEnabled: bool)
    ensures var mode := Lowercase(Var(env, "RATE_LIMIT_MODE").GetOr("auto"));
      && (RateLimitMode(env, apiKeysEnabled).None? <==> mode == "disabled")
      && (mode == "per-key" ==> RateLimitMode(env, apiKeysEnabled) == Some(PerKey(AuthenticatedConfig(env))))
      && (mode == "per-ip" ==> RateLimitMode(env, apiKeysEnabled) == Some(PerIp(UnauthenticatedConfig(env))))
      && (mode != "disabled" && mode != "per-key" && mode != "per-ip" ==>
            RateLimitMode(env, apiKeysEnabled).value.PerKey? == apiKeysEnabled)
    ensures "RATE_LIMIT_MODE" !in env ==>
      RateLimitMode(env, apiKeysEnabled) ==
        if apiKeysEnabled then Some(PerKey(AuthenticatedConfig(env))) else Some(PerIp(UnauthenticatedConfig(env)))
  {
    if "RATE_LIMIT_MODE" !in env {
      AutoDefault();
    }
  }

  /** The unset mode reads as "auto", which is none of the named modes. */
  lemma AutoDefault()
    ensures Lowercase("auto") == "auto"
    ensures "auto" != "disabled" && "auto" != "per-key" && "auto" != "per-ip"
  {
    LowercaseAscii("auto");
    assert ToLower("auto")[0] == 'a';
    assert ToLower("auto")[1] == 'u';
    assert ToLower("auto")[2] == 't';
    assert ToLower("auto")[3] == 'o';
    assert "auto"[1] != "disabled"[1];
  }

  /** Case does not matter: "DISABLED" turns limiting off too. */
  lemma ModeIgnoresCase(env: Env, apiKeysEnabled: bool)
    requires Var(env, "RATE_LIMIT_MODE") == Some("DISABLED")
    ensures RateLimitMode(env, apiKeysEnabled) == None
  {
    DisabledLowers();
    RateLimitModeSpec(env, apiKeysEnabled);
  }

  lemma DisabledLowers()
    ensures Lowercase("DISABLED") == "disabled"
  {
    var d := "DISABLED";
    LowercaseAscii(d);
    assert |ToLower(d)| == 8;
    forall i | 0 <= i < 8 ensures ToLower(d)[i] == "disabled"[i] {
      assert ToLower(d)[i] == AsciiLower(d[i]);
    }
  }

  /** `to_lowercase` lowers the kelvin sign to `k`, so "PER-\U{212A}EY"
      selects the per-key limiter even though it is not "per-key" in ASCII
      letters. */
  lemma ModeKelvinSign(env: Env, apiKeysEnabled: bool)
    requires Var(env, "RATE_LIMIT_MODE") == Some("PER-\U{212A}EY")
    ensures RateLimitMode(env, apiKeysEnabled) == Some(PerKey(AuthenticatedConfig(env)))
  {
    KelvinModeLowers();
    RateLimitModeSpec(env, apiKeysEnabled);
  }

  lemma KelvinModeLowers()
    ensures Lowercase("PER-\U{212A}EY") == "per-key"
  {
    var m := "PER-\U{212A}EY";
    LowercaseAscii(m[5..]);
    assert ToLower(m[5..]) == "ey";
    assert m[4..][1..] == m[5..];
    assert Lowercase(m[4..]) == "key";
    LowercaseAscii(m[..4]);
    assert ToLower(m[..4]) == "per-";
    LowercaseAppend(m[..4], m[4..]);
    assert m[..4] + m[4..] == m;
  }

  // ---------------------------------------------------------------------------
  // Request timeout
  // ---------------------------------------------------------------------------

  const DefaultTimeoutSeconds: nat := 60

  /** `load_request_timeout`, in seconds. */
  function RequestTimeout(env: Env): nat {
    match Var(env, "REQUEST_TIMEOUT_SECONDS")
    case None => DefaultTimeoutSeconds
    case Some(v) => ParseUnsigned(v, U64_MAX).GetOr(DefaultTimeoutSeconds)
  }

  /** The timeout variable is set and its character `i` is neither a digit
      nor a leading '+'. */
  predicate Rejected(env: Env, i: nat) {
    "REQUEST_TIMEOUT_SECONDS" in env && i < |env["REQUEST_TIMEOUT_SECONDS"]|
    && !IsAsciiDigit(env["REQUEST_TIMEOUT_SECONDS"][i]) && !(i == 0 && env["REQUEST_TIMEOUT_SECONDS"][i] == '+')
  }

  /** Unset gives 60 seconds; any `u64` written in decimal (0 included) is
      used as given; a value holding anything but digits after an optional
      leading '+' (so "-1" or "invalid") falls back to 60. */
  lemma RequestTimeoutSpec(env: Env, n: nat, i: nat)
    ensures "REQUEST_TIMEOUT_SECONDS" !in env ==> RequestTimeout(env) == 60
    ensures n <= U64_MAX && Var(env, "REQUEST_TIMEOUT_SECONDS") == Some(NatToDecimal(n)) ==> RequestTimeout(env) == n
    ensures Rejected(env, i) ==> RequestTimeout(env) == 60
  {
    if n <= U64_MAX {
      ParseDecimal(n, U64_MAX);
    }
    if Rejected(env, i) {
      ParseRejectsNonDigit(env["REQUEST_TIMEOUT_SECONDS"], U64_MAX, i);
    }
  }

  /** The zero timeout and a negative one, as the tests write them. */
  lemma RequestTimeoutExamples(env: Env)
    ensures Var(env, "REQUEST_TIMEOUT_SECONDS") == Some("0") ==> RequestTimeout(env) == 0
    ensures Var(env, "REQUEST_TIMEOUT_SECONDS") == Some("-1") ==> RequestTimeout(env) == 60
  {
    assert NatToDecimal(0) == "0";
    ParseDecimal(0, U64_MAX);
    ParseRejectsNonDigit("-1", U64_MAX, 0);
  }
}
