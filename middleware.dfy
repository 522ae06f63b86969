/** What the request-logging middleware (`server/src/logging/middleware.rs`)
    works out about a request: the client address, the part of the API key
    it hashes, and whether the request counts as slow. */
module Middleware {
  import opened Wrappers
  import opened Text
  import opened Environment
  import opened HeaderUtils
  import LoggingConfig

  // ---------------------------------------------------------------------------
  // The client address
  // ---------------------------------------------------------------------------

  /** What `split(',').next()` yields: the text before the first comma,
      or the whole value when it has none. */
  function FirstField(s: string): (r: string)
    ensures |r| <= |s| && r == s[..|r|]
    ensures forall i :: 0 <= i < |r| ==> s[i] != ','
    ensures |r| < |s| ==> s[|r|] == ','
  {
    match Find(s, ",")
    case None => NoCommaBefore(s, |s|); s
    case Some(k) =>
      NoCommaBefore(s, k);
      assert s[k..k + 1] == ",";
      s[..k]
  }

  lemma NoCommaBefore(s: string, k: nat)
    requires k <= |s| && forall i :: 0 <= i < k ==> !OccursAt(s, ",", i)
    ensures forall i :: 0 <= i < k ==> s[i] != ','
  {
    forall i | 0 <= i < k ensures s[i] != ',' {
      if s[i] == ',' {
        assert s[i..i + 1] == ",";
        assert OccursAt(s, ",", i);
      }
    }
  }

  /** `extract_client_ip`: the first address of a readable X-Forwarded-For,
      trimmed; else a readable X-Real-IP as it is; else "unknown". */
  function ClientIp(headers: Headers): string {
    match ReadHeader(headers, "x-forwarded-for")
    case Some(forwarded) => Trim(FirstField(forwarded))
    case None =>
      match ReadHeader(headers, "x-real-ip")
      case Some(ip) => ip
      case None => "unknown"
  }

  /** A readable X-Forwarded-For decides the address whatever X-Real-IP
      holds, and a value without commas is taken whole, trimmed; without
      it a readable X-Real-IP is taken verbatim; with neither the address
      is "unknown". */
  lemma ClientIpSpec(headers: Headers)
    ensures ReadHeader(headers, "x-forwarded-for").Some? ==>
      var forwarded := ReadHeader(headers, "x-forwarded-for").value;
      ClientIp(headers) == Trim(FirstField(forwarded)) &&
      ((forall i :: 0 <= i < |forwarded| ==> forwarded[i] != ',') ==> ClientIp(headers) == Trim(forwarded))
    ensures ReadHeader(headers, "x-forwarded-for").None? && ReadHeader(headers, "x-real-ip").Some? ==>
      ClientIp(headers) == ReadHeader(headers, "x-real-ip").value
    ensures ReadHeader(headers, "x-forwarded-for").None? && ReadHeader(headers, "x-real-ip").None? ==>
      ClientIp(headers) == "unknown"
  {
  }

  /** The address from X-Forwarded-For is the trimmed text before its first
      comma, so it holds no comma itself. */
  lemma ForwardedAddress(headers: Headers, first: string, rest: string)
    requires ReadHeader(headers, "x-forwarded-for") == Some(first + "," + rest)
    requires forall i :: 0 <= i < |first| ==> first[i] != ','
    ensures ClientIp(headers) == Trim(first)
  {
    var v := first + "," + rest;
    var f := FirstField(v);
    assert v[|first|] == ',';
    assert forall i :: 0 <= i < |first| ==> v[i] == first[i];
    assert f == first;
  }

  // ---------------------------------------------------------------------------
  // The API key in the access log
  // ---------------------------------------------------------------------------

  /** The key the access log hashes: the X-API-Key header if present, else
      Authorization; readable; with a leading "Bearer " stripped. */
  function LoggedKey(headers: Headers): Option<string> {
    var raw := if "x-api-key" in headers then Some(headers["x-api-key"])
      else if "authorization" in headers then Some(headers["authorization"])
      else None;
    if raw.Some? && Readable(raw.value) then Some(WithoutBearer(raw.value)) else None
  }

  /** The key part of "Bearer <key>", or the whole value otherwise. */
  function WithoutBearer(key: string): string {
    if StartsWith(key, "Bearer ") then key[7..] else key
  }

  /** The logged hash: the first eight characters of the hex digest of the
      key. The digest itself is a parameter. */
  function KeyHash(headers: Headers, hexDigest: string -> string): Option<string> {
    match LoggedKey(headers)
    case None => None
    case Some(key) => Some(Take(hexDigest(key), 8))
  }

  function Take(s: string, n: nat): string {
    if |s| <= n then s else s[..n]
  }

  /** The logged key is stripped of "Bearer " when it starts with it, and
      is otherwise the header value unchanged; an unreadable X-API-Key
      hides Authorization. The hash is eight characters of a digest that
      long. */
  lemma LoggedKeySpec(headers: Headers, token: string, hexDigest: string -> string)
    ensures "x-api-key" in headers && headers["x-api-key"] == "Bearer " + token && Readable(token) ==>
      LoggedKey(headers) == Some(token)
    ensures "x-api-key" in headers && Readable(headers["x-api-key"]) && !StartsWith(headers["x-api-key"], "Bearer ") ==>
      LoggedKey(headers) == Some(headers["x-api-key"])
    ensures "x-api-key" in headers && !Readable(headers["x-api-key"]) ==> LoggedKey(headers) == None
    ensures "x-api-key" !in headers && "authorization" !in headers ==> LoggedKey(headers) == None
    ensures KeyHash(headers, hexDigest).Some? && |hexDigest(LoggedKey(headers).value)| >= 8 ==>
      |KeyHash(headers, hexDigest).value| == 8
  {
    if "x-api-key" in headers && headers["x-api-key"] == "Bearer " + token && Readable(token) {
      var v := headers["x-api-key"];
      assert v[..7] == "Bearer ";
      assert v[7..] == token;
      forall i | 0 <= i < |v| ensures (' ' <= v[i] <= '~') || v[i] == '\t' {
        if i >= 7 {
          assert v[i] == token[i - 7];
        }
      }
    }
  }

  /** The logged key and the key used for authentication agree on a
      readable X-API-Key without the prefix and on a "Bearer" token when
      X-API-Key is absent. */
  lemma AgreesWithExtractApiKey(headers: Headers)
    requires ("x-api-key" in headers && Readable(headers["x-api-key"]) && !StartsWith(headers["x-api-key"], "Bearer ")) ||
      ("x-api-key" !in headers && "authorization" in headers && Readable(headers["authorization"]) &&
       StartsWith(headers["authorization"], "Bearer "))
    ensures LoggedKey(headers) == ExtractApiKey(headers)
  {
  }

  // ---------------------------------------------------------------------------
  // Slow requests
  // ---------------------------------------------------------------------------

  /** `duration.as_millis() as u64`: the milliseconds, wrapped to 64 bits. */
  function Millis64(millis: nat): nat {
    millis % 0x1_0000_0000_0000_0000
  }

  /** The threshold: LOG_SLOW_REQUEST_THRESHOLD_MS as a `u64`, else 5000. */
  function SlowThreshold(env: Env): nat {
    LoggingConfig.Number(env, "LOG_SLOW_REQUEST_THRESHOLD_MS", U64_MAX, 5000)
  }

  /** Whether the slow-request warning fires for a request that took
      `millis` milliseconds. */
  predicate IsSlow(env: Env, millis: nat) {
    Millis64(millis) > SlowThreshold(env)
  }

  /** The warning fires exactly when the duration exceeds the threshold;
      the threshold is the one the logging configuration reads; without
      the variable a request of 5000 ms is not slow and one of 5001 ms is. */
  lemma SlowSpec(env: Env, millis: nat)
    ensures millis <= U64_MAX ==> (IsSlow(env, millis) <==> millis > SlowThreshold(env))
    ensures SlowThreshold(env) == LoggingConfig.Configured(env).slowRequestThresholdMs
    ensures SlowThreshold(env) <= U64_MAX
    ensures "LOG_SLOW_REQUEST_THRESHOLD_MS" !in env ==> !IsSlow(env, 5000) && IsSlow(env, 5001)
  {
    LoggingConfig.NumberSpec(env, "LOG_SLOW_REQUEST_THRESHOLD_MS", U64_MAX, 5000, 0, 0);
  }
}
