/** Reading the API key a client sends (`server/src/utils/header_utils.rs`).
    Headers are a map from lower-case names to one value each. */
module HeaderUtils {
  import opened Wrappers
  import opened Text

  type Headers = map<string, string>

  /** `HeaderValue::to_str` succeeds only on visible ASCII and tabs. */
  predicate Readable(v: string) {
    forall i :: 0 <= i < |v| ==> (' ' <= v[i] <= '~') || v[i] == '\t'
  }

  /** The value of a header that is present and readable. */
  function ReadHeader(headers: Headers, name: string): Option<string> {
    if name in headers && Readable(headers[name]) then Some(headers[name]) else None
  }

  /** `str::strip_prefix`. */
  function StripPrefix(s: string, p: string): Option<string> {
    if |p| <= |s| && s[..|p|] == p then Some(s[|p|..]) else None
  }

  /** `extract_api_key`: a readable X-API-Key, else the token of a readable
      "Bearer " Authorization value, else nothing. */
  function ExtractApiKey(headers: Headers): Option<string> {
    match ReadHeader(headers, "x-api-key")
    case Some(key) => Some(key)
    case None =>
      match ReadHeader(headers, "authorization")
      case None => None
      case Some(auth) => StripPrefix(auth, "Bearer ")
  }

  /** A readable X-API-Key wins whatever Authorization holds; otherwise a
      readable Authorization value that starts with "Bearer " gives exactly
      what follows it; in every other case there is no key. */
  lemma ExtractApiKeySpec(headers: Headers)
    ensures ReadHeader(headers, "x-api-key").Some? ==> ExtractApiKey(headers) == ReadHeader(headers, "x-api-key")
    ensures ReadHeader(headers, "x-api-key").None? && ExtractApiKey(headers).Some? ==>
      ReadHeader(headers, "authorization") == Some("Bearer " + ExtractApiKey(headers).value)
    ensures forall token :: ReadHeader(headers, "x-api-key").None? && ReadHeader(headers, "authorization") == Some("Bearer " + token) ==>
      ExtractApiKey(headers) == Some(token)
    ensures ExtractApiKey(headers).Some? <==>
      ReadHeader(headers, "x-api-key").Some? ||
      (ReadHeader(headers, "authorization").Some? && StripPrefix(ReadHeader(headers, "authorization").value, "Bearer ").Some?)
  {
    if ReadHeader(headers, "x-api-key").None? && ExtractApiKey(headers).Some? {
      var auth := ReadHeader(headers, "authorization").value;
      assert auth == auth[..7] + auth[7..];
    }
    forall token | ReadHeader(headers, "x-api-key").None? && ReadHeader(headers, "authorization") == Some("Bearer " + token)
      ensures ExtractApiKey(headers) == Some(token)
    {
      StripPrefixOf("Bearer ", token);
    }
  }

  lemma StripPrefixOf(p: string, rest: string)
    ensures StripPrefix(p + rest, p) == Some(rest)
  {
    assert (p + rest)[..|p|] == p;
    assert (p + rest)[|p|..] == rest;
  }

  /** No headers, or only an Authorization value without the prefix, give
      no key. */
  lemma NoKey(headers: Headers)
    requires "x-api-key" !in headers
    requires "authorization" in headers ==> !StartsWith(headers["authorization"], "Bearer ")
    ensures ExtractApiKey(headers) == None
  {
  }
}
