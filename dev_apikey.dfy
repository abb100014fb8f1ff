/**
 * `DevApiKeyMiddleware`: in Development, with `Api:DevApiKey` configured, every
 * request outside the allow-listed prefixes must carry exactly that key in
 * `X-Api-Key`; every failure is a 401 with a JSON error.
 */
module DevApiKey {
  import opened Wrappers
  import opened Text
  import opened Http

  const HeaderName := "X-Api-Key"
  const ErrorMessage := "Missing or invalid X-Api-Key"

  /** The allow list, matched as plain string prefixes ignoring case. */
  const AllowList: seq<string> := ["/health", "/swagger", "/swagger/index.html"]

  predicate IsAllowListed(path: string) {
    exists i :: 0 <= i < |AllowList| && StartsWithIgnoreCase(path, AllowList[i])
  }

  /** The constructor's choice: the configured key, read only in Development. */
  function ExpectedKey(isDevelopment: bool, configured: Option<string>): (k: Option<string>)
    ensures k.Some? <==> isDevelopment && configured.Some?
    ensures k.Some? ==> k == configured
  {
    if isDevelopment then configured else None
  }

  datatype Outcome = CallNext | Reject401

  /**
   * The decision `Invoke` takes. The header's values are read as one string: the
   * values joined by commas, blank when there is none.
   */
  function Decide(expected: Option<string>, path: string, headers: Headers): (o: Outcome)
    ensures o == CallNext <==>
              || expected.None?
              || IsAllowListed(path)
              || (&& ContainsKey(headers, HeaderName)
                  && !IsBlank(JoinValues(ValuesOf(headers, HeaderName)))
                  && JoinValues(ValuesOf(headers, HeaderName)) == expected.value)
  {
    if expected.None? then CallNext
    else if IsAllowListed(path) then CallNext
    else match TryGetValue(headers, HeaderName)
      case None => Reject401
      case Some(values) =>
        var provided := JoinValues(values);
        if IsBlank(provided) || provided != expected.value then Reject401 else CallNext
  }

  /** Outside Development, or with no key configured, every request passes. */
  lemma OpenWithoutKey(isDevelopment: bool, configured: Option<string>, path: string, headers: Headers)
    requires !isDevelopment || configured.None?
    ensures Decide(ExpectedKey(isDevelopment, configured), path, headers) == CallNext
  {
  }

  /** A key configured blank admits nothing outside the allow list. */
  lemma BlankKeyRejectsAll(key: string, path: string, headers: Headers)
    requires IsBlank(key) && !IsAllowListed(path)
    ensures Decide(Some(key), path, headers) == Reject401
  {
  }

  /**
   * The allow list amounts to the `/health` and `/swagger` prefixes, since
   * `/swagger/index.html` starts with `/swagger`.
   */
  lemma AllowListIsTwoPrefixes(path: string)
    ensures IsAllowListed(path) <==> StartsWithIgnoreCase(path, "/health") || StartsWithIgnoreCase(path, "/swagger")
  {
    if StartsWithIgnoreCase(path, AllowList[2]) {
      assert AllowList[2][..8] == "/swagger";
      PrefixOfPrefix(path, AllowList[2], "/swagger");
    }
    if StartsWithIgnoreCase(path, "/health") {
      assert StartsWithIgnoreCase(path, AllowList[0]);
    }
    if StartsWithIgnoreCase(path, "/swagger") {
      assert StartsWithIgnoreCase(path, AllowList[1]);
    }
  }

  /**
   * Plain prefixes rather than segments: `/healthz` and `/SWAGGERx` pass, where
   * the segment rule of the other key check refuses them.
   */
  lemma PrefixExamples()
    ensures IsAllowListed("/healthz")
    ensures IsAllowListed("/SWAGGERx")
  {
    assert "/healthz"[..7] == "/health";
    assert StartsWithIgnoreCase("/healthz", AllowList[0]);
    assert EqualsIgnoreCase("/SWAGGERx"[..8], "/swagger");
    assert StartsWithIgnoreCase("/SWAGGERx", AllowList[1]);
  }

  /**
   * Several header lines are joined skipping the empty ones: an empty line
   * beside one carrying the key still passes.
   */
  lemma EmptyLineBesideKeyPasses(key: string, path: string, headers: Headers)
    requires !IsBlank(key)
    requires TryGetValue(headers, HeaderName) == Some(["", key])
    ensures Decide(Some(key), path, headers) == CallNext
  {
    NonBlankIsNonEmpty(key);
    OneNonEmptyValue(["", key], 1);
  }

  class DevApiKeyMiddleware {
    /** `_expectedKey`: set once, by the constructor. */
    const expectedKey: Option<string>

    constructor (isDevelopment: bool, configured: Option<string>)
      ensures expectedKey == ExpectedKey(isDevelopment, configured)
    {
      if isDevelopment {
        expectedKey := configured;
      } else {
        expectedKey := None;
      }
    }

    /**
     * Passes the request on, or writes 401 with the JSON error and stops.
     * Passing on changes nothing.
     */
    method Invoke(ctx: HttpContext) returns (callNext: bool)
      modifies ctx`statusCode, ctx`errorBody
      ensures callNext <==> Decide(expectedKey, ctx.path, ctx.requestHeaders) == CallNext
      ensures callNext ==> ctx.statusCode == old(ctx.statusCode) && ctx.errorBody == old(ctx.errorBody)
      ensures !callNext ==> ctx.statusCode == 401 && ctx.errorBody == Some(ErrorMessage)
    {
      if expectedKey.None? {
        return true;
      }
      var path := ctx.path;
      if exists i :: 0 <= i < |AllowList| && StartsWithIgnoreCase(path, AllowList[i]) {
        return true;
      }
      var provided := TryGetValue(ctx.requestHeaders, HeaderName);
      if provided.None? || IsBlank(JoinValues(provided.value)) || JoinValues(provided.value) != expectedKey.value {
        ctx.statusCode := 401;
        ctx.errorBody := Some(ErrorMessage);
        return false;
      }
      return true;
    }
  }
}
