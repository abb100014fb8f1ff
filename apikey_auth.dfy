/**
 * `ApiKeyAuthMiddleware`: requests outside the anonymous paths must carry the
 * configured key in `X-Api-Key`. No key configured fails closed with 401, a
 * missing header gets 401, a wrong key 403.
 */
module ApiKeyAuth {
  import opened Wrappers
  import opened Text
  import opened Http

  const HeaderName := "X-Api-Key"

  /** The anonymous paths, matched by whole path segments, ignoring case. */
  const AllowAnonymous: seq<string> := ["/health", "/swagger", "/swagger/index.html", "/swagger/v1/swagger.json"]

  predicate IsAnonymous(path: string) {
    exists i :: 0 <= i < |AllowAnonymous| && StartsWithSegments(path, AllowAnonymous[i])
  }

  /** Whether the request goes on down the pipeline, or is answered with a status. */
  datatype Outcome = CallNext | Reject(status: int)

  /** The decision `Invoke` takes, from the configured key, the path and the request headers. */
  function Decide(configured: Option<string>, path: string, headers: Headers): (o: Outcome)
    ensures o == CallNext <==>
              || IsAnonymous(path)
              || (&& !IsNullOrWhiteSpace(configured)
                  && ContainsKey(headers, HeaderName)
                  && JoinValues(ValuesOf(headers, HeaderName)) == configured.value)
    ensures o.Reject? ==> o.status == 401 || o.status == 403
    ensures o == Reject(403) <==>
              && !IsAnonymous(path)
              && !IsNullOrWhiteSpace(configured)
              && ContainsKey(headers, HeaderName)
              && JoinValues(ValuesOf(headers, HeaderName)) != configured.value
  {
    if IsAnonymous(path) then CallNext
    else if IsNullOrWhiteSpace(configured) then Reject(401)
    else match TryGetValue(headers, HeaderName)
      case None => Reject(401)
      case Some(values) => if JoinValues(values) == configured.value then CallNext else Reject(403)
  }

  /** With no key configured, every request outside the anonymous paths gets 401. */
  lemma FailsClosed(configured: Option<string>, path: string, headers: Headers)
    requires IsNullOrWhiteSpace(configured) && !IsAnonymous(path)
    ensures Decide(configured, path, headers) == Reject(401)
  {
  }

  /** Anonymous paths pass whatever the configuration and the headers. */
  lemma AnonymousAlwaysPasses(configured: Option<string>, path: string, headers: Headers)
    requires IsAnonymous(path)
    ensures Decide(configured, path, headers) == CallNext
  {
  }

  /**
   * The two swagger documents are inside the `/swagger` segment, so the list
   * amounts to the `/health` and `/swagger` segments.
   */
  lemma AnonymousIsTwoSegments(path: string)
    ensures IsAnonymous(path) <==> StartsWithSegments(path, "/health") || StartsWithSegments(path, "/swagger")
  {
    var sw := "/swagger";
    if StartsWithSegments(path, AllowAnonymous[2]) {
      PrefixOfPrefix(path, AllowAnonymous[2], sw);
      assert AllowAnonymous[2][..|sw|] == sw;
      assert path[|sw|] == AllowAnonymous[2][|sw|];
    }
    if StartsWithSegments(path, AllowAnonymous[3]) {
      PrefixOfPrefix(path, AllowAnonymous[3], sw);
      assert AllowAnonymous[3][..|sw|] == sw;
      assert path[|sw|] == AllowAnonymous[3][|sw|];
    }
    if StartsWithSegments(path, "/health") {
      assert StartsWithSegments(path, AllowAnonymous[0]);
    }
    if StartsWithSegments(path, sw) {
      assert StartsWithSegments(path, AllowAnonymous[1]);
    }
  }

  /** Segment matching: `/healthz` is not anonymous, `/health/ready` and `/HEALTH` are. */
  lemma SegmentExamples()
    ensures !IsAnonymous("/healthz")
    ensures IsAnonymous("/health/ready")
    ensures IsAnonymous("/HEALTH")
  {
    AnonymousIsTwoSegments("/healthz");
    assert "/healthz"[7] == 'z';
    assert "/health/ready"[..7] == "/health" && "/health/ready"[7] == '/';
    assert StartsWithSegments("/health/ready", AllowAnonymous[0]);
    assert EqualsIgnoreCase("/HEALTH", "/health");
    assert StartsWithSegments("/HEALTH", AllowAnonymous[0]);
  }

  /** The API routes are not anonymous. */
  lemma ApiPathNotAnonymous()
    ensures !IsAnonymous("/api/stores")
  {
    AnonymousIsTwoSegments("/api/stores");
    assert ToUpperAscii("/api/stores"[1]) != ToUpperAscii("/health"[1]);
    assert ToUpperAscii("/api/stores"[1]) != ToUpperAscii("/swagger"[1]);
    assert !EqualsIgnoreCase("/api/stores"[..7], "/health");
    assert !EqualsIgnoreCase("/api/stores"[..8], "/swagger");
  }

  /** The key is compared ordinally: a key differing only in case gets 403. */
  lemma KeyIsCaseSensitive(headers: Headers)
    requires TryGetValue(headers, HeaderName) == Some(["DEV-KEY"])
    ensures Decide(Some("dev-key"), "/api/stores", headers) == Reject(403)
  {
    ApiPathNotAnonymous();
    assert !IsBlank("dev-key") by {
      assert !IsWhiteSpace("dev-key"[0]);
    }
    assert JoinValues(["DEV-KEY"]) == "DEV-KEY";
    assert "DEV-KEY"[1] != "dev-key"[1];
  }

  /**
   * Several header lines are joined skipping the empty ones: an empty line
   * beside one carrying the key still passes.
   */
  lemma EmptyLineBesideKeyPasses(key: string, path: string, headers: Headers)
    requires !IsBlank(key)
    requires TryGetValue(headers, HeaderName) == Some(["", key])
    ensures Decide(Some(key), path, headers) == CallNext
  {
    NonBlankIsNonEmpty(key);
    OneNonEmptyValue(["", key], 1);
  }

  class ApiKeyAuthMiddleware {
    /** `ApiKeyOptions.DevApiKey`, fixed when the middleware is built. */
    const configured: Option<string>

    constructor (configured: Option<string>)
      ensures this.configured == configured
    {
      this.configured := configured;
    }

    /**
     * Passes the request on, or writes the rejecting status and stops. Passing
     * on leaves the status as it was.
     */
    method Invoke(ctx: HttpContext) returns (callNext: bool)
      modifies ctx`statusCode
      ensures callNext <==> Decide(configured, ctx.path, ctx.requestHeaders) == CallNext
      ensures callNext ==> ctx.statusCode == old(ctx.statusCode)
      ensures !callNext ==> ctx.statusCode == Decide(configured, ctx.path, ctx.requestHeaders).status
    {
      if exists i :: 0 <= i < |AllowAnonymous| && StartsWithSegments(ctx.path, AllowAnonymous[i]) {
        return true;
      }
      if IsNullOrWhiteSpace(configured) {
        ctx.statusCode := 401;
        return false;
      }
      var values := TryGetValue(ctx.requestHeaders, HeaderName);
      if values.None? {
        ctx.statusCode := 401;
        return false;
      }
      var incoming := JoinValues(values.value);
      if incoming != configured.value {
        ctx.statusCode := 403;
        return false;
      }
      return true;
    }
  }
}
