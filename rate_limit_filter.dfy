/** security/AuthRateLimitFilter: which requests are metered, the key they are counted
    under, and the answer 429 Too Many Requests (section 4 of RFC 6585) when the limiter
    refuses. Servlet plumbing is reduced to the request fields the filter reads, the
    response fields it writes, and the number of times it invokes the rest of the chain. */
module RateLimitFilter {
  import opened Wrappers
  import opened Text
  import opened Errors
  import opened RateLimit

  const LOGIN_PATH: string := "/api/v1/auth/login"
  const REGISTER_PATH: string := "/api/v1/auth/register"
  const PROTECTED_AUTH_PATHS: set<string> := {LOGIN_PATH, REGISTER_PATH}
  const RETRY_MESSAGE: string := "Too many authentication attempts. Please retry in a minute."
  const TOO_MANY_REQUESTS: int := 429

  /** What the filter reads of an HttpServletRequest. */
  datatype HttpRequest = HttpRequest(httpMethod: string, requestUri: string, remoteAddr: string)

  /** What the filter writes of an HttpServletResponse; the body is the ApiError that
      ObjectMapper serialises (the timestamp is not modelled). */
  datatype HttpResponse = HttpResponse(status: int, contentType: Option<string>, body: Option<ApiError>)

  /** The response after the filter, and how often it passed the request down the chain. */
  datatype FilterOutcome = FilterOutcome(response: HttpResponse, chainInvocations: nat)

  /** shouldNotFilter: anything but a POST to the login or register path. */
  predicate ShouldNotFilter(r: HttpRequest)
  {
    r.requestUri !in PROTECTED_AUTH_PATHS || !EqualsIgnoreCase("POST", r.httpMethod)
  }

  /** remoteAddr + ":" + requestURI. */
  function RateLimitKey(r: HttpRequest): string
  {
    r.remoteAddr + ":" + r.requestUri
  }

  /** The body of the refusal. */
  function TooManyRequestsBody(r: HttpRequest): (e: ApiError)
    ensures e.status == TOO_MANY_REQUESTS && e.error == "Too Many Requests"
    ensures e.message == RETRY_MESSAGE && e.path == r.requestUri && e.validationErrors.None?
  {
    BuildError(TOO_MANY_REQUESTS, RETRY_MESSAGE, r.requestUri, None)
  }

  class AuthRateLimitFilter {
    const limiter: AuthRateLimitService

    constructor (limiter: AuthRateLimitService)
      ensures this.limiter == limiter
    {
      this.limiter := limiter;
    }

    /** OncePerRequestFilter.doFilter with shouldNotFilter and doFilterInternal. */
    method DoFilter(request: HttpRequest, response: HttpResponse, now: int) returns (out: FilterOutcome)
      requires limiter.Valid()
      modifies limiter
      ensures limiter.Valid()
      ensures ShouldNotFilter(request) ==>
        out == FilterOutcome(response, 1) && limiter.counters == old(limiter.counters)
      ensures !ShouldNotFilter(request) ==>
        var d := Step(old(limiter.counters), RateLimitKey(request), now, limiter.authRateLimitPerMinute);
        && limiter.counters == d.counters
        && (d.allowed ==> out == FilterOutcome(response, 1))
        && (!d.allowed ==>
              out == FilterOutcome(HttpResponse(TOO_MANY_REQUESTS, Some("application/json"),
                                                Some(TooManyRequestsBody(request))), 0))
    {
      if ShouldNotFilter(request) {
        return FilterOutcome(response, 1);
      }
      var rateLimitKey := RateLimitKey(request);
      var allowed := limiter.IsAllowed(rateLimitKey, now);
      if !allowed {
        var apiError := TooManyRequestsBody(request);
        return FilterOutcome(HttpResponse(TOO_MANY_REQUESTS, Some("application/json"), Some(apiError)), 0);
      }
      return FilterOutcome(response, 1);
    }
  }

  /** Exactly two kinds of request are metered: a POST, in any letter case, to the login
      path or to the register path. */
  lemma MeteredIff(r: HttpRequest)
    ensures !ShouldNotFilter(r) <==>
      (r.requestUri == LOGIN_PATH || r.requestUri == REGISTER_PATH) && ToLower(r.httpMethod) == "post"
  {
  }

  /** The refresh endpoint bypasses the limiter whatever the method. */
  lemma RefreshNeverMetered(httpMethod: string, remoteAddr: string)
    ensures ShouldNotFilter(HttpRequest(httpMethod, "/api/v1/auth/refresh", remoteAddr))
  {
    assert "/api/v1/auth/refresh" != LOGIN_PATH && "/api/v1/auth/refresh" != REGISTER_PATH;
  }

  /** Two metered requests share a counter only when they come from the same address to
      the same path, so login and register attempts are counted apart. The paths end in
      different letters, which fixes the path; the address is what precedes it. */
  lemma MeteredKeysDistinct(r1: HttpRequest, r2: HttpRequest)
    requires !ShouldNotFilter(r1) && !ShouldNotFilter(r2)
    ensures RateLimitKey(r1) == RateLimitKey(r2) <==>
      r1.remoteAddr == r2.remoteAddr && r1.requestUri == r2.requestUri
  {
    var k1, k2 := RateLimitKey(r1), RateLimitKey(r2);
    if k1 == k2 {
      assert k1[|k1| - 1] == r1.requestUri[|r1.requestUri| - 1];
      assert k2[|k2| - 1] == r2.requestUri[|r2.requestUri| - 1];
      assert r1.requestUri == r2.requestUri;
      assert r1.remoteAddr == k1[..|r1.remoteAddr|];
      assert r2.remoteAddr == k2[..|r2.remoteAddr|];
    }
  }
}
