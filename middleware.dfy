/** `onRequest` (functions/_middleware.js): the edge handler that decorates
    every response from the static-asset origin with fixed security headers,
    a long cache lifetime for fonts, and, for HTML, a per-response nonce that
    both the Content-Security-Policy header and every `<script>` element carry.

    The origin fetch, URL parsing and the response body stream are not
    modelled: the handler receives the origin's response, the request's
    pathname and the 31 random draws its nonce consumes. */
module Middleware {
  import opened Common
  import opened Nonce
  import Csp
  import opened Http
  import opened Rewriter

  /** The request, reduced to what the handler reads: `new URL(url).pathname`. */
  datatype Request = Request(pathname: string)

  /** A response: status, headers and the body's elements. */
  class Response {
    const status: int
    const headers: Headers
    const body: seq<HtmlElement>

    /** `new Response(body, init)`: the given body with a fresh, mutable copy
        of `init`'s status and headers. */
    constructor (body: seq<HtmlElement>, init: Response)
      requires init.headers.Valid()
      ensures this.body == body && status == init.status
      ensures fresh(headers) && headers.entries == init.headers.entries && headers.Valid()
    {
      this.body := body;
      status := init.status;
      headers := new Headers.Copy(init.headers);
    }
  }

  // ---------------------------------------------------------------------------
  // What the handler writes, with names as the `Headers` object stores them

  /** The seven headers every response carries. */
  const SecurityHeaders: map<string, string> := map[
    "access-control-allow-origin" := "https://prysmi.com",
    "x-robots-tag" := "all",
    "permissions-policy" := "camera=(), geolocation=(), microphone=()",
    "strict-transport-security" := "max-age=31536000; includeSubDomains",
    "x-content-type-options" := "nosniff",
    "x-frame-options" := "DENY",
    "x-xss-protection" := "1; mode=block"
  ]

  const CacheControl: string := "cache-control"
  const FontCacheValue: string := "public, max-age=31536000, immutable"
  const FontPrefix: string := "/assets/fonts/"
  const ContentSecurityPolicy: string := "content-security-policy"
  const ContentType: string := "content-type"

  /** `response.headers.get("Content-Type") || ""`. */
  function ContentTypeOf(origin: map<string, string>): string
  {
    if ContentType in origin then origin[ContentType] else ""
  }

  /** The HTML test: `contentType.includes("text/html")`, case-sensitive. */
  predicate IsHtml(origin: map<string, string>)
  {
    Includes(ContentTypeOf(origin), "text/html")
  }

  /** A response without a `Content-Type` header reads as `""`, which is
      not HTML: it gets no policy and its body is not rewritten. */
  lemma NoContentTypeNotHtml(origin: map<string, string>)
    requires ContentType !in origin
    ensures ContentTypeOf(origin) == ""
    ensures !IsHtml(origin)
  {
  }

  /** The font test: `url.pathname.startsWith("/assets/fonts/")`. */
  predicate IsFontPath(pathname: string)
  {
    StartsWith(pathname, FontPrefix)
  }

  /** `a` and `b` agree on key `k`: both lack it or both map it to one value. */
  predicate SameEntry(a: map<string, string>, b: map<string, string>, k: string)
  {
    (k in a <==> k in b) && (k in a ==> a[k] == b[k])
  }

  /** The header names the handler may write. */
  function Managed(): set<string>
  {
    SecurityHeaders.Keys + {CacheControl, ContentSecurityPolicy}
  }

  /** The headers the decorated response ends with, given the origin's
      headers, the request path and the policy an HTML response gets. */
  function DecoratedHeaders(origin: map<string, string>, pathname: string, policy: string): (r: map<string, string>)
    requires LowerKeyed(origin)
    // the seven security headers, whatever the origin sent under those names
    ensures forall k | k in SecurityHeaders :: k in r && r[k] == SecurityHeaders[k]
    // Cache-Control is written exactly for font paths
    ensures IsFontPath(pathname) ==> CacheControl in r && r[CacheControl] == FontCacheValue
    ensures !IsFontPath(pathname) ==> SameEntry(r, origin, CacheControl)
    // the policy is written exactly for HTML
    ensures IsHtml(origin) ==> ContentSecurityPolicy in r && r[ContentSecurityPolicy] == policy
    ensures !IsHtml(origin) ==> SameEntry(r, origin, ContentSecurityPolicy)
    // every other header of the origin passes through, and no other appears
    ensures forall k | k !in Managed() :: SameEntry(r, origin, k)
    ensures r.Keys <= origin.Keys + Managed()
    // and every name is stored lower-cased, as in any `Headers` object
    ensures LowerKeyed(r)
  {
    ManagedNamesDistinct();
    ManagedNamesLower();
    var withStatic := origin + SecurityHeaders;
    var withCache := if IsFontPath(pathname) then withStatic[CacheControl := FontCacheValue] else withStatic;
    if IsHtml(origin) then withCache[ContentSecurityPolicy := policy] else withCache
  }

  /** The three groups of names the handler writes do not overlap. */
  lemma ManagedNamesDistinct()
    ensures CacheControl !in SecurityHeaders
    ensures ContentSecurityPolicy !in SecurityHeaders
    ensures CacheControl != ContentSecurityPolicy
  {
  }

  /** The names the handler writes are stored as spelled here. */
  lemma ManagedNamesLower()
    ensures forall k | k in Managed() :: Lower(k) == k
  {
    AllowOriginName();
    LowerIdempotent("Access-Control-Allow-Origin");
    RobotsTagName();
    LowerIdempotent("X-Robots-Tag");
    PermissionsPolicyName();
    LowerIdempotent("Permissions-Policy");
    TransportSecurityName();
    LowerIdempotent("Strict-Transport-Security");
    ContentTypeOptionsName();
    LowerIdempotent("X-Content-Type-Options");
    FrameOptionsName();
    LowerIdempotent("X-Frame-Options");
    XssProtectionName();
    LowerIdempotent("X-XSS-Protection");
    CacheControlName();
    LowerIdempotent("Cache-Control");
    ContentSecurityPolicyName();
    LowerIdempotent("Content-Security-Policy");
  }

  /** The seven `set` calls, in the handler's order, leave the security
      headers on top of whatever was there. */
  lemma SecuritySets(m: map<string, string>)
    ensures m["access-control-allow-origin" := "https://prysmi.com"]
             ["x-robots-tag" := "all"]
             ["permissions-policy" := "camera=(), geolocation=(), microphone=()"]
             ["strict-transport-security" := "max-age=31536000; includeSubDomains"]
             ["x-content-type-options" := "nosniff"]
             ["x-frame-options" := "DENY"]
             ["x-xss-protection" := "1; mode=block"]
         == m + SecurityHeaders
  {
  }

  /** The same seven calls with the names as the handler spells them. */
  lemma SpelledSecuritySets(m: map<string, string>)
    ensures m[Lower("Access-Control-Allow-Origin") := "https://prysmi.com"]
             [Lower("X-Robots-Tag") := "all"]
             [Lower("Permissions-Policy") := "camera=(), geolocation=(), microphone=()"]
             [Lower("Strict-Transport-Security") := "max-age=31536000; includeSubDomains"]
             [Lower("X-Content-Type-Options") := "nosniff"]
             [Lower("X-Frame-Options") := "DENY"]
             [Lower("X-XSS-Protection") := "1; mode=block"]
         == m + SecurityHeaders
  {
    AllowOriginName();
    RobotsTagName();
    PermissionsPolicyName();
    TransportSecurityName();
    ContentTypeOptionsName();
    FrameOptionsName();
    XssProtectionName();
    SecuritySets(m);
  }

  // The names as the handler spells them, lower-cased by `Headers`, one
  // lemma each: every character of a literal costs the solver a case split.

  lemma AllowOriginName()
    ensures Lower("Access-Control-Allow-Origin") == "access-control-allow-origin"
  {
  }

  lemma RobotsTagName()
    ensures Lower("X-Robots-Tag") == "x-robots-tag"
  {
  }

  lemma PermissionsPolicyName()
    ensures Lower("Permissions-Policy") == "permissions-policy"
  {
  }

  lemma TransportSecurityName()
    ensures Lower("Strict-Transport-Security") == "strict-transport-security"
  {
  }

  lemma ContentTypeOptionsName()
    ensures Lower("X-Content-Type-Options") == "x-content-type-options"
  {
  }

  lemma FrameOptionsName()
    ensures Lower("X-Frame-Options") == "x-frame-options"
  {
  }

  lemma XssProtectionName()
    ensures Lower("X-XSS-Protection") == "x-xss-protection"
  {
  }

  lemma CacheControlName()
    ensures Lower("Cache-Control") == CacheControl
  {
  }

  lemma ContentSecurityPolicyName()
    ensures Lower("Content-Security-Policy") == ContentSecurityPolicy
  {
  }

  lemma ContentTypeName()
    ensures Lower("Content-Type") == ContentType
  {
  }

  /** The seven unconditional `set` calls at the head of the handler. */
  method SetSecurityHeaders(headers: Headers)
    requires headers.Valid()
    modifies headers
    ensures headers.Valid()
    ensures headers.entries == old(headers.entries) + SecurityHeaders
  {
    ghost var copied := headers.entries;
    headers.Set("Access-Control-Allow-Origin", "https://prysmi.com");
    headers.Set("X-Robots-Tag", "all");
    headers.Set("Permissions-Policy", "camera=(), geolocation=(), microphone=()");
    headers.Set("Strict-Transport-Security", "max-age=31536000; includeSubDomains");
    headers.Set("X-Content-Type-Options", "nosniff");
    headers.Set("X-Frame-Options", "DENY");
    headers.Set("X-XSS-Protection", "1; mode=block");
    SpelledSecuritySets(copied);
  }

  /** The font branch: a year-long immutable cache lifetime for anything
      under `/assets/fonts/`, nothing otherwise. */
  method SetFontCache(headers: Headers, pathname: string)
    requires headers.Valid()
    modifies headers
    ensures headers.Valid()
    ensures headers.entries == if IsFontPath(pathname) then old(headers.entries)[CacheControl := FontCacheValue] else old(headers.entries)
  {
    if StartsWith(pathname, "/assets/fonts/") {
      headers.Set("Cache-Control", "public, max-age=31536000, immutable");
      CacheControlName();
    }
  }

  /** The HTML branch: the policy whose script directive names `nonce` goes
      into the headers, and the rewrite writes `nonce` on every `script`
      element of the body. */
  method ApplyNoncePolicy(response: Response, nonce: string)
    requires IsUuidV4(nonce)
    requires response.headers.Valid()
    requires forall e | e in response.body :: e.Valid()
    modifies response.headers, set e | e in response.body
    ensures response.headers.Valid()
    ensures forall e | e in response.body :: e.Valid()
    ensures response.headers.entries == old(response.headers.entries)[ContentSecurityPolicy := Csp.Policy(nonce)]
    ensures forall e | e in response.body :: e.attributes == Injected(old(e.attributes), e.tagName, "script", nonce)
    ensures forall e | e in response.body && Selects("script", e.tagName) ::
              "nonce" in e.attributes
              && Csp.FindNonce(response.headers.entries[ContentSecurityPolicy]) == Some(e.attributes["nonce"])
  {
    var csp := Csp.Policy(nonce);
    response.headers.Set("Content-Security-Policy", csp);
    assert response.headers.entries == old(response.headers.entries)[ContentSecurityPolicy := csp] by { ContentSecurityPolicyName(); }
    var injector := new NonceInjector(nonce);
    Transform("script", injector, response.body);
    NonceAlphabet(nonce);
    Csp.PolicyNonce(nonce);
  }

  /** The handler's work on the origin's response once its nonce is fixed:
      `nonce` is whatever `generateNonce` returns, which is used only when
      the response is HTML. */
  method Decorate(request: Request, origin: Response, nonce: string) returns (response: Response)
    requires IsUuidV4(nonce)
    requires origin.headers.Valid()
    requires forall e | e in origin.body :: e.Valid()
    modifies set e | e in origin.body
    ensures fresh(response) && fresh(response.headers) && response.headers.Valid()
    ensures forall e | e in response.body :: e.Valid()
    ensures response.status == origin.status && response.body == origin.body
    ensures unchanged(origin.headers)
    ensures response.headers.entries
         == DecoratedHeaders(origin.headers.entries, request.pathname, Csp.Policy(nonce))
    ensures IsHtml(origin.headers.entries) ==>
      forall e | e in origin.body :: e.attributes == Injected(old(e.attributes), e.tagName, "script", nonce)
    ensures !IsHtml(origin.headers.entries) ==>
      forall e | e in origin.body :: e.attributes == old(e.attributes)
    // the nonce source in the policy's script directive names the nonce
    // every script element carries
    ensures IsHtml(origin.headers.entries) ==>
      && ContentSecurityPolicy in response.headers.entries
      && forall e | e in response.body && Selects("script", e.tagName) ::
           "nonce" in e.attributes
           && Csp.FindNonce(response.headers.entries[ContentSecurityPolicy]) == Some(e.attributes["nonce"])
  {
    var pathname := request.pathname;
    var contentType := match origin.headers.Get("Content-Type") case Some(v) => v case None => "";
    assert contentType == ContentTypeOf(origin.headers.entries) by { ContentTypeName(); }

    response := new Response(origin.body, origin);
    SetSecurityHeaders(response.headers);
    SetFontCache(response.headers, pathname);
    if Includes(contentType, "text/html") {
      ApplyNoncePolicy(response, nonce);
    } else {
      assert forall e | e in origin.body :: e.attributes == old(e.attributes);
    }
  }

  /** The handler, `onRequest`, given the origin's response and the random
      draws: for an HTML response the nonce is `GenerateNonce(draws)`, the
      same in the policy header and on every script element. */
  method OnRequest(request: Request, origin: Response, draws: seq<Nibble>) returns (response: Response)
    requires |draws| == NonceDraws
    requires origin.headers.Valid()
    requires forall e | e in origin.body :: e.Valid()
    modifies set e | e in origin.body
    ensures fresh(response) && fresh(response.headers) && response.headers.Valid()
    ensures forall e | e in response.body :: e.Valid()
    ensures response.status == origin.status && response.body == origin.body
    ensures unchanged(origin.headers)
    ensures response.headers.entries
         == DecoratedHeaders(origin.headers.entries, request.pathname, Csp.Policy(GenerateNonce(draws)))
    ensures IsHtml(origin.headers.entries) ==>
      forall e | e in origin.body :: e.attributes == Injected(old(e.attributes), e.tagName, "script", GenerateNonce(draws))
    ensures !IsHtml(origin.headers.entries) ==>
      forall e | e in origin.body :: e.attributes == old(e.attributes)
    ensures IsHtml(origin.headers.entries) ==>
      && ContentSecurityPolicy in response.headers.entries
      && forall e | e in response.body && Selects("script", e.tagName) ::
           "nonce" in e.attributes
           && Csp.FindNonce(response.headers.entries[ContentSecurityPolicy]) == Some(e.attributes["nonce"])
  {
    response := Decorate(request, origin, GenerateNonce(draws));
  }
}
