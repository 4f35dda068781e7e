/**
  The decisions made in `index.js`: the CORS origin check, the CORS options,
  the lifetime of a stored session and the two top-level GET routes.
 */
module App {
  import opened Wrappers
  import opened Http

  /** Lifetime of a stored session, in seconds (two weeks). */
  const SessionTtlSeconds: int := 14 * 24 * 60 * 60

  /** Lifetime of the login cookie, in milliseconds (two weeks). */
  const TwoWeeksMs: int := 14 * 24 * 60 * 60 * 1000

  const CorsRejection: string := "Not allowed by CORS"

  /** What the `origin` callback is called with: `callback(null, true)` or
      `callback(new Error('Not allowed by CORS'))`. */
  datatype CorsDecision = Allow | Reject(error: string)

  datatype CorsOptions = CorsOptions(allowedOrigins: seq<string>, credentials: bool)

  /** `allowedOrigins`: the single configured frontend URL. */
  function AllowedOrigins(frontendUrl: string): (origins: seq<string>)
    ensures |origins| == 1 && frontendUrl in origins
  {
    [frontendUrl]
  }

  /** JavaScript truthiness of the Origin header: `undefined` and `""` are falsy. */
  predicate OriginAbsent(origin: Option<string>) {
    origin.None? || origin.value == ""
  }

  /** `allowedOrigins.indexOf(origin) !== -1 || !origin`: an exact (strict
      equality) match against an entry of the list, or no origin at all. */
  function CheckOrigin(allowed: seq<string>, origin: Option<string>): (d: CorsDecision)
    ensures d == Allow <==> OriginAbsent(origin) || origin.value in allowed
    ensures d != Allow ==> d == Reject(CorsRejection)
  {
    if (origin.Some? && origin.value in allowed) || OriginAbsent(origin) then Allow
    else Reject(CorsRejection)
  }

  /** `corsOptions`: the allow-list built from the frontend URL; credentials
      are always allowed. */
  function Cors(frontendUrl: string): (o: CorsOptions)
    ensures o.credentials
    ensures o.allowedOrigins == AllowedOrigins(frontendUrl)
  {
    CorsOptions(AllowedOrigins(frontendUrl), true)
  }

  /** With the configured options, an origin is allowed exactly when it is
      absent (or empty) or string-equal to the frontend URL: no prefix, suffix
      or wildcard match, whatever the origin. */
  lemma OriginAllowedIff(frontendUrl: string, origin: Option<string>)
    ensures CheckOrigin(Cors(frontendUrl).allowedOrigins, origin) == Allow
        <==> OriginAbsent(origin) || origin == Some(frontendUrl)
    ensures CheckOrigin(Cors(frontendUrl).allowedOrigins, origin) == Allow
        || CheckOrigin(Cors(frontendUrl).allowedOrigins, origin) == Reject(CorsRejection)
  {
    assert Cors(frontendUrl).allowedOrigins == [frontendUrl];
  }

  /** A credentialed response is only ever granted to a present origin that is
      literally the configured entry, so `*` is reflected only when `*` itself
      was configured as the frontend URL. */
  lemma CredentialedOriginIsExact(frontendUrl: string, origin: string)
    requires origin != ""
    requires CheckOrigin(Cors(frontendUrl).allowedOrigins, Some(origin)) == Allow
    ensures origin == frontendUrl
  {
    OriginAllowedIff(frontendUrl, Some(origin));
  }

  /** The store TTL in seconds, times 1000, equals the login cookie's maxAge in milliseconds. */
  lemma SessionTtlMatchesLoginCookie()
    ensures SessionTtlSeconds == 1209600
    ensures SessionTtlSeconds * 1000 == TwoWeeksMs
  {
  }

  /** A GET request that no router under `/auth` or `/profile` answered:
      `app.get("/")`, then the catch-all `app.get("*")`. */
  function TopLevelGet(path: string): (r: Response)
    ensures r.status == StatusOk && r.cookies == [] && r.location.None?
    ensures Succeeded(r) <==> path == "/"
    ensures Failed(r) <==> path != "/"
    ensures path != "/" ==> "error" in r.body.value && r.body.value["error"] == JString("Method Not allowed")
  {
    if path == "/" then
      JsonResponse(StatusOk, map["success" := JBool(true), "msg" := JString("Server is running")], [])
    else
      JsonResponse(StatusOk, map["success" := JBool(false), "error" := JString("Method Not allowed")], [])
  }
}
