/**
  The observable part of an HTTP exchange that the handlers produce: a JSON
  body, the cookies set with their attributes (section 4.1.2 of RFC 6265 for
  Max-Age, Expires, Domain, Secure and HttpOnly; section 4.1.2.7 of
  draft-ietf-httpbis-rfc6265bis for SameSite), and a redirect target.
 */
module Http {
  import opened Wrappers

  /** JSON values as they appear in the response bodies. */
  datatype Json =
    | JNull
    | JBool(b: bool)
    | JString(s: string)
    | JObject(fields: map<string, Json>)

  type JsonObject = map<string, Json>

  datatype SameSite = SameSiteStrict | SameSiteLax | SameSiteNone

  /** The option object passed to `res.cookie`; an absent option is None.
      Times are milliseconds: `maxAge` a duration, `expires` an instant. */
  datatype CookieOptions = CookieOptions(
    maxAge: Option<int>,
    expires: Option<int>,
    httpOnly: bool,
    secure: bool,
    sameSite: Option<SameSite>,
    domain: Option<string>)

  /** A cookie value: a user id, or `null` for the logout overwrite. */
  datatype CookieValue = Token(id: string) | NullValue

  datatype SetCookie = SetCookie(name: string, value: CookieValue, options: CookieOptions)

  /** What a handler leaves in `res`: the status code, the JSON body sent with
      `res.json` (None for a redirect), every `res.cookie` call in order, and
      the redirect target of `res.redirect`. */
  datatype Response = Response(
    status: int,
    body: Option<JsonObject>,
    cookies: seq<SetCookie>,
    location: Option<string>)

  const StatusOk := 200
  const StatusFound := 302

  /** `res.status(status).json(body)` after the given cookie calls. */
  function JsonResponse(status: int, body: JsonObject, cookies: seq<SetCookie>): (r: Response)
    ensures r.body == Some(body) && r.location.None?
  {
    Response(status, Some(body), cookies, None)
  }

  /** `res.redirect(url)`: Express answers 302 Found with a Location header. */
  function Redirect(url: string, cookies: seq<SetCookie>): (r: Response)
    ensures r.status == StatusFound && r.location == Some(url) && r.body.None?
  {
    Response(StatusFound, None, cookies, Some(url))
  }

  /** The body carries `success: true`. */
  predicate Succeeded(r: Response) {
    r.body.Some? && "success" in r.body.value && r.body.value["success"] == JBool(true)
  }

  /** The body carries `success: false`. */
  predicate Failed(r: Response) {
    r.body.Some? && "success" in r.body.value && r.body.value["success"] == JBool(false)
  }

  /** A browser drops a SameSite=None cookie that is not Secure
      (section 4.1.2.7 of draft-ietf-httpbis-rfc6265bis). */
  predicate SameSiteNoneIsSecure(c: SetCookie) {
    c.options.sameSite == Some(SameSiteNone) ==> c.options.secure
  }

  /** Every cookie of the response is HttpOnly and Secure, and keeps the
      SameSite=None rule. */
  predicate CookiesProtected(r: Response) {
    forall i :: 0 <= i < |r.cookies| ==>
      r.cookies[i].options.httpOnly && r.cookies[i].options.secure && SameSiteNoneIsSecure(r.cookies[i])
  }
}
