# Session authentication core of authmaster-backend, modelled in Dafny

The backend registers users, logs them in with a `cookie_token` cookie,
finishes an identity-provider login with a redirect to the frontend,
redirects provider failures to the frontend with a one-shot flash message,
and logs users out. In front of that sit a CORS origin check with a single
allowed origin (the frontend URL), a two-week session store lifetime and
two top-level GET routes.

The model is in five modules:

- `Wrappers` (`wrappers.dfy`): the `Option` datatype.
- `UriComponent` (`uri_component.dfy`): `encodeURIComponent` as a total
  function on strings (percent-encoding of UTF-8 bytes as in section 2.1 of
  RFC 3986, with the unreserved characters of section 2.3 and `!'()*` left
  as they are), a reference decoder, and the round trip between them.
- `Http` (`http.dfy`): JSON bodies, cookie option sets (section 4.1.2 of
  RFC 6265; SameSite from section 4.1.2.7 of draft-ietf-httpbis-rfc6265bis)
  and the response record a handler leaves behind: status, JSON body, the
  cookies set, and the redirect target.
- `App` (`app.dfy`): what `index.js` decides: the CORS origin predicate, the
  CORS options, the session lifetime and the top-level GET routes.
- `AuthController` (`auth_controller.dfy`): the five handlers of
  `controllers/authController.js`. The state they change lives in the class
  `Server`: the User collection (a sequence of documents), the session's
  authenticated flag and the queue of 'error' flash messages. `register`,
  `errorMessage` and `logoutUser` are methods of `Server`. Each is proved
  equal to a step function on values (`RegisterStep`, `FlashMessage` with
  `ErrorRedirectUrl`, `LogoutStep`), and the lemmas reason about those
  functions. `login` and `authSuccess` only build a response, so they are
  functions.

Collaborator outcomes are explicit inputs:
- whether validation failed;
- which user Passport attached, if any;
- whether `User.findOne`, `save` or `req.logout` failed;
- the id the database gives a new document;
- the current time in milliseconds.

Three behaviours of the code are easy to miss, and the model follows each of
them:
- The cookie value is the user's `_id`, not a random session id.
- The logout cookie that overwrites `cookie_token` has an expiry two weeks
  in the future, not in the past.
- When `req.logout` fails, the handler answers 500 and sets no cookie. It
  does not clear the cookie anyway.

## Model

| member | source | states |
|---|---|---|
| `UriComponent.Encode` | controllers/authController.js:64 | `encodeURIComponent`: unreserved characters and `!'()*~` are kept, every other character becomes the upper-case `%XY` escapes of its UTF-8 bytes; its guarantees are `UriComponent.DecodeEncode` and `UriComponent.EncodeQuerySafe` |
| `UriComponent.EncodeTwoByteExample` | controllers/authController.js:64 | `é` (U+00E9) encodes as `%C3%A9`, the escapes of its two UTF-8 bytes |
| `UriComponent.EncodeFourByteExample` | controllers/authController.js:64 | U+1F600 encodes as `%F0%9F%98%80`, the escapes of its four UTF-8 bytes |
| `UriComponent.DecodeEncode` | controllers/authController.js:64 | decoding the percent-encoding of any string gives that string back |
| `UriComponent.EncodeInjective` | controllers/authController.js:64 | two strings with the same encoding are equal |
| `UriComponent.EncodeQuerySafe` | controllers/authController.js:64 | an encoding holds only unreserved characters and `%`, so never `&`, `=`, `#` or `?` |
| `UriComponent.EncodeUnreservedIdentity` | controllers/authController.js:64 | a string made only of unreserved characters is its own encoding |
| `App.AllowedOrigins` | index.js:50-51 | the allow-list has exactly one entry, the frontend URL |
| `App.CheckOrigin` | index.js:54-60 | an origin is allowed iff it is absent, empty or an element of the list; otherwise the callback gets the error "Not allowed by CORS" |
| `App.Cors` | index.js:53-62 | the CORS options always allow credentials, whatever the origin, and use the one-entry list |
| `App.OriginAllowedIff` | index.js:50-59 | with the configured list, an origin is allowed iff it is absent or empty, or string-equal to the frontend URL; any other origin is rejected with "Not allowed by CORS" |
| `App.CredentialedOriginIsExact` | index.js:50-61 | a present origin that is allowed is literally the frontend URL, never a prefix or wildcard match |
| `App.SessionTtlMatchesLoginCookie` | index.js:36 | the store TTL is 1209600 seconds, and times 1000 it equals the login cookie's maxAge |
| `App.TopLevelGet` | index.js:78-90 | GET "/" answers success=true; every other unmatched GET answers success=false with "Method Not allowed" and never succeeds |
| `AuthController.ToJson` | controllers/authController.js:37 | a stored user serialises to the keys `_id`, `name`, `email`, `password` |
| `AuthController.FindByEmail` | controllers/authController.js:17 | the lookup finds a document iff some document carries the email, and what it finds carries it |
| `AuthController.CountEmailFind` | controllers/authController.js:17-18 | the lookup finds nothing iff no document carries the email |
| `AuthController.RegisterStep` | controllers/authController.js:7-30 | 422 iff validation failed; 409 iff the email exists; 500 iff the lookup or save threw; 201 with success=true otherwise; only a 201 appends exactly the record {id, name, email, password}; every other outcome leaves the collection unchanged and answers success=false |
| `AuthController.RegisterFailure` | controllers/authController.js:27-29 | the catch block answers 500 with success=false |
| `AuthController.RegisterKeepsEmailsUnique` | controllers/authController.js:16-24 | registration never stores a second document with an existing email |
| `AuthController.RegisterFreshEmail` | controllers/authController.js:22-26 | a fresh email with no failure gives 201, one more document, and exactly one document with that email |
| `AuthController.RegisterTwice` | controllers/authController.js:17-26 | registering an email a second time answers 409, leaves the collection unchanged and exactly one document with that email remains |
| `AuthController.Server.Register` | controllers/authController.js:7-30 | the handler's response and new collection are those of `RegisterStep`; unique emails are preserved |
| `AuthController.LoginCookieOptions` | controllers/authController.js:43-47 | the login cookie lives 1209600000 ms (the session TTL in ms) and is httpOnly, secure and SameSite=None |
| `AuthController.PublicUser` | controllers/authController.js:37-38 | the returned user is the stored record's JSON with only the `password` key removed |
| `AuthController.Login` | controllers/authController.js:33-49 | no user: 401, success=false, no cookie; a user: 200, success=true, exactly one `cookie_token` cookie holding the user's `_id`, and the user without its password; every cookie is HttpOnly and Secure, and SameSite=None comes with Secure |
| `AuthController.LoginStripsPassword` | controllers/authController.js:37-38 | the returned user has exactly `_id`, `name`, `email` with the stored values, and no password |
| `AuthController.AuthSuccess` | controllers/authController.js:51-57 | with a user: one `cookie_token` cookie holding its `_id`, expiring at now + 1209600000 ms, httpOnly, secure, with the frontend URL as domain, and a redirect to exactly the frontend URL; without one the handler throws and sends nothing |
| `AuthController.FlashMessage` | controllers/authController.js:62-64 | the first queued error message, or "try_again_with_other_way" when there is none or it is empty |
| `AuthController.ErrorRedirectUrl` | controllers/authController.js:63-64 | the redirect starts with the frontend URL |
| `AuthController.ErrorRedirectCarriesMessage` | controllers/authController.js:64 | the redirect is the frontend URL, then `?message=`, then a part with no query delimiter that decodes to the message |
| `AuthController.ErrorRedirectInjective` | controllers/authController.js:64 | different messages give different redirect URLs |
| `AuthController.ErrorRedirectPlainReason` | controllers/authController.js:64 | a message of unreserved characters appears in the URL unescaped |
| `AuthController.ErrorRedirectNoEmail` | controllers/authController.js:64 | the reason "no_email" redirects to `<frontend>?message=no_email` |
| `AuthController.ErrorRedirectDefault` | controllers/authController.js:64 | the default reason appears unescaped after `?message=` |
| `AuthController.Server.ErrorMessage` | controllers/authController.js:60-65 | redirects to the URL built from the chosen message and leaves the 'error' queue empty |
| `AuthController.ErrorMessageTwice` | controllers/authController.js:60-65 | a second `errorMessage` call redirects with the default reason: the flash message is read once |
| `AuthController.LogoutCookieOptions` | controllers/authController.js:76-77 | the overwrite cookie expires at now + 1209600000 ms (so after now), is httpOnly and secure, and has the frontend URL as domain |
| `AuthController.LogoutStep` | controllers/authController.js:68-86 | not authenticated: 200, success=false, "User already logout", no cookie, session untouched; logout error: 500, success=false, no cookie, session still authenticated; otherwise: unauthenticated, `cookie_token` overwritten with null, success=true |
| `AuthController.LogoutTwice` | controllers/authController.js:68-84 | after a successful logout a second logout answers "User already logout" and sets no cookie |
| `AuthController.Server.LogoutUser` | controllers/authController.js:68-86 | the handler's response and new authenticated flag are those of `LogoutStep` |

## Left out

- Express, Passport, Mongoose, connect-mongo, connect-flash and the `cors` package are foreign code. The model does not cover how `res.cookie` serialises a cookie (a `null` value, say), how `cors` turns a decision into headers or answers pre-flight requests, or how express-session stores, reads and expires sessions. Session creation, lookup, destruction and expiry are that library's, so they are not modelled.
- Password hashing and credential checking (the Passport strategies in `config/passport.js`) are not part of this model. The user Passport attached is an input.
- express-validator's rules are not part of this model. Their verdict is a boolean input.
- Process bootstrap is I/O and configuration: dotenv, the database connection, Cloudinary and `app.listen` (index.js:15-26, 93-95).
- Response headers other than the cookies and the redirect target are not modelled. The `Money` header `login` adds (controllers/authController.js:42) is one of them. The unused `expirationTime` and `urlWithoutProtocol` locals (controllers/authController.js:39-41) are left out too. The model takes `FRONTEND_URL` to be a defined string, so the TypeError `.replace` raises when it is unset is not modelled. Neither is the `undefined?message=` URL `errorMessage` would then build.
- The static session-cookie settings (`domain: '.netlify.app'`, `sameSite: 'strict'`, index.js:43-47) are configuration of express-session. Whether a browser accepts a cookie is not modelled: a full URL used as `domain`, say. Attribute values are recorded as data.
- `models/User` is not part of this model. A stored document has `_id`, `name`, `email` and `password`. Mongoose extras such as `__v` are not represented. `User.findOne` returns the first match in collection order.
- AuthController.Server.LogoutUser: when `req.logout` fails, the model leaves the authenticated flag as it was, standing for the session store that was not updated. It does not follow Passport in clearing `req.user` in memory first.
- The `await`ed calls are not interleaved with other requests. Each handler is one sequential step with explicit success or failure inputs. One `Server` object holds the collection, one session's authenticated flag and that session's flash queue.
- `encodeURIComponent` throws URIError on a lone UTF-16 surrogate. Dafny characters are Unicode scalar values, so such a string cannot be written here.
- The routers mounted under `/auth` and `/profile` (`routes/auth`, `routes/profile`) are not part of this model. `App.TopLevelGet` covers GET requests they did not answer.
