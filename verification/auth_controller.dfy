/**
  The five handlers of `controllers/authController.js`.

  The state they touch is held by `Server`: the User collection (what
  `User.findOne` searches and `save` appends to), whether the session is
  authenticated (`req.isAuthenticated()` / `req.logout`) and the queue of
  flash messages of kind 'error' (`req.flash('error')`). `register`,
  `errorMessage` and `logoutUser` change that state and are methods of
  `Server`, each proved equal to a step function on values that the lemmas
  below reason about; `login` and `authSuccess` change nothing but the
  response and are functions.

  What a collaborator would decide is an explicit input: whether validation
  failed, which user Passport attached, whether the lookup, `save` or
  `logout` threw, and the current time in milliseconds.
 */
module AuthController {
  import opened Wrappers
  import opened Http
  import App
  import UriComponent

  /** A document of the User collection. */
  datatype UserRecord = UserRecord(id: string, name: string, email: string, password: string)

  /** The fields of the registration request body. */
  datatype RegisterBody = RegisterBody(name: string, email: string, password: string)

  const CookieName: string := "cookie_token"
  const DefaultFlashMessage: string := "try_again_with_other_way"

  const StatusCreated := 201
  const StatusUnauthorized := 401
  const StatusConflict := 409
  const StatusUnprocessable := 422
  const StatusServerError := 500

  // ---------------------------------------------------------------------------
  // The User collection

  /** `user.toJSON()`: the stored document as a JSON object. */
  function ToJson(u: UserRecord): (o: JsonObject)
    ensures o.Keys == {"_id", "name", "email", "password"}
    ensures o["_id"] == JString(u.id) && o["password"] == JString(u.password)
  {
    map["_id" := JString(u.id), "name" := JString(u.name), "email" := JString(u.email),
        "password" := JString(u.password)]
  }

  /** `User.findOne({ email })`: the first document with that email, if any. */
  function FindByEmail(users: seq<UserRecord>, email: string): (r: Option<UserRecord>)
    ensures r.Some? <==> exists i :: 0 <= i < |users| && users[i].email == email
    ensures r.Some? ==> r.value in users && r.value.email == email
  {
    if users == [] then None
    else if users[0].email == email then Some(users[0])
    else FindByEmail(users[1..], email)
  }

  /** How many documents carry `email`. */
  function CountEmail(users: seq<UserRecord>, email: string): nat {
    if users == [] then 0
    else (if users[0].email == email then 1 else 0) + CountEmail(users[1..], email)
  }

  /** No two documents share an email. */
  predicate EmailsUnique(users: seq<UserRecord>) {
    forall i, j :: 0 <= i < j < |users| ==> users[i].email != users[j].email
  }

  lemma {:induction false} CountEmailAppend(users: seq<UserRecord>, u: UserRecord, email: string)
    ensures CountEmail(users + [u], email) == CountEmail(users, email) + (if u.email == email then 1 else 0)
  {
    if users != [] {
      assert (users + [u])[1..] == users[1..] + [u];
      CountEmailAppend(users[1..], u, email);
    }
  }

  /** The lookup finds nothing exactly when no document carries the email. */
  lemma {:induction false} CountEmailFind(users: seq<UserRecord>, email: string)
    ensures CountEmail(users, email) == 0 <==> FindByEmail(users, email).None?
  {
    if users != [] {
      CountEmailFind(users[1..], email);
    }
  }

  // ---------------------------------------------------------------------------
  // register

  datatype RegisterResult = RegisterResult(response: Response, users: seq<UserRecord>)

  /** `register`: validation first, then the duplicate check, then `save`; a
      throwing lookup or `save` lands in the catch block. */
  function RegisterStep(users: seq<UserRecord>, body: RegisterBody, validationFailed: bool,
                        lookupFails: bool, newId: string, saveFails: bool): (r: RegisterResult)
    ensures r.response.cookies == [] && r.response.location.None?
    ensures r.response.status == StatusUnprocessable <==> validationFailed
    ensures r.response.status == StatusConflict
        <==> !validationFailed && !lookupFails && FindByEmail(users, body.email).Some?
    ensures r.response.status == StatusServerError
        <==> !validationFailed && (lookupFails || (FindByEmail(users, body.email).None? && saveFails))
    ensures r.response.status == StatusCreated
        <==> !validationFailed && !lookupFails && FindByEmail(users, body.email).None? && !saveFails
    ensures Succeeded(r.response) <==> r.response.status == StatusCreated
    ensures Failed(r.response) <==> r.response.status != StatusCreated
    ensures r.response.status == StatusCreated
        ==> r.users == users + [UserRecord(newId, body.name, body.email, body.password)]
    ensures r.response.status != StatusCreated ==> r.users == users
  {
    if validationFailed then
      RegisterResult(JsonResponse(StatusUnprocessable,
        map["success" := JBool(false), "errors" := JString("All fields Required")], []), users)
    else if lookupFails then
      RegisterResult(RegisterFailure(), users)
    else if FindByEmail(users, body.email).Some? then
      RegisterResult(JsonResponse(StatusConflict,
        map["success" := JBool(false), "error" := JString("User with this email already exists")], []), users)
    else if saveFails then
      RegisterResult(RegisterFailure(), users)
    else
      RegisterResult(JsonResponse(StatusCreated,
        map["success" := JBool(true), "msg" := JString("User registered successfully")], []),
        users + [UserRecord(newId, body.name, body.email, body.password)])
  }

  /** The catch block of `register`. */
  function RegisterFailure(): (r: Response)
    ensures r.status == StatusServerError && Failed(r) && r.cookies == [] && r.location.None?
  {
    JsonResponse(StatusServerError, map["success" := JBool(false), "error" := JString("Failed to register user")], [])
  }

  /** Registration never creates a second document with an existing email. */
  lemma RegisterKeepsEmailsUnique(users: seq<UserRecord>, body: RegisterBody, validationFailed: bool,
                                  lookupFails: bool, newId: string, saveFails: bool)
    ensures EmailsUnique(users)
        ==> EmailsUnique(RegisterStep(users, body, validationFailed, lookupFails, newId, saveFails).users)
  {
  }

  /** A fresh email, with no failure, is stored exactly once. */
  lemma RegisterFreshEmail(users: seq<UserRecord>, body: RegisterBody, newId: string)
    requires FindByEmail(users, body.email).None?
    ensures var r := RegisterStep(users, body, false, false, newId, false);
      && r.response.status == StatusCreated
      && |r.users| == |users| + 1
      && CountEmail(r.users, body.email) == 1
  {
    CountEmailFind(users, body.email);
    CountEmailAppend(users, UserRecord(newId, body.name, body.email, body.password), body.email);
  }

  /** Registering the same email twice: the first succeeds, the second answers
      409 and leaves the collection as it was, with exactly one document for
      that email, whatever `save` would have done. */
  lemma RegisterTwice(users: seq<UserRecord>, first: RegisterBody, second: RegisterBody,
                      id1: string, id2: string, saveFails: bool)
    requires FindByEmail(users, first.email).None?
    requires second.email == first.email
    ensures var r1 := RegisterStep(users, first, false, false, id1, false);
      var r2 := RegisterStep(r1.users, second, false, false, id2, saveFails);
      && r1.response.status == StatusCreated
      && r2.response.status == StatusConflict && Failed(r2.response)
      && r2.users == r1.users
      && CountEmail(r2.users, second.email) == 1
  {
    var r1 := RegisterStep(users, first, false, false, id1, false);
    RegisterFreshEmail(users, first, id1);
    CountEmailFind(r1.users, first.email);
  }

  // ---------------------------------------------------------------------------
  // login

  /** The option set of the login cookie. */
  function LoginCookieOptions(): (o: CookieOptions)
    ensures o.maxAge == Some(App.SessionTtlSeconds * 1000)
    ensures o.httpOnly && o.secure && o.sameSite == Some(SameSiteNone)
    ensures o.expires.None? && o.domain.None?
  {
    CookieOptions(Some(App.TwoWeeksMs), None, true, true, Some(SameSiteNone), None)
  }

  /** The user object returned by `login`: a copy of `toJSON()` with the
      `password` key deleted. */
  function PublicUser(u: UserRecord): (o: JsonObject)
    ensures o.Keys == ToJson(u).Keys - {"password"}
    ensures forall k :: k in o ==> o[k] == ToJson(u)[k]
  {
    ToJson(u) - {"password"}
  }

  /** `login`: without an attached user, 401 and no cookie; with one, a single
      `cookie_token` cookie holding the user's id, and the user without its
      password. */
  function Login(user: Option<UserRecord>): (r: Response)
    ensures r.location.None?
    ensures r.status == StatusOk <==> user.Some?
    ensures r.status == StatusUnauthorized <==> user.None?
    ensures Succeeded(r) <==> user.Some?
    ensures Failed(r) <==> user.None?
    ensures user.None? ==> r.cookies == []
    ensures user.Some? ==> r.cookies == [SetCookie(CookieName, Token(user.value.id), LoginCookieOptions())]
    ensures user.Some? ==> "user" in r.body.value && r.body.value["user"] == JObject(PublicUser(user.value))
    ensures CookiesProtected(r)
  {
    match user
    case None =>
      JsonResponse(StatusUnauthorized, map["success" := JBool(false), "error" := JString("Try Again")], [])
    case Some(u) =>
      JsonResponse(StatusOk,
        map["success" := JBool(true), "msg" := JString("Login Successfull"), "user" := JObject(PublicUser(u))],
        [SetCookie(CookieName, Token(u.id), LoginCookieOptions())])
  }

  /** The user returned by a successful login holds every field of the stored
      document except the password, which it never holds. */
  lemma LoginStripsPassword(u: UserRecord)
    ensures var body := Login(Some(u)).body.value;
      && body["user"].JObject?
      && "password" !in body["user"].fields
      && body["user"].fields.Keys == {"_id", "name", "email"}
      && body["user"].fields["_id"] == JString(u.id)
      && body["user"].fields["name"] == JString(u.name)
      && body["user"].fields["email"] == JString(u.email)
  {
  }

  // ---------------------------------------------------------------------------
  // authSuccess

  /** `authSuccess`, after the identity provider's callback. Reading
      `req.user._id` throws when no user is attached, and then no response is
      produced (None). */
  function AuthSuccess(user: Option<UserRecord>, frontendUrl: string, now: int): (r: Option<Response>)
    ensures r.Some? <==> user.Some?
    ensures r.Some? ==> r.value.status == StatusFound && r.value.location == Some(frontendUrl)
    ensures r.Some? ==>
      && |r.value.cookies| == 1
      && r.value.cookies[0].name == CookieName
      && r.value.cookies[0].value == Token(user.value.id)
      && r.value.cookies[0].options.expires == Some(now + App.TwoWeeksMs)
      && r.value.cookies[0].options.domain == Some(frontendUrl)
      && r.value.cookies[0].options.maxAge.None?
      && r.value.cookies[0].options.sameSite.None?
    ensures r.Some? ==> CookiesProtected(r.value)
  {
    match user
    case None => None
    case Some(u) =>
      var options := CookieOptions(None, Some(now + App.TwoWeeksMs), true, true, None, Some(frontendUrl));
      Some(Redirect(frontendUrl, [SetCookie(CookieName, Token(u.id), options)]))
  }

  // ---------------------------------------------------------------------------
  // errorMessage

  /** `req.flash('error')[0] || "try_again_with_other_way"`: the first queued
      message unless there is none or it is the empty string. */
  function FlashMessage(queue: seq<string>): (m: string)
    ensures |queue| > 0 && queue[0] != "" ==> m == queue[0]
    ensures |queue| == 0 || queue[0] == "" ==> m == DefaultFlashMessage
    ensures m != ""
  {
    if |queue| > 0 && queue[0] != "" then queue[0] else DefaultFlashMessage
  }

  /** The redirect target of `errorMessage`. */
  function ErrorRedirectUrl(frontendUrl: string, message: string): (url: string)
    ensures |url| >= |frontendUrl| + 9
    ensures url[..|frontendUrl|] == frontendUrl
  {
    frontendUrl + "?message=" + UriComponent.Encode(message)
  }

  /** The message is carried as one query parameter: the URL is the frontend
      URL followed by `?message=`, the rest has no query delimiter and decodes
      back to the message, so different messages give different URLs. */
  lemma ErrorRedirectCarriesMessage(frontendUrl: string, message: string)
    ensures var url := ErrorRedirectUrl(frontendUrl, message);
      && url[|frontendUrl|..|frontendUrl| + 9] == "?message="
      && UriComponent.QuerySafe(url[|frontendUrl| + 9..])
      && UriComponent.Decode(url[|frontendUrl| + 9..]) == Some(message)
  {
    var url := ErrorRedirectUrl(frontendUrl, message);
    assert url[|frontendUrl| + 9..] == UriComponent.Encode(message);
    UriComponent.EncodeQuerySafe(message);
    UriComponent.DecodeEncode(message);
  }

  lemma ErrorRedirectInjective(frontendUrl: string, m1: string, m2: string)
    requires ErrorRedirectUrl(frontendUrl, m1) == ErrorRedirectUrl(frontendUrl, m2)
    ensures m1 == m2
  {
    ErrorRedirectCarriesMessage(frontendUrl, m1);
    ErrorRedirectCarriesMessage(frontendUrl, m2);
  }

  /** A reason made of unreserved characters appears in the URL as it is. */
  lemma ErrorRedirectPlainReason(frontendUrl: string, reason: string)
    requires forall i :: 0 <= i < |reason| ==> UriComponent.Unreserved(reason[i])
    ensures ErrorRedirectUrl(frontendUrl, reason) == frontendUrl + "?message=" + reason
  {
    UriComponent.EncodeUnreservedIdentity(reason);
  }

  /** The flash reason "no_email" gives `<frontend>?message=no_email`. */
  lemma ErrorRedirectNoEmail(frontendUrl: string)
    ensures ErrorRedirectUrl(frontendUrl, "no_email") == frontendUrl + "?message=no_email"
  {
    PlainReasonsUnreserved();
    ErrorRedirectPlainReason(frontendUrl, "no_email");
  }

  /** The default reason is not escaped either. */
  lemma ErrorRedirectDefault(frontendUrl: string)
    ensures ErrorRedirectUrl(frontendUrl, DefaultFlashMessage) == frontendUrl + "?message=" + DefaultFlashMessage
  {
    PlainReasonsUnreserved();
    ErrorRedirectPlainReason(frontendUrl, DefaultFlashMessage);
  }

  lemma PlainReasonsUnreserved()
    ensures forall i :: 0 <= i < |"no_email"| ==> UriComponent.Unreserved("no_email"[i])
    ensures forall i :: 0 <= i < |DefaultFlashMessage| ==> UriComponent.Unreserved(DefaultFlashMessage[i])
  {
  }

  // ---------------------------------------------------------------------------
  // logoutUser

  datatype LogoutResult = LogoutResult(response: Response, authenticated: bool)

  /** The option set of the cookie that overwrites `cookie_token` on logout. */
  function LogoutCookieOptions(frontendUrl: string, now: int): (o: CookieOptions)
    ensures o.expires == Some(now + App.TwoWeeksMs) && o.expires.value > now
    ensures o.httpOnly && o.secure && o.domain == Some(frontendUrl)
    ensures o.maxAge.None? && o.sameSite.None?
  {
    CookieOptions(None, Some(now + App.TwoWeeksMs), true, true, None, Some(frontendUrl))
  }

  /** `logoutUser`. `logoutError` is the error `req.logout` hands its callback,
      None when it succeeded. */
  function LogoutStep(authenticated: bool, logoutError: Option<Json>, frontendUrl: string, now: int): (r: LogoutResult)
    ensures r.response.location.None?
    ensures !authenticated ==> && r.response.status == StatusOk && Failed(r.response)
                               && "error" in r.response.body.value
                               && r.response.body.value["error"] == JString("User already logout")
                               && r.response.cookies == [] && !r.authenticated
    ensures authenticated && logoutError.Some? ==>
      && r.response.status == StatusServerError && Failed(r.response)
      && r.response.cookies == [] && r.authenticated
    ensures authenticated && logoutError.None? ==>
      && r.response.status == StatusOk && !r.authenticated
      && r.response.cookies == [SetCookie(CookieName, NullValue, LogoutCookieOptions(frontendUrl, now))]
    ensures Succeeded(r.response) <==> authenticated && logoutError.None?
    ensures CookiesProtected(r.response)
  {
    if !authenticated then
      LogoutResult(JsonResponse(StatusOk, map["success" := JBool(false), "error" := JString("User already logout")], []),
                   authenticated)
    else match logoutError
      case Some(err) =>
        LogoutResult(JsonResponse(StatusServerError,
          map["success" := JBool(false), "msg" := JString("Logout failed."), "error" := err], []), authenticated)
      case None =>
        LogoutResult(JsonResponse(StatusOk, map["success" := JBool(true), "msg" := JString("Logout successful")],
          [SetCookie(CookieName, NullValue, LogoutCookieOptions(frontendUrl, now))]), false)
  }

  /** Logging out is idempotent for the client: once a logout succeeded, a
      second one reports "User already logout" and sets no cookie. */
  lemma LogoutTwice(logoutError: Option<Json>, frontendUrl: string, now1: int, now2: int)
    ensures var r1 := LogoutStep(true, None, frontendUrl, now1);
      var r2 := LogoutStep(r1.authenticated, logoutError, frontendUrl, now2);
      && Succeeded(r1.response)
      && Failed(r2.response) && r2.response.status == StatusOk && r2.response.cookies == []
      && !r2.authenticated
  {
  }

  // ---------------------------------------------------------------------------
  // The state the handlers update

  class Server {
    /** The User collection. */
    var users: seq<UserRecord>
    /** `req.isAuthenticated()` for the session at hand. */
    var authenticated: bool
    /** The messages queued with `req.flash('error', ...)`. */
    var flashErrors: seq<string>
    /** `process.env.FRONTEND_URL`. */
    const frontendUrl: string

    ghost predicate Valid()
      reads this
    {
      EmailsUnique(users)
    }

    constructor (frontendUrl: string)
      ensures Valid()
      ensures this.frontendUrl == frontendUrl && users == [] && !authenticated && flashErrors == []
    {
      this.frontendUrl := frontendUrl;
      users := [];
      authenticated := false;
      flashErrors := [];
    }

    method Register(body: RegisterBody, validationFailed: bool, lookupFails: bool, newId: string, saveFails: bool)
      returns (res: Response)
      modifies this`users
      ensures RegisterResult(res, users)
           == RegisterStep(old(users), body, validationFailed, lookupFails, newId, saveFails)
      ensures old(Valid()) ==> Valid()
    {
      RegisterKeepsEmailsUnique(users, body, validationFailed, lookupFails, newId, saveFails);
      if validationFailed {
        return JsonResponse(StatusUnprocessable,
          map["success" := JBool(false), "errors" := JString("All fields Required")], []);
      }
      if lookupFails {
        return RegisterFailure();
      }
      var existing := FindByEmail(users, body.email);
      if existing.Some? {
        return JsonResponse(StatusConflict,
          map["success" := JBool(false), "error" := JString("User with this email already exists")], []);
      }
      if saveFails {
        return RegisterFailure();
      }
      users := users + [UserRecord(newId, body.name, body.email, body.password)];
      res := JsonResponse(StatusCreated, map["success" := JBool(true), "msg" := JString("User registered successfully")], []);
    }

    /** `errorMessage`: takes the whole 'error' queue in one step and redirects
        with the message it chose. */
    method ErrorMessage() returns (res: Response)
      modifies this`flashErrors
      ensures flashErrors == []
      ensures res == Redirect(ErrorRedirectUrl(frontendUrl, FlashMessage(old(flashErrors))), [])
    {
      var queue := flashErrors;
      flashErrors := [];
      var message := if |queue| > 0 && queue[0] != "" then queue[0] else DefaultFlashMessage;
      res := Redirect(frontendUrl + "?message=" + UriComponent.Encode(message), []);
    }

    method LogoutUser(logoutError: Option<Json>, now: int) returns (res: Response)
      modifies this`authenticated
      ensures LogoutResult(res, authenticated) == LogoutStep(old(authenticated), logoutError, frontendUrl, now)
    {
      if authenticated {
        if logoutError.Some? {
          return JsonResponse(StatusServerError,
            map["success" := JBool(false), "msg" := JString("Logout failed."), "error" := logoutError.value], []);
        }
        authenticated := false;
        var cookie := SetCookie(CookieName, NullValue, LogoutCookieOptions(frontendUrl, now));
        res := JsonResponse(StatusOk, map["success" := JBool(true), "msg" := JString("Logout successful")], [cookie]);
      } else {
        res := JsonResponse(StatusOk, map["success" := JBool(false), "error" := JString("User already logout")], []);
      }
    }
  }

  /** The flash reason is read once: after `errorMessage`, a second call
      redirects with the default message. */
  method ErrorMessageTwice(server: Server) returns (first: Response, second: Response)
    modifies server`flashErrors
    ensures first.location == Some(ErrorRedirectUrl(server.frontendUrl, FlashMessage(old(server.flashErrors))))
    ensures second.location == Some(server.frontendUrl + "?message=" + DefaultFlashMessage)
  {
    first := server.ErrorMessage();
    second := server.ErrorMessage();
    ErrorRedirectDefault(server.frontendUrl);
  }
}
