/** The request handler of the admin guard (netlify/functions/admin-guard.ts):
    a password login that sets a session cookie, and the admin page served
    only to requests carrying that cookie. The password comes from the
    environment and is a parameter; so are the foreign primitives. */
module AdminGuard {
  import opened Wrappers
  import opened Text
  import opened Primitives
  import opened Cookies
  import opened CookieHeader
  import opened Forms

  /** The name of the session cookie. */
  const SessionCookie: string := "adminSession"

  /** The form field and JSON member holding the submitted password. */
  const PasswordField: string := "password"

  const FormType: string := "application/x-www-form-urlencoded"
  const JsonType: string := "application/json"

  /** The parts of the incoming event the handler reads: the method, the
      `cookie` and `content-type` headers, and the body. */
  datatype Request = Request(httpMethod: string, cookie: Option<string>, contentType: Option<string>, body: Option<string>)

  /** A response body: literal text, the admin application page, or the
      login page, with or without its "Incorrect password" notice. */
  datatype Body = Plain(text: string) | AppPage | LoginPage(invalid: bool)

  datatype Response = Response(statusCode: int, headers: map<string, string>, body: Body)

  /** The headers of every HTML page the guard serves. */
  const HtmlHeaders: map<string, string> := map["Content-Type" := "text/html; charset=utf-8", "Cache-Control" := "no-store"]

  function Html(status: int, body: Body): Response {
    Response(status, HtmlHeaders, body)
  }

  const InternalError: Response := Response(500, map[], Plain("Internal Error"))
  const NotConfigured: Response := Response(500, map[], Plain("Admin not configured"))
  const MethodNotAllowed: Response := Response(405, map["Allow" := "GET, POST"], Plain("Method Not Allowed"))

  /** `x || d` on a string that may be missing: the empty string is falsy. */
  function OrDefault(x: Option<string>, d: string): (r: string)
    ensures r == d <==> x.None? || x.value == "" || x.value == d
    ensures r != d ==> x == Some(r)
  {
    if x.Some? && x.value != "" then x.value else d
  }

  /** `makeSessionToken(password)`: the base64 encoding of `ok:` followed by
      the password. */
  function SessionToken(p: Foreign, password: string): string {
    p.base64("ok:" + password)
  }

  /** `(form.password || '').toString()` for the body of a POST, `None` when
      computing it throws. A url-encoded body is parsed as a form (a key or
      value that fails to decode throws); a JSON body is parsed with
      `JSON.parse`, a missing body reading as `{}` and a syntax error leaving
      the form empty, while a `null` document throws on `.password`. Any
      other content type submits nothing. */
  function Submitted(p: Foreign, contentTypeHeader: Option<string>, body: Option<string>, plusAsSpace: bool): (r: Option<string>)
    ensures var contentType := AsciiLower(OrDefault(contentTypeHeader, ""));
      !Contains(contentType, FormType) && !Contains(contentType, JsonType) ==> r == Some("")
    ensures var contentType := AsciiLower(OrDefault(contentTypeHeader, ""));
      var form := FormOf(p, OrDefault(body, ""), plusAsSpace);
      && (Contains(contentType, FormType) && form.None? ==> r.None?)
      && (Contains(contentType, FormType) && form.Some? ==>
            r == Some(if PasswordField in form.value then form.value[PasswordField] else ""))
  {
    var contentType := AsciiLower(OrDefault(contentTypeHeader, ""));
    if Contains(contentType, FormType) then
      match FormOf(p, OrDefault(body, ""), plusAsSpace)
      case None => None
      case Some(form) => Some(if PasswordField in form then OrDefault(Some(form[PasswordField]), "") else "")
    else if Contains(contentType, JsonType) then
      match p.parseJson(OrDefault(body, "{}"))
      case None => Some("")
      case Some(JsonNull) => None
      case Some(JsonValue(text)) => text
    else Some("")
  }

  /** The redirect that completes a login: back to `/admin`, setting the
      session cookie to the token. */
  function LoginRedirect(p: Foreign, token: string): (r: Response)
    ensures r.statusCode == 302 && r.body == Plain("")
    ensures r.headers.Keys == {"Location", "Set-Cookie"} && r.headers["Location"] == "/admin"
  {
    Response(302, map["Location" := "/admin", "Set-Cookie" := BuildCookieHeader(p, SessionCookie, token)], Plain(""))
  }

  /** A login submission: the redirect when the submitted password is the
      configured one, the login page with its notice otherwise. */
  function Login(p: Foreign, password: string, req: Request, plusAsSpace: bool): (r: Response)
    ensures r.statusCode == 302 <==> Submitted(p, req.contentType, req.body, plusAsSpace) == Some(password)
    ensures Submitted(p, req.contentType, req.body, plusAsSpace).None? <==> r == InternalError
    ensures r.statusCode in {200, 302, 500}
    ensures r.statusCode == 200 <==> r == Html(200, LoginPage(true))
  {
    match Submitted(p, req.contentType, req.body, plusAsSpace)
    case None => InternalError
    case Some(submitted) =>
      if submitted == password then LoginRedirect(p, SessionToken(p, password))
      else Html(200, LoginPage(true))
  }

  /** The handler, with the form values' `+` read as a space or not. Every
      exception inside it becomes a 500 "Internal Error". */
  function HandleWith(p: Foreign, env: Option<string>, req: Request, plusAsSpace: bool): (r: Response)
    ensures r.statusCode in {200, 302, 405, 500}
    ensures r.statusCode == 200 ==> r.headers == HtmlHeaders && (r.body.AppPage? || r.body.LoginPage?)
    ensures r.statusCode == 302 ==> env.Some? && r == LoginRedirect(p, SessionToken(p, env.value))
  {
    if OrDefault(env, "") == "" then NotConfigured
    else
      var password := env.value;
      match ParseCookies(p, OrDefault(req.cookie, ""))
      case None => InternalError
      case Some(cookies) =>
        if req.httpMethod == "POST" then Login(p, password, req, plusAsSpace)
        else if req.httpMethod == "GET" then
          var hasValidSession := SessionCookie in cookies && cookies[SessionCookie] == SessionToken(p, password);
          Html(200, if hasValidSession then AppPage else LoginPage(false))
        else MethodNotAllowed
  }

  /** The handler as written: form values keep their `+`. */
  function HandleAsWritten(p: Foreign, env: Option<string>, req: Request): Response {
    HandleWith(p, env, req, false)
  }

  /** The handler with form values decoded as browsers encode them. */
  function Handle(p: Foreign, env: Option<string>, req: Request): Response {
    HandleWith(p, env, req, true)
  }

  /** The request carries a session cookie equal to the token of the
      configured password. */
  predicate HasSession(p: Foreign, password: string, req: Request) {
    var cookies := ParseCookies(p, OrDefault(req.cookie, ""));
    cookies.Some? && SessionCookie in cookies.value && cookies.value[SessionCookie] == SessionToken(p, password)
  }

  /** Without a password in the environment every request is refused. */
  lemma NotConfiguredRefuses(p: Foreign, env: Option<string>, req: Request, plusAsSpace: bool)
    requires env.None? || env.value == ""
    ensures HandleWith(p, env, req, plusAsSpace) == Response(500, map[], Plain("Admin not configured"))
  {
  }

  /** Only GET and POST are served; any other method is refused with the
      allowed methods, unless the Cookie header already failed to decode. */
  lemma OtherMethodsRefused(p: Foreign, env: Option<string>, req: Request, plusAsSpace: bool)
    requires env.Some? && env.value != ""
    requires req.httpMethod != "GET" && req.httpMethod != "POST"
    ensures var r := HandleWith(p, env, req, plusAsSpace);
      && (ParseCookies(p, OrDefault(req.cookie, "")).Some? ==> r.statusCode == 405 && r.headers == map["Allow" := "GET, POST"])
      && (ParseCookies(p, OrDefault(req.cookie, "")).None? ==> r.statusCode == 500)
  {
  }

  /** The admin page is served exactly to a GET carrying a valid session
      cookie while a password is configured. */
  lemma AppNeedsSession(p: Foreign, env: Option<string>, req: Request, plusAsSpace: bool)
    ensures HandleWith(p, env, req, plusAsSpace).body == AppPage <==>
      && env.Some? && env.value != ""
      && req.httpMethod == "GET"
      && HasSession(p, env.value, req)
  {
  }

  /** A session cookie is issued exactly to a POST whose submitted password
      is the configured one, and it carries that password's token. In
      particular an empty submission never logs in. */
  lemma LoginNeedsPassword(p: Foreign, env: Option<string>, req: Request, plusAsSpace: bool)
    ensures var r := HandleWith(p, env, req, plusAsSpace);
      r.statusCode == 302 <==>
        && env.Some? && env.value != ""
        && req.httpMethod == "POST"
        && ParseCookies(p, OrDefault(req.cookie, "")).Some?
        && Submitted(p, req.contentType, req.body, plusAsSpace) == Some(env.value)
    ensures var r := HandleWith(p, env, req, plusAsSpace);
      r.statusCode == 302 ==>
        && Submitted(p, req.contentType, req.body, plusAsSpace) != Some("")
        && r.headers["Set-Cookie"] == BuildCookieHeader(p, SessionCookie, SessionToken(p, env.value))
  {
    var r := HandleWith(p, env, req, plusAsSpace);
    if OrDefault(env, "") != "" && ParseCookies(p, OrDefault(req.cookie, "")).Some? && req.httpMethod == "POST" {
      assert r == Login(p, env.value, req, plusAsSpace);
    }
  }

  /** A login submission is judged on the password alone: any Cookie header
      that decodes gives the same response. */
  lemma PostIgnoresSession(p: Foreign, env: Option<string>, req: Request, cookie: Option<string>, plusAsSpace: bool)
    requires req.httpMethod == "POST"
    requires ParseCookies(p, OrDefault(req.cookie, "")).Some? && ParseCookies(p, OrDefault(cookie, "")).Some?
    ensures HandleWith(p, env, req, plusAsSpace) == HandleWith(p, env, req.(cookie := cookie), plusAsSpace)
  {
  }

  /** The session name can be read back from a Cookie header. */
  lemma SessionCookieName()
    ensures SessionCookie != "" && '=' !in SessionCookie && ';' !in SessionCookie
  {
  }

  /** The Cookie a browser sends back for the redirect's Set-Cookie value
      holds the session cookie with the token. */
  lemma RedirectCookieReturns(p: Foreign, token: string)
    requires Sound(p)
    ensures var sent := CookieSent(LoginRedirect(p, token).headers["Set-Cookie"]);
      sent != "" && ParseCookies(p, sent) == Some(map[SessionCookie := token])
  {
    SessionCookieName();
    SessionCookieReturns(p, SessionCookie, token);
  }

  /** Logging in and then loading the page: the Cookie a browser sends back
      for the issued Set-Cookie value opens the admin page. */
  lemma LoginThenGet(p: Foreign, password: string, post: Request, get: Request, plusAsSpace: bool)
    requires Sound(p)
    requires HandleWith(p, Some(password), post, plusAsSpace).statusCode == 302
    requires get.httpMethod == "GET"
    requires get.cookie == Some(CookieSent(HandleWith(p, Some(password), post, plusAsSpace).headers["Set-Cookie"]))
    ensures HandleWith(p, Some(password), get, plusAsSpace) == Html(200, AppPage)
  {
    var token := SessionToken(p, password);
    RedirectCookieReturns(p, token);
  }

  /** A GET without any Cookie header gets the login page, without the
      error notice. */
  lemma GetWithoutCookie(p: Foreign, password: string, req: Request, plusAsSpace: bool)
    requires password != ""
    requires req.httpMethod == "GET" && req.cookie.None?
    ensures HandleWith(p, Some(password), req, plusAsSpace) == Html(200, LoginPage(false))
  {
    NoCookies(p);
  }

  /** An empty Cookie header has no cookies. */
  lemma NoCookies(p: Foreign)
    ensures ParseCookies(p, "") == Some(map[])
  {
    assert Join([""], ";") == "";
    SplitJoin([""], ';');
    assert Split("", ';') == [""];
    var segs := CookieSegments("");
    assert segs == [""];
    var pieces := CookieAssignments(p, segs);
    assert CookiePair("").None?;
    assert pieces == [Records.Skip];
    assert pieces[..0] == [];
    assert Records.Fill(pieces) == Some(map[]);
    assert ParseCookies(p, "") == Records.Fill(pieces);
  }

  /** The login form as a browser submits it, for a password whose form
      encoding is its `encodeURIComponent` encoding, logs in. */
  lemma FormLogin(p: Foreign, password: string, req: Request, plusAsSpace: bool)
    requires Sound(p) && password != ""
    requires req.httpMethod == "POST" && ParseCookies(p, OrDefault(req.cookie, "")).Some?
    requires Contains(AsciiLower(OrDefault(req.contentType, "")), FormType)
    requires req.body == Some(PasswordField + "=" + p.encodeUri(password))
    ensures HandleWith(p, Some(password), req, plusAsSpace).statusCode == 302
  {
    PasswordFieldPlain();
    FormRoundTrip(p, PasswordField, password, plusAsSpace);
  }

  /** A JSON body whose `password` reads as the configured password logs in. */
  lemma JsonLogin(p: Foreign, password: string, req: Request, plusAsSpace: bool)
    requires password != ""
    requires req.httpMethod == "POST" && ParseCookies(p, OrDefault(req.cookie, "")).Some?
    requires !Contains(AsciiLower(OrDefault(req.contentType, "")), FormType)
    requires Contains(AsciiLower(OrDefault(req.contentType, "")), JsonType)
    requires p.parseJson(OrDefault(req.body, "{}")) == Some(JsonValue(Some(password)))
    ensures HandleWith(p, Some(password), req, plusAsSpace).statusCode == 302
  {
    JsonSubmitted(p, req, plusAsSpace);
    PostOutcome(p, password, req, plusAsSpace);
  }

  /** What a JSON body submits: nothing when it is not JSON, a failure for
      `null`, and the `password` member's text otherwise. */
  lemma JsonSubmitted(p: Foreign, req: Request, plusAsSpace: bool)
    requires !Contains(AsciiLower(OrDefault(req.contentType, "")), FormType)
    requires Contains(AsciiLower(OrDefault(req.contentType, "")), JsonType)
    ensures var doc := p.parseJson(OrDefault(req.body, "{}"));
      var r := Submitted(p, req.contentType, req.body, plusAsSpace);
      && (doc.None? ==> r == Some(""))
      && (doc == Some(JsonNull) ==> r.None?)
      && (doc.Some? && doc.value.JsonValue? ==> r == doc.value.passwordText)
  {
  }

  /** A JSON login without a body reads `{}`, submits nothing and is
      refused with the error notice; a `null` document is an internal
      error. */
  lemma JsonEdgeCases(p: Foreign, password: string, req: Request, plusAsSpace: bool)
    requires Sound(p) && password != ""
    requires req.httpMethod == "POST" && ParseCookies(p, OrDefault(req.cookie, "")).Some?
    requires !Contains(AsciiLower(OrDefault(req.contentType, "")), FormType)
    requires Contains(AsciiLower(OrDefault(req.contentType, "")), JsonType)
    ensures req.body.None? ==> HandleWith(p, Some(password), req, plusAsSpace) == Html(200, LoginPage(true))
    ensures p.parseJson(OrDefault(req.body, "{}")) == Some(JsonNull) ==> HandleWith(p, Some(password), req, plusAsSpace) == InternalError
  {
    JsonSubmitted(p, req, plusAsSpace);
    PostOutcome(p, password, req, plusAsSpace);
  }

  /** The password field's name needs no encoding in a form body. */
  lemma PasswordFieldPlain()
    ensures '=' !in PasswordField && '&' !in PasswordField && '%' !in PasswordField && '+' !in PasswordField
  {
  }

  /** As written, a password with a space cannot log in through the form:
      the browser sends the space as `+`, which the parser keeps. With `+`
      read as a space the same submission logs in. Here `a` and `b` are the
      two halves of the password, made of characters the browser sends as
      they are. */
  lemma SpacedPasswordAsWritten(p: Foreign, a: string, b: string, req: Request)
    requires Sound(p)
    requires forall i :: 0 <= i < |a| ==> IsUnreserved(a[i])
    requires forall i :: 0 <= i < |b| ==> IsUnreserved(b[i])
    requires req.httpMethod == "POST" && ParseCookies(p, OrDefault(req.cookie, "")).Some?
    requires Contains(AsciiLower(OrDefault(req.contentType, "")), FormType)
    requires req.body == Some(PasswordField + "=" + (a + "+" + b))
    ensures HandleAsWritten(p, Some(a + " " + b), req) == Html(200, LoginPage(true))
    ensures Handle(p, Some(a + " " + b), req).statusCode == 302
  {
    var raw := a + "+" + b;
    var password := a + " " + b;
    SpacedForms(p, a, b);
    FieldBody(raw);
    FormSubmitted(p, req, false, raw);
    FormSubmitted(p, req, true, password);
    PostOutcome(p, password, req, false);
    PostOutcome(p, password, req, true);
  }

  /** A body holding the password field is never empty. */
  lemma FieldBody(raw: string)
    ensures OrDefault(Some(PasswordField + "=" + raw), "") == PasswordField + "=" + raw
  {
    assert |PasswordField + "=" + raw| > 0;
  }

  /** A form body holding just the password field submits its value. */
  lemma FormSubmitted(p: Foreign, req: Request, plusAsSpace: bool, value: string)
    requires Contains(AsciiLower(OrDefault(req.contentType, "")), FormType)
    requires FormOf(p, OrDefault(req.body, ""), plusAsSpace) == Some(map[PasswordField := value])
    ensures Submitted(p, req.contentType, req.body, plusAsSpace) == Some(value)
  {
  }

  /** A POST with a decodable Cookie header is decided by what it submits:
      an internal error when that throws, otherwise by comparing the
      submission with the password. */
  lemma PostOutcome(p: Foreign, password: string, req: Request, plusAsSpace: bool)
    requires password != ""
    requires req.httpMethod == "POST" && ParseCookies(p, OrDefault(req.cookie, "")).Some?
    ensures var r := HandleWith(p, Some(password), req, plusAsSpace);
      var submitted := Submitted(p, req.contentType, req.body, plusAsSpace);
      && (submitted.None? ==> r == InternalError)
      && (submitted == Some(password) ==> r.statusCode == 302)
      && (submitted.Some? && submitted != Some(password) ==> r == Html(200, LoginPage(true)))
  {
  }

  /** The browser's submission of the spaced password parses to the text
      with `+` as written, and to the password with `+` read as a space. */
  lemma SpacedForms(p: Foreign, a: string, b: string)
    requires Sound(p)
    requires forall i :: 0 <= i < |a| ==> IsUnreserved(a[i])
    requires forall i :: 0 <= i < |b| ==> IsUnreserved(b[i])
    ensures a + "+" + b != a + " " + b
    ensures FormOf(p, PasswordField + "=" + (a + "+" + b), false) == Some(map[PasswordField := a + "+" + b])
    ensures FormOf(p, PasswordField + "=" + (a + "+" + b), true) == Some(map[PasswordField := a + " " + b])
  {
    var raw := a + "+" + b;
    SpacedRaw(a, b);
    PasswordFieldPlain();
    PlusToSpaceNoPlus(PasswordField);
    SingleField(p, PasswordField, raw, false);
    SingleField(p, PasswordField, raw, true);
  }

  /** The `+`-joined halves need no further encoding, and reading the `+`
      as a space gives the password back. */
  lemma SpacedRaw(a: string, b: string)
    requires forall i :: 0 <= i < |a| ==> IsUnreserved(a[i])
    requires forall i :: 0 <= i < |b| ==> IsUnreserved(b[i])
    ensures var raw := a + "+" + b;
      && '=' !in raw && '&' !in raw && '%' !in raw
      && PlusToSpace(raw) == a + " " + b
      && '%' !in a + " " + b
      && raw != a + " " + b
  {
    var raw := a + "+" + b;
    var pw := a + " " + b;
    assert forall i :: 0 <= i < |raw| ==> raw[i] == '+' || IsUnreserved(raw[i]);
    assert forall i :: 0 <= i < |pw| ==> pw[i] == ' ' || IsUnreserved(pw[i]);
    assert raw[|a|] != pw[|a|];
  }
}
