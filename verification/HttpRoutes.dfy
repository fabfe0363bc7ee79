/**
Which response each request gets (src/http/http_conn.cpp:237-376), as its reader sees it: status line, fields and body,
route by route, and what is too long for its buffers.
 */
module HttpRoutes {
  import opened Strings
  import opened HttpText
  import opened HttpMemory
  import opened HttpWriters
  import opened HttpResponses
  import Jwt

  /** The response is one message with this status, this type and this body. */
  ghost predicate Says(w: World, r: Request, status: string, kind: string, body: string) {
    && Sends(Respond(w, r))
    && MessageOf(Respond(w, r), r.keepAlive) ==
       Message("HTTP/1.1 " + status,
               [if r.keepAlive then "Connection: keep-alive" else "Connection: close",
                "Content-Type: " + kind, "Content-Length: " + Dec(|body|)],
               body)
  }

  /** A text, as far as its first NUL, when it fits a buffer of `room` and the write buffer takes it with its header. */
  ghost predicate SaysText(w: World, r: Request, status: string, kind: string, text: string, room: nat) {
    var body := CStr(text, 0);
    if |body| < room && |Head(status, r.keepAlive, kind, |body|)| + |body| < 1024 then Says(w, r, status, kind, body)
    else Respond(w, r) == Overflow
  }

  lemma MessageSays(w: World, r: Request, status: string, kind: string, body: string)
    requires var reply := Respond(w, r);
             Sends(reply) && StatusOf(reply) == status && TypeOf(reply) == kind && BodyOf(reply) == body
    ensures Says(w, r, status, kind, body)
  {
    hide Respond, Dec;
    assert "Connection: " + "keep-alive" == "Connection: keep-alive";
    assert "Connection: " + "close" == "Connection: close";
    var lines := HeadLines(status, r.keepAlive, kind, |body|);
    assert lines[1..] == [lines[1], lines[2], lines[3]];
  }

  lemma BufferedSays(w: World, r: Request, status: string, kind: string, text: string, room: nat)
    requires Chosen(w, r) == if room <= |CStr(text, 0)| then Overflow else Buffered(status, kind, CStr(text, 0))
    ensures SaysText(w, r, status, kind, text, room)
  {
    hide Chosen, CStr, Head, Says;
    var body := CStr(text, 0);
    RespondIs(w, r);
    if Sends(Respond(w, r)) {
      MessageSays(w, r, status, kind, body);
    }
  }

  lemma RespondIs(w: World, r: Request)
    ensures var c := Chosen(w, r);
            && (c.Buffered? ==>
                  Respond(w, r) == if |Head(c.status, r.keepAlive, c.contentType, |c.text|)| + |c.text| < 1024 then c
                                   else Overflow)
            && (c.FromFile? ==>
                  var n := |Head("200 OK", r.keepAlive, c.contentType, |c.content|)|;
                  Respond(w, r) == if n < 1024 && n + |c.content| <= INT_MAX then c else Overflow)
            && (c == Silent || c == Overflow ==> Respond(w, r) == c)
  {
    hide Chosen, Head;
  }

  /** `get_content_type`, by what stands behind the last dot of the path. */
  lemma ContentTypeMeans(front: string, ext: string)
    requires '.' !in ext
    ensures ContentType(front + "." + ext) ==
            match ext
            case "html" => "text/html"
            case "css" => "text/css"
            case "js" => "application/javascript"
            case "jpg" => "image/jpeg"
            case "png" => "image/png"
            case "ico" => "image/x-icon"
            case _ => "text/plain"
  {
    hide RFindChar;
    LastCharIs(front, '.', ext);
    var path := front + ['.'] + ext;
    assert path == front + "." + ext;
    assert path[|front|..] == "." + ext;
    assert ("." + ext)[1..] == ext;
  }

  /** A request for /api/hello is greeted if and only if its token vouches for a user; otherwise it is refused. */
  lemma HelloAnswers(w: World, r: Request, user: string)
    requires r.url == "/api/hello"
    ensures r.token == None ==>
              SaysText(w, r, "401 Unauthorized", "application/json; charset=utf-8", w.noToken, 512)
    ensures r.token.Some? && Jwt.Vouches(w.mac, r.token.value, user) ==>
              SaysText(w, r, "200 OK", "application/json; charset=utf-8", w.hello(user), 512)
    ensures r.token.Some? && (forall u :: !Jwt.Vouches(w.mac, r.token.value, u)) ==>
              SaysText(w, r, "401 Unauthorized", "application/json; charset=utf-8", w.badToken, 512)
  {
    hide SaysText, CStr, Jwt.Verify, Jwt.Vouches;
    match r.token
    case None =>
      BufferedSays(w, r, "401 Unauthorized", JSON, w.noToken, 512);
    case Some(token) =>
      Jwt.VerifyAccepts(w.mac, token, user);
      match Jwt.Verify(w.mac, token)
      case None =>
        BufferedSays(w, r, "401 Unauthorized", JSON, w.badToken, 512);
      case Some(u) =>
        Jwt.VerifyAccepts(w.mac, token, u);
        BufferedSays(w, r, "200 OK", JSON, w.hello(u), 512);
  }

  /** So the status line alone tells the two apart. */
  lemma GreetedIffVouched(w: World, r: Request)
    requires r.url == "/api/hello" && Sends(Respond(w, r))
    ensures MessageOf(Respond(w, r), r.keepAlive).status == "HTTP/1.1 200 OK" <==>
              r.token.Some? && exists user :: Jwt.Vouches(w.mac, r.token.value, user)
    ensures MessageOf(Respond(w, r), r.keepAlive).status in {"HTTP/1.1 200 OK", "HTTP/1.1 401 Unauthorized"}
  {
    hide Respond, MessageOf, CStr, Jwt.Vouches, Dec, Head;
    StatusesDiffer();
    if r.token.Some? && exists user :: Jwt.Vouches(w.mac, r.token.value, user) {
      var user :| Jwt.Vouches(w.mac, r.token.value, user);
      HelloAnswers(w, r, user);
    } else {
      HelloAnswers(w, r, "");
    }
  }

  lemma StatusesDiffer()
    ensures "HTTP/1.1 " + "200 OK" == "HTTP/1.1 200 OK"
    ensures "HTTP/1.1 " + "401 Unauthorized" == "HTTP/1.1 401 Unauthorized" != "HTTP/1.1 200 OK"
  {}

  /** A login by form: the check decides between the two texts, the status is 200 either way. */
  lemma LoginAnswers(w: World, r: Request, name: string, pwd: string)
    requires r.isPost && r.url == "/login" && name != "" && '&' !in name && forall c | c in pwd :: !IsSpace(c)
    requires r.post == Some("user=" + name + "&password=" + pwd)
    ensures if 50 <= |name| || 50 <= |pwd| then Respond(w, r) == Overflow
            else SaysText(w, r, "200 OK", "application/json; charset=utf-8",
                          if w.login(name, pwd) then w.welcome(name, Jwt.Generate(w.mac, name)) else w.loginFailed,
                          1024)
  {
    hide SaysText, CStr, Credentials, Jwt.Generate;
    CredentialsMeans(name, pwd);
    if 50 <= |name| || 50 <= |pwd| {
      RespondIs(w, r);
    } else {
      var text := if w.login(name, pwd) then w.welcome(name, Jwt.Generate(w.mac, name)) else w.loginFailed;
      BufferedSays(w, r, "200 OK", JSON, text, 1024);
    }
  }

  /** A login without a body is checked with an empty name and an empty password. */
  lemma EmptyLogin(w: World, r: Request)
    requires r.isPost && r.url == "/login" && r.post == None
    ensures SaysText(w, r, "200 OK", "application/json; charset=utf-8",
                     if w.login("", "") then w.welcome("", Jwt.Generate(w.mac, "")) else w.loginFailed, 1024)
  {
    hide SaysText, CStr, Jwt.Generate;
    var text := if w.login("", "") then w.welcome("", Jwt.Generate(w.mac, "")) else w.loginFailed;
    BufferedSays(w, r, "200 OK", JSON, text, 1024);
  }

  /** Not an API route. */
  predicate IsFileRoute(r: Request) {
    !(r.isPost && r.url == "/login") && r.url != "/api/hello"
  }

  /** Any other path is looked up below ./resources: not there, not readable, or the file with the type of its name. */
  lemma FileAnswers(w: World, r: Request)
    requires IsFileRoute(r)
    ensures var path := "./resources" + r.url;
            if 256 <= |path| then Respond(w, r) == Overflow
            else
              match w.lookup(path)
              case Missing => SaysText(w, r, "404 Not Found", "text/html; charset=utf-8", w.notFound, 1024)
              case Unreadable => Respond(w, r) == Silent
              case File(content) =>
                var n := |Head("200 OK", r.keepAlive, ContentType(path), |content|)|;
                if n < 1024 && n + |content| <= INT_MAX then Says(w, r, "200 OK", ContentType(path), content)
                else Respond(w, r) == Overflow
  {
    hide CStr, ContentType, Head, Says;
    var path := "./resources" + r.url;
    RespondIs(w, r);
    if |path| < 256 {
      match w.lookup(path)
      case Missing => NotFoundSays(w, r);
      case Unreadable =>
      case File(content) =>
        if Sends(Respond(w, r)) {
          MessageSays(w, r, "200 OK", ContentType(path), content);
        }
    }
  }

  lemma NotFoundSays(w: World, r: Request)
    requires Chosen(w, r) == Buffered("404 Not Found", HTML, CStr(w.notFound, 0))
    ensures SaysText(w, r, "404 Not Found", "text/html; charset=utf-8", w.notFound, 1024)
  {
    hide Chosen, CStr, Head, Says;
    RespondIs(w, r);
    if Sends(Respond(w, r)) {
      MessageSays(w, r, "404 Not Found", HTML, CStr(w.notFound, 0));
    }
  }
}
