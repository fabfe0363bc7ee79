/** From the bytes of a request to the bytes of its response: the parser, the branches and the sender put together. */
module EndToEnd {
  import opened Strings
  import opened HttpText
  import opened HttpMemory
  import opened HttpParser
  import opened HttpPass
  import opened HttpHeaders
  import opened HttpStream
  import opened HttpCalls
  import opened HttpBodies
  import opened HttpStale
  import opened HttpWriters
  import opened HttpResponses
  import opened HttpReplies
  import opened HttpRoutes
  import Jwt

  /** The same event without its bearer text. */
  function Tokenless(e: Event): Event {
    match e
    case Line(_, _) => e
    case Dispatch(r) => Dispatch(r.(token := None))
  }

  /**
  On any connection between two requests, one call hands on exactly the requests its bytes hold, bodies included: all
  but their tokens in any case, and these too when no earlier call has left one.
   */
  lemma HandsOn(c: Conn, p: string, room: nat, t: Parser, data: string)
    requires Stands(c, p, room, t) && |data| <= room && 0 < |c.mem| && t.state == REQUESTLINE
    requires Sound(t, p + data, 0, room - |data|) && Forward(t, p + data)
    ensures c.readIdx + |data| <= |c.mem| && Pass(t, p + data, 0, room - |data|).Some? && Call(c, data).Some?
    ensures var got, said := Call(c, data).value.1, Pass(t, p + data, 0, room - |data|).value.events;
            Map(Tokenless, got) == Map(Tokenless, said) && (c.regs.token == Null ==> got == said)
  {
    hide *;
    PassSound(t, p + data, 0, room - |data|);
    CallExact(c, p, room, t, data);
    StandsMeans(c, p, room, t);
    var got, said := Call(c, data).value.1, Pass(t, p + data, 0, room - |data|).value.events;
    forall k | 0 <= k < |said|
      ensures Tokenless(got[k]) == Tokenless(said[k]) && (c.regs.token == Null ==> got[k] == said[k])
    {
      SameKind(got, said, k);
      if c.regs.token == Null { NullTracks(c.mem, c.regs, t); }
      SameButToken(got[k], said[k]);
    }
  }

  lemma NullTracks(mem: string, regs: Regs, t: Parser)
    requires Sim(regs, t) && regs.token == Null
    ensures Tracks(mem, 0, regs.token, t.token)
  {}

  lemma SameButToken(x: Event, y: Event)
    requires Mask(x) == Mask(y) && (y.Dispatch? ==> x.Dispatch? && x.request.url == y.request.url)
    ensures Tokenless(x) == Tokenless(y)
    ensures y.Dispatch? && x.request.token == y.request.token ==> x == y
    ensures !y.Dispatch? ==> x == y
  {}

  lemma {:induction false} SameRequests(x: seq<Event>, y: seq<Event>)
    requires Map(Tokenless, x) == Map(Tokenless, y)
    ensures |Requests(x)| == |Requests(y)|
    ensures forall i | 0 <= i < |Requests(y)| :: Requests(x)[i].(token := None) == Requests(y)[i].(token := None)
    decreases |x|
  {
    if x != [] {
      assert Map(Tokenless, x)[0] == Map(Tokenless, y)[0];
      forall i | 0 <= i < |x[1..]| ensures Map(Tokenless, x[1..])[i] == Map(Tokenless, y[1..])[i] {
        assert Map(Tokenless, x)[i + 1] == Map(Tokenless, y)[i + 1];
      }
      SameRequests(x[1..], y[1..]);
    }
  }

  // ---------------------------------------------------------------- the last request of a call

  /** Lines that are no more than an unfinished request hand nothing on. */
  lemma UnfinishedHandsNothingOn(t: Parser, lines: seq<string>)
    requires t.state == REQUESTLINE && (lines == [] || "" !in lines[1..])
    ensures Requests(Events(t, lines)) == []
  {
    hide *;
    if lines == [] {
      LinesNil(t);
      NoRequests();
    } else {
      assert lines == [lines[0]] + lines[1..];
      LinesCons(t, lines[0], lines[1..]);
      RequestLineGives(t, lines[0]);
      HeadersSayNothing(AfterLine(t, lines[0]), lines[1..]);
      RequestsAppend(LineEvents(t, lines[0], None), Events(AfterLine(t, lines[0]), lines[1..]));
    }
  }

  /** A request among others: the last one handed on, when only an unfinished one follows it. */
  lemma LastRequest(t: Parser, before: seq<string>, line: string, headers: seq<string>, after: seq<string>)
    requires var lines := before + ([line] + (headers + ([""] + after))); Orderly(t, lines)
    requires AfterLines(t, before).state == REQUESTLINE && FirstBlank(line) < |line| && "" !in headers
    requires after == [] || "" !in after[1..]
    ensures var r := Requests(Events(t, before + ([line] + (headers + ([""] + after)))));
            r != [] && r[|r| - 1].url == Path(line)
  {
    hide *;
    var t0 := AfterLines(t, before);
    var t1 := AfterLine(t0, line);
    var t2 := AfterLines(t1, headers);
    RunAppend(t, before, [line] + (headers + ([""] + after)));
    LinesCons(t0, line, headers + ([""] + after));
    RunAppend(t1, headers, [""] + after);
    LinesCons(t2, "", after);
    RequestLineGives(t0, line);
    HeadersSayNothing(t1, headers);
    HeadersSet(t1, headers);
    BlankLineCloses(t2);
    UnfinishedHandsNothingOn(AfterLine(t2, ""), after);
    RequestsAppend(Events(t, before), Events(t0, [line] + (headers + ([""] + after))));
    RequestsAppend(LineEvents(t0, line, None), Events(t1, headers + ([""] + after)));
    RequestsAppend(Events(t1, headers), Events(t2, [""] + after));
    RequestsAppend(LineEvents(t2, "", None), Events(AfterLine(t2, ""), after));
    LastOfSum(Requests(Events(t, before)), Requests(LineEvents(t2, "", None)));
  }

  lemma LastOfSum(x: seq<Request>, y: seq<Request>)
    requires |y| == 1
    ensures x + ([] + ([] + (y + []))) == x + y && (x + y)[|x + y| - 1] == y[0] && x + y != []
  {}

  /** The path is no API route, and the file it leads to can be read. */
  predicate AsksFor(w: World, path: string, content: string) {
    path != "/login" && path != "/api/hello" && w.lookup("./resources" + path) == File(content)
  }

  /** The reply to a file that can be read. */
  lemma RespondsWithFile(w: World, r: Request, content: string)
    requires AsksFor(w, r.url, content)
    requires Respond(w, r) != Overflow
    ensures Respond(w, r) == FromFile(ContentType("./resources" + r.url), content) && Sends(Respond(w, r))
    ensures BodyOf(Respond(w, r)) == content
  {
    hide ContentType, HeadFor;
  }

  /** The peer gets one message, whose body is `body`; see `Gets`. */
  ghost predicate GetsBody(w: World, r: Request, b: Sender, scripts: seq<seq<Answer>>, before: string, later: string,
                           body: string) {
    Gets(w, r, b, scripts, before, later) && Sends(Respond(w, r)) && MessageOf(Respond(w, r), r.keepAlive).body == body
  }

  /** The last request decides: when its reply sends, the peer gets that, and nothing of the replies before it. */
  lemma LastDecides(w: World, s: Sender, requests: seq<Request>, keepAlive: bool, scripts: seq<seq<Answer>>,
                    later: string)
    requires s.toSend == 0 && requests != [] && AllFit(w, requests) && Sends(Respond(w, requests[|requests| - 1]))
    ensures var r := requests[|requests| - 1];
            GetsBody(w, r, Answered(w, s, requests).(keepAlive := keepAlive), scripts, s.wire, later,
                     BodyOf(Respond(w, r)))
  {
    hide *;
    var n := |requests| - 1;
    assert requests == requests[..n] + [requests[n]] + [];
    LastReplyArrives(w, s, requests[..n], requests[n], [], keepAlive);
    GetsBodyIs(w, requests[n], Answered(w, s, requests).(keepAlive := keepAlive), scripts, s.wire, later);
  }

  lemma GetsBodyIs(w: World, r: Request, b: Sender, scripts: seq<seq<Answer>>, before: string, later: string)
    requires Gets(w, r, b, scripts, before, later) && Sends(Respond(w, r))
    ensures GetsBody(w, r, b, scripts, before, later, BodyOf(Respond(w, r)))
  {
    hide Gets, Respond, BodyOf;
  }

  /**
  A file, from bytes to bytes, on any connection between two requests and for any bytes, bodies included: when the last
  request they hold asks for a file, the peer reads one message off the stream, and its body is what the file holds.
   */
  lemma ServesFile(c: Conn, p: string, room: nat, t: Parser, data: string, w: World, content: string, s: Sender,
                   scripts: seq<seq<Answer>>, later: string)
    requires Stands(c, p, room, t) && |data| <= room && 0 < |c.mem| && t.state == REQUESTLINE
    requires Pass(t, p + data, 0, room - |data|).Some? && Forward(t, p + data)
    requires var said := Requests(Pass(t, p + data, 0, room - |data|).value.events);
             said != [] && AsksFor(w, said[|said| - 1].url, content)
    requires Call(c, data).Some? && AllFit(w, Requests(Call(c, data).value.1)) && s.toSend == 0
    ensures var (d, events) := Call(c, data).value;
            && Requests(events) != []
            && var r, said := Requests(events)[|Requests(events)| - 1],
                              Requests(Pass(t, p + data, 0, room - |data|).value.events);
               && r.url == said[|said| - 1].url
               && GetsBody(w, r, Answered(w, s, Requests(events)).(keepAlive := d.regs.keepAlive), scripts, s.wire,
                           later, content)
  {
    hide *;
    PassSound(t, p + data, 0, room - |data|);
    HandsOn(c, p, room, t, data);
    var (d, events) := Call(c, data).value;
    var said := Pass(t, p + data, 0, room - |data|).value.events;
    SameRequests(events, said);
    var requests := Requests(events);
    var r := requests[|requests| - 1];
    assert r.(token := None) == Requests(said)[|requests| - 1].(token := None);
    assert r in requests;
    FitsEach(w, requests, r);
    RespondsWithFile(w, r, content);
    LastDecides(w, s, requests, d.regs.keepAlive, scripts, later);
  }

  /** The same from the lines of a stream without bodies: the last complete request is the one whose line is `line`. */
  lemma ServesLine(c: Conn, p: string, room: nat, t: Parser, data: string, before: seq<string>, line: string,
                   headers: seq<string>, after: seq<string>, w: World, content: string, s: Sender,
                   scripts: seq<seq<Answer>>, later: string)
    requires Stands(c, p, room, t) && |data| < room && t.state == REQUESTLINE
    requires NUL !in p + data && Orderly(t, Lines(p + data))
    requires Lines(p + data) == before + ([line] + (headers + ([""] + after)))
    requires AfterLines(t, before).state == REQUESTLINE && FirstBlank(line) < |line| && "" !in headers
    requires after == [] || "" !in after[1..]
    requires AsksFor(w, Path(line), content)
    requires Call(c, data).Some? ==> AllFit(w, Requests(Call(c, data).value.1))
    requires s.toSend == 0
    ensures c.readIdx + |data| <= |c.mem| && Call(c, data).Some?
    ensures var (d, events) := Call(c, data).value;
            && Requests(events) != [] && AllFit(w, Requests(events))
            && var r := Requests(events)[|Requests(events)| - 1];
               && r.url == Path(line)
               && GetsBody(w, r, Answered(w, s, Requests(events)).(keepAlive := d.regs.keepAlive), scripts, s.wire,
                           later, content)
  {
    hide *;
    StandsMeans(c, p, room, t);
    PassLines(t, p + data, 0, room - |data|);
    PassSound(t, p + data, 0, room - |data|);
    CallSucceeds(c, p, room, t, data);
    LastRequest(t, before, line, headers, after);
    ServesFile(c, p, room, t, data, w, content, s, scripts, later);
  }

  lemma FitsEach(w: World, requests: seq<Request>, r: Request)
    requires AllFit(w, requests) && r in requests
    ensures Respond(w, r) != Overflow
  {}

  // ---------------------------------------------------------------- a login

  /** A pass over complete header lines. */
  lemma {:induction false} PassHeaders(t: Parser, headers: seq<string>, more: string, before: nat, room: nat)
    requires t.state == HEADER && forall l | l in headers :: l != "" && NUL !in l && HasNoCrlf(l)
    ensures Pass(t, Unlines(headers) + more, before, room) ==
            Then(Events(t, headers), Pass(AfterLines(t, headers), more, before + |Unlines(headers)|, room))
    ensures Forward(t, Unlines(headers) + more) <==> Forward(AfterLines(t, headers), more)
    ensures "" !in headers && AfterLines(t, headers).state == HEADER
    decreases |headers|
  {
    hide *;
    if headers == [] {
      LinesNil(t);
      NoHeaders(more);
      ThenNothing(Pass(t, more, before, room));
    } else {
      var line, later := headers[0], headers[1..];
      assert headers == [line] + later && line in headers && forall l | l in later :: l in headers;
      var u, rest := Unlines(headers) + more, Unlines(later) + more;
      UnlinesFirst(line, later, more);
      LineSplits(line, rest);
      ClosesMeans(t, line);
      StillHeader(t, line);
      OtherLine(t, line, rest, before + |line| + 2, |rest| + room);
      PassFirst(t, u, |line|, line, rest, before, room);
      PassHeaders(AfterLine(t, line), later, more, before + |line| + 2, room);
      LinesCons(t, line, later);
      UnlinesSize(line, later);
      ThenThen(LineEvents(t, line, None), Events(AfterLine(t, line), later),
               Pass(AfterLines(t, headers), more, before + |Unlines(headers)|, room));
    }
  }

  lemma NoHeaders(more: string)
    ensures Unlines([]) + more == more && |Unlines([])| == 0
  {}

  lemma UnlinesSize(line: string, later: seq<string>)
    ensures |Unlines([line] + later)| == |line| + 2 + |Unlines(later)|
  {
    assert ([line] + later)[1..] == later;
  }

  lemma ThenNothing(r: Option<Passed>)
    ensures Then([], r) == r
  {
    if r.Some? {
      assert [] + r.value.events == r.value.events;
    }
  }

  lemma ThenThen(x: seq<Event>, y: seq<Event>, r: Option<Passed>)
    ensures Then(x, Then(y, r)) == Then(x + y, r)
  {
    if r.Some? {
      assert x + (y + r.value.events) == x + y + r.value.events;
    }
  }

  lemma LineSplits(line: string, rest: string)
    requires NUL !in line && HasNoCrlf(line)
    ensures Splits(line + "\r\n" + rest, |line|, line, rest)
  {
    FirstCrlf(line, rest);
    FindLineTo(line + "\r\n" + rest, |line|, 0);
  }

  lemma {:induction false} FindLineTo(u: string, m: nat, from: nat)
    requires from <= m && CrlfAt(u, m) && (forall j | from <= j < m :: u[j] != NUL && !CrlfAt(u, j))
    ensures FindLine(u, from) == Some(m)
    decreases m - from
  {
    if from < m {
      FindLineTo(u, m, from + 1);
    }
  }

  /** What one call makes of a whole request with its body and nothing behind it. */
  lemma PassRequest(line: string, headers: seq<string>, body: string, room: nat)
    requires NUL !in line && HasNoCrlf(line) && FirstBlank(line) < |line|
    requires forall l | l in headers :: l != "" && NUL !in l && HasNoCrlf(l)
    requires NUL !in body && Plain(body) && body != "" && room > 0
    requires AfterLines(AfterLine(START, line), headers).contentLength == |body|
    ensures var u := line + "\r\n" + (Unlines(headers) + ("\r\n" + body));
            var t := AfterLines(AfterLine(START, line), headers);
            && Forward(START, u) && Pass(START, u, 0, room).Some?
            && Pass(START, u, 0, room).value.parser == AfterLine(t, "")
            && Requests(Pass(START, u, 0, room).value.events) ==
               [Request(Path(line), HasPrefix(line, "POST"), t.token, t.keepAlive, Some(body))]
  {
    hide *;
    var tail := "\r\n" + body;
    var u, t1 := line + "\r\n" + (Unlines(headers) + tail), AfterLine(START, line);
    var t, next := AfterLines(t1, headers), |line| + 2 + |Unlines(headers)|;
    StartState();
    RequestLineGives(START, line);
    LineSplits(line, Unlines(headers) + tail);
    ClosesMeans(START, line);
    OtherLine(START, line, Unlines(headers) + tail, |line| + 2, |Unlines(headers) + tail| + room);
    PassFirst(START, u, |line|, line, Unlines(headers) + tail, 0, room);
    PassHeaders(t1, headers, tail, |line| + 2, room);
    HeadersSayNothing(t1, headers);
    HeadersSet(t1, headers);
    BlankFirst(tail, body);
    ClosesMeans(t, "");
    BehindBlank(t, body);
    ShortBody(body, |body|);
    PostIs(t, body, "");
    assert body + "" == body;
    EndInside(t, next + 2, |body| + room, |body|);
    PassFirst(t, tail, 0, "", body, next, room);
    NoLineIn(body);
    PassEnds(AfterLine(t, ""), body, next + 2, room);
    CloseEvents(t, Some(body));
    var last := Pass(AfterLine(t, ""), body, next + 2, room);
    ThenIs(LineEvents(t, "", Some(body)), last);
    ThenIs(Events(t1, headers), Then(LineEvents(t, "", Some(body)), last));
    ThenIs(LineEvents(START, line, Post(START, Unlines(headers) + tail)),
           Then(Events(t1, headers), Then(LineEvents(t, "", Some(body)), last)));
    NoRequests();
    RequestsAppend(LineEvents(t, "", Some(body)), []);
    RequestsAppend(Events(t1, headers), LineEvents(t, "", Some(body)) + []);
    RequestsAppend(LineEvents(START, line, Post(START, Unlines(headers) + tail)),
                   Events(t1, headers) + (LineEvents(t, "", Some(body)) + []));
    StartIsPlain(line);
  }

  lemma EndInside(t: Parser, next: nat, behind: nat, n: nat)
    requires t.contentLength == n < behind && t.url.Some?
    ensures Allowed(t, "", next, behind)
  {}

  lemma NoLineIn(body: string)
    requires Plain(body)
    ensures FindLine(body, 0).None?
  {}

  lemma StartIsPlain(line: string)
    ensures !START.isPost && !START.keepAlive && START.contentLength == 0
  {}

  function Form(name: string, pwd: string): string {
    "user=" + name + "&password=" + pwd
  }

  /** What a login is told: a welcome with a token of its own, or that it failed. */
  function LoginText(w: World, name: string, pwd: string): string {
    CStr(if w.login(name, pwd) then w.welcome(name, Jwt.Generate(w.mac, name)) else w.loginFailed, 0)
  }

  lemma FormIsText(name: string, pwd: string)
    requires NUL !in name && NUL !in pwd && '\r' !in name && '\r' !in pwd
    ensures NUL !in Form(name, pwd) && Plain(Form(name, pwd)) && Form(name, pwd) != ""
  {}

  /** The reply to a login fits its buffers, whether the connection is kept or not. */
  ghost predicate LoginFits(w: World, name: string, pwd: string) {
    && |name| < 50 && |pwd| < 50
    && forall keep :: |Head("200 OK", keep, "application/json; charset=utf-8", |LoginText(w, name, pwd)|)| +
                      |LoginText(w, name, pwd)| < 1024
  }

  lemma LoginSays(w: World, r: Request, name: string, pwd: string)
    requires name != "" && '&' !in name && (forall c | c in pwd :: !IsSpace(c)) && LoginFits(w, name, pwd)
    requires r.isPost && r.url == "/login" && r.post == Some(Form(name, pwd))
    ensures Says(w, r, "200 OK", "application/json; charset=utf-8", LoginText(w, name, pwd))
    ensures Sends(Respond(w, r)) && BodyOf(Respond(w, r)) == LoginText(w, name, pwd)
  {
    hide CStr, Head, Respond, Jwt.Generate;
    LoginAnswers(w, r, name, pwd);
    assert LoginText(w, name, pwd) ==
           CStr(if w.login(name, pwd) then w.welcome(name, Jwt.Generate(w.mac, name)) else w.loginFailed, 0);
    assert |Head("200 OK", r.keepAlive, "application/json; charset=utf-8", |LoginText(w, name, pwd)|)| +
           |LoginText(w, name, pwd)| < 1024;
    SaysBody(w, r, "200 OK", "application/json; charset=utf-8", LoginText(w, name, pwd));
  }

  lemma SaysBody(w: World, r: Request, status: string, kind: string, body: string)
    requires Says(w, r, status, kind, body)
    ensures Sends(Respond(w, r)) && BodyOf(Respond(w, r)) == body
  {
    hide Respond, Dec;
  }

  /** The connection is kept after a request with these header lines. */
  ghost predicate Stays(headers: seq<string>) {
    exists l | l in headers :: AsksToStay(l)
  }

  /**
  A login, from bytes to bytes. Request line, headers and form in one call on a fresh connection, the last
  Content-Length line giving the length of the form: the check gets the name and the password of the form, the peer the
  text it decides for, under status 200, and the connection is kept, in the message and by `write`, if and only if a
  Connection line asks for it.
   */
  lemma Login(size: nat, line: string, before: seq<string>, field: string, gap: string, after: seq<string>,
              name: string, pwd: string, w: World, s: Sender, scripts: seq<seq<Answer>>, later: string)
    requires NUL !in line && HasNoCrlf(line) && HasPrefix(line, "POST") && FirstBlank(line) < |line| &&
             Path(line) == "/login"
    requires Spells(field, "Content-Length:") && AllBlank(gap) && HasNoLength(after)
    requires forall l | l in before + [field + gap + Dec(|Form(name, pwd)|)] + after ::
               l != "" && NUL !in l && HasNoCrlf(l)
    requires name != "" && '&' !in name && forall c | c in pwd :: !IsSpace(c)
    requires NUL !in name && NUL !in pwd && '\r' !in name && '\r' !in pwd && LoginFits(w, name, pwd)
    requires var headers := before + [field + gap + Dec(|Form(name, pwd)|)] + after;
             |line + "\r\n" + (Unlines(headers) + ("\r\n" + Form(name, pwd)))| < size <= INT_MAX && s.toSend == 0
    ensures var headers := before + [field + gap + Dec(|Form(name, pwd)|)] + after;
            var data := line + "\r\n" + (Unlines(headers) + ("\r\n" + Form(name, pwd)));
            && Fresh(size).readIdx + |data| <= |Fresh(size).mem| && Call(Fresh(size), data).Some?
            && var (c, events) := Call(Fresh(size), data).value;
               && |Requests(events)| == 1
               && var r := Requests(events)[0];
                  && r.url == "/login" && r.isPost && r.post == Some(Form(name, pwd)) && r.keepAlive == Stays(headers)
                  && AllFit(w, [r])
                  && var b := Answered(w, s, [r]).(keepAlive := c.regs.keepAlive);
                     && GetsBody(w, r, b, scripts, s.wire, later, LoginText(w, name, pwd))
                     && Says(w, r, "200 OK", "application/json; charset=utf-8", LoginText(w, name, pwd))
                     && (Writes(b, scripts).sender.toSend == 0 ==> Writes(b, scripts).ok == Stays(headers))
  {
    hide *;
    var body, headers := Form(name, pwd), before + [field + gap + Dec(|Form(name, pwd)|)] + after;
    var t1 := AfterLine(START, line);
    var t := AfterLines(t1, headers);
    var data := line + "\r\n" + (Unlines(headers) + ("\r\n" + body));
    assert "" !in headers;
    BodyShorter(line, headers, body);
    StartState();
    StartIsPlain(line);
    RequestLineGives(START, line);
    HeadersSet(t1, headers);
    LengthDeclared(t1, before, field, gap, |body|, after);
    StaysMeans(headers);
    FormIsText(name, pwd);
    PassRequest(line, headers, body, size - |data|);
    PassSound(START, data, 0, size - |data|);
    FreshStands(size);
    FreshHasNoToken(size);
    assert "" + data == data;
    HandsOn(Fresh(size), "", size, START, data);
    CallRefines(Fresh(size), "", size, START, data);
    GivesKeep(Call(Fresh(size), data), Pass(START, data, 0, size - |data|).value, size);
    BlankLineCloses(t);
    var r := Request("/login", true, t.token, t.keepAlive, Some(body));
    LoginSays(w, r, name, pwd);
    OneFits(w, r);
    LastDecides(w, s, [r], Call(Fresh(size), data).value.0.regs.keepAlive, scripts, later);
    GetsKeeps(w, r, Answered(w, s, [r]).(keepAlive := t.keepAlive), scripts, s.wire, later, LoginText(w, name, pwd));
  }

  lemma BodyShorter(line: string, headers: seq<string>, body: string)
    ensures |body| <= |line + "\r\n" + (Unlines(headers) + ("\r\n" + body))|
  {}

  lemma StaysMeans(headers: seq<string>)
    ensures Stays(headers) <==> exists l | l in headers :: AsksToStay(l)
  {}

  lemma GivesKeep(r: Option<(Conn, seq<Event>)>, x: Passed, size: nat)
    requires Gives(r, Some(x), size)
    ensures r.Some? && r.value.0.regs.keepAlive == x.parser.keepAlive
  {}

  lemma GetsKeeps(w: World, r: Request, b: Sender, scripts: seq<seq<Answer>>, before: string, later: string,
                  body: string)
    requires GetsBody(w, r, b, scripts, before, later, body)
    ensures Writes(b, scripts).sender.toSend == 0 ==> Writes(b, scripts).ok == b.keepAlive
  {
    hide Respond, Writes, ReadMessage, MessageOf;
  }

  lemma FreshHasNoToken(size: nat)
    ensures Fresh(size).regs.token == Null
  {}

  lemma OneFits(w: World, r: Request)
    requires Sends(Respond(w, r))
    ensures AllFit(w, [r])
  {}
}
