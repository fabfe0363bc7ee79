/** Inputs for which the server does less than it seems to: one for each condition that the general lemmas ask for. */
module HttpExamples {
  import opened Strings
  import opened HttpText
  import opened HttpMemory
  import opened HttpParser
  import opened HttpPass
  import opened HttpStream
  import opened HttpCalls
  import opened HttpReads
  import opened HttpBodies
  import opened HttpStale
  import opened HttpWriters
  import opened HttpResponses
  import opened HttpReplies
  import opened EndToEnd

  const GET_A := "GET /a H"

  lemma GetPath(line: string, path: string)
    requires line == "GET" + [' '] + (path + "" + " H") && NoBlank(path) && '?' !in path
    ensures FirstBlank(line) == 3 && RawPath(line) == path
  {
    hide FirstBlank, RawPath, Target;
    assert path + "" == path;
    TargetMeans(line, "GET", ' ', path, "", " H");
  }

  lemma GetAPath()
    ensures FirstBlank(GET_A) == 3 && RawPath(GET_A) == "/a"
  {
    hide FirstBlank, RawPath;
    GetPath(GET_A, "/a");
  }

  lemma GetAPlain()
    ensures |GET_A| == 8 && NUL !in GET_A && Plain(GET_A) && !HasPrefix(GET_A, "POST")
  {
    assert Lower(GET_A[0]) == 'g' && Lower("POST"[0]) == 'p';
  }

  lemma GetA()
    ensures |GET_A| == 8 && FirstBlank(GET_A) == 3 && RawPath(GET_A) == "/a" == Path(GET_A)
    ensures NUL !in GET_A && Plain(GET_A) && !HasPrefix(GET_A, "POST") && UrlPtr(GET_A, 0) == At(4)
  {
    hide FirstBlank, RawPath, HasPrefix, Plain;
    GetAPath();
    GetAPlain();
  }

  lemma AfterGetA(t: Parser)
    requires t.state == REQUESTLINE
    ensures !Closes(t, GET_A) && AfterLine(t, GET_A) == t.(state := HEADER, url := Some("/a"))
  {
    hide FirstBlank, RawPath, Path, HasPrefix, UrlPtr;
    GetA();
  }

  /** A line in front, as text and as a step of a pass. */
  lemma LineFirst(t: Parser, line: string, rest: string, before: nat, room: nat)
    requires NUL !in line && Plain(line) && !Closes(t, line)
    ensures var u, later := line + "\r\n" + rest, Pass(AfterLine(t, line), rest, before + |line| + 2, room);
            && Splits(u, |line|, line, rest)
            && Pass(t, u, before, room) == Then([Line(t.state, line)], later)
            && (Forward(t, u) <==> Forward(AfterLine(t, line), rest))
            && Closing(t, u) == match Closing(AfterLine(t, line), rest)
                                case None => None
                                case Some((t1, e)) => Some((t1, |line| + 2 + e))
  {
    hide *;
    PlainLine(line);
    LineSplits(line, rest);
    OtherLine(t, line, rest, before + |line| + 2, |rest| + room);
    PassFirst(t, line + "\r\n" + rest, |line|, line, rest, before, room);
    ClosingFirst(t, line + "\r\n" + rest, |line|, line, rest);
  }

  /** A blank line in front, for a request without a body or with a negative length. */
  lemma BlankIsFirst(t: Parser, rest: string, before: nat, room: nat)
    requires t.state == HEADER && t.url.Some? && t.contentLength <= 0 <= before + 2 + t.contentLength
    ensures var u, post := "\r\n" + rest, if t.contentLength == 0 then None else Some(UpToNul(rest));
            && Splits(u, 0, "", rest) && Closing(t, u) == Some((t, 2))
            && Pass(t, u, before, room) ==
               Then(LineEvents(t, "", post), Pass(AfterLine(t, ""), rest, before + 2, room))
            && (Forward(t, u) <==> t.contentLength == 0 && Forward(AfterLine(t, ""), rest))
  {
    hide FindLine, UpToNul, LineEvents, Pass, Forward;
    BlankFirst("\r\n" + rest, rest);
    PassFirst(t, "\r\n" + rest, 0, "", rest, before, room);
    ClosingFirst(t, "\r\n" + rest, 0, "", rest);
  }

  lemma ThenSome(events: seq<Event>, later: Option<Passed>)
    ensures Then(events, later).Some? <==> later.Some?
  {}

  lemma NothingBehind(t: Parser, before: nat, room: nat)
    requires room > 0
    ensures Pass(t, "", before, room) == Some(Passed([], t, "")) && Forward(t, "") && Closing(t, "") == None
  {}

  // ---------------------------------------------------------------- a negative length

  lemma Minus28()
    ensures ParseHeader("Content-Length:-28") == ContentLength(-28)
  {
    var t := "Content-Length:-28";
    assert t[15..] == "-28" && Blanks(t[15..]) == 0 && t[15..][1..] == "28" && "28"[1..] == "8" && "8"[1..] == "";
    assert Digits("28", 0) == 28;
  }

  /** A length of -28 puts its NUL on the first byte of the path, and the request is served for the empty one. */
  lemma NegativeLength(size: nat)
    requires size > 32
    ensures var data := GET_A + "\r\n" + ("Content-Length:-28" + "\r\n" + ("\r\n" + ""));
            && Path(GET_A) == "/a" && Fresh(size).readIdx + |data| <= |Fresh(size).mem|
            && Call(Fresh(size), data).Some?
            && var r := Requests(Call(Fresh(size), data).value.1); r != [] && r[0].url == ""
  {
    hide *;
    var h := "Content-Length:-28";
    var data, rest := GET_A + "\r\n" + (h + "\r\n" + ("\r\n" + "")), h + "\r\n" + ("\r\n" + "");
    GetA();
    StartState();
    AfterGetA(START);
    var t1 := AfterLine(START, GET_A);
    SetsLength(t1, h, -28);
    var t2 := AfterLine(t1, h);
    LineFirst(START, GET_A, rest, 0, size - 32);
    LineFirst(t1, h, "\r\n" + "", 10, size - 32);
    BlankIsFirst(t2, "", 30, size - 32);
    NothingBehind(AfterLine(t2, ""), 32, size - 32);
    ThenSome([Line(t1.state, h)], Pass(t2, "\r\n" + "", 30, size - 32));
    ThenSome([Line(START.state, GET_A)], Pass(t1, rest, 10, size - 32));
    ThenSome(LineEvents(t2, "", Some(UpToNul(""))), Pass(AfterLine(t2, ""), "", 32, size - 32));
    PassSound(START, data, 0, size - 32);
    FreshStands(size);
    StandsMeans(Fresh(size), "", size, START);
    assert "" + data == data;
    UrlOfOneCall(Fresh(size), "", size, START, data, 8, GET_A, rest);
    EmptyClip();
  }

  lemma SetsLength(t: Parser, h: string, n: int)
    requires t.state == HEADER && h == "Content-Length:-28" && n == -28
    ensures !Closes(t, h) && AfterLine(t, h) == t.(contentLength := n) && NUL !in h && Plain(h)
  {
    hide ParseHeader;
    Minus28();
  }

  lemma EmptyClip()
    ensures Clip(At(4), -28, 4, "/a") == ""
  {}

  // ---------------------------------------------------------------- the blank line in a later call

  lemma HostLine(t: Parser)
    requires t.state == HEADER
    ensures NUL !in "Host: x" && Plain("Host: x") && !Closes(t, "Host: x") && AfterLine(t, "Host: x") == t
    ensures "Host: x"[4..] == ": x"
  {
    assert Lower("Host: x"[0]) == 'h';
  }

  /** The request line in one call, a Host line and the blank one in the next: served for ": x". */
  lemma StalePath(size: nat)
    requires size > 11
    ensures var early, data := GET_A + "\r\n" + "", "Host: x" + "\r\n" + ("\r\n" + "");
            && Path(GET_A) == "/a" && Calls(Fresh(size), [early]).Some?
            && var c := Calls(Fresh(size), [early]).value.0;
               && c.readIdx + |data| <= |c.mem| && Call(c, data).Some?
               && var r := Requests(Call(c, data).value.1); r != [] && r[0].url == ": x"
  {
    hide *;
    var early, data := GET_A + "\r\n" + "", "Host: x" + "\r\n" + ("\r\n" + "");
    GetA();
    StartState();
    AfterGetA(START);
    NoNulHere(GET_A);
    OneChunk(early, size);
    OneLineText(GET_A);
    LinesCons(START, GET_A, []);
    var t := AfterLine(START, GET_A);
    LinesNil(t);
    assert [GET_A] + [] == [GET_A];
    HostLine(t);
    LineFirst(t, "Host: x", "\r\n" + "", 0, size - 11);
    StartLength();
    BlankIsFirst(t, "", 9, size - 11);
    NothingBehind(AfterLine(t, ""), 11, size - 11);
    ThenSome([Line(t.state, "Host: x")], Pass(t, "\r\n" + "", 9, size - 11));
    ThenSome(LineEvents(t, "", None), Pass(AfterLine(t, ""), "", 11, size - 11));
    PassSound(t, data, 0, size - 11);
    assert "" + data == data;
    StaleUrl(size, [early], GET_A, [], data);
    InsteadIs(GET_A, data, t);
    HeldHere(data, 7, "Host: x", "\r\n" + "", 4);
    NoClip(At(4), 11, ": x");
  }

  lemma OneChunk(s: string, size: nat)
    requires NUL !in s && |s| < size
    ensures Concat([s]) == s && Fit(size, "", [s])
  {
    assert [s][1..] == [];
    assert s + Concat([]) == s;
  }

  lemma OneLineText(line: string)
    requires NUL !in line && Plain(line)
    ensures Lines(line + "\r\n" + "") == [line] && Rest(line + "\r\n" + "") == "" && NUL !in line + "\r\n" + ""
  {
    hide *;
    PlainLine(line);
    LineSplits(line, "");
    NoNulHere(line);
    LinesFirst(line + "\r\n" + "", |line|, line, "");
    NoLineYet();
    NoneLeft();
  }

  lemma NoNulHere(line: string)
    requires NUL !in line
    ensures NUL !in line + "\r\n" + ""
  {}

  lemma NoneLeft()
    ensures Lines("") == [] && Rest("") == ""
  {}

  lemma StartLength()
    ensures START.contentLength == 0
  {}

  // ---------------------------------------------------------------- a token from an earlier call

  const AUTHORIZATION := "Authorization: Bearer t"
  const GET_HELLO := "GET /api/hello H"

  lemma TokenLine(t: Parser, at: nat, q: Ptrs)
    requires t.state == HEADER
    ensures |AUTHORIZATION| == 23 && NUL !in AUTHORIZATION && Plain(AUTHORIZATION) && !Closes(t, AUTHORIZATION)
    ensures AfterLine(t, AUTHORIZATION) == t.(token := Some("t"))
    ensures Set(t, AUTHORIZATION, at, q) == q.(token := At(at + 22))
  {
    hide ParseHeader;
    Bearer22();
  }

  lemma SpellsItself(p: string)
    ensures Spells(p, p)
  {}

  lemma Bearer22()
    ensures ParseHeader(AUTHORIZATION) == Bearer(22) && AUTHORIZATION[22..] == "t"
  {
    hide ParseHeader, Spells, HasPrefix;
    SpellsItself("Authorization:");
    SpellsItself("Bearer ");
    assert AUTHORIZATION == "Authorization:" + " " + ("Bearer " + "t");
    BearerMeans("Authorization:", " ", "Bearer ", "t");
  }

  lemma HelloPath()
    ensures FirstBlank(GET_HELLO) == 3 && RawPath(GET_HELLO) == "/api/hello"
  {
    hide FirstBlank, RawPath;
    GetPath(GET_HELLO, "/api/hello");
  }

  lemma HelloLine(t: Parser)
    requires t.state == REQUESTLINE
    ensures |GET_HELLO| == 16 && NUL !in GET_HELLO && Plain(GET_HELLO) && !Closes(t, GET_HELLO)
    ensures var p := AfterLine(t, GET_HELLO); p.state == HEADER && p.url == Some("/api/hello") && p.token == t.token
    ensures AfterLine(t, GET_HELLO).contentLength == t.contentLength
  {
    hide FirstBlank, RawPath, HasPrefix;
    HelloPath();
  }

  /** A step of the pointers over a line that closes nothing. */
  lemma PtrsLine(t: Parser, line: string, rest: string, at: nat, q: Ptrs, k: nat, before: nat, room: nat)
    requires NUL !in line && Plain(line) && !Closes(t, line) && k > 0
    ensures PtrsAt(t, at, line + "\r\n" + rest, q, k) ==
            PtrsAt(AfterLine(t, line), at + |line| + 2, rest, Set(t, line, at, q), k - 1)
  {
    hide *;
    LineFirst(t, line, rest, before, room);
    PtrsFirst(t, at, line + "\r\n" + rest, q, k, |line|, line, rest);
    OtherLine(t, line, rest, before, room);
  }

  lemma GivesMeans(r: Option<(Conn, seq<Event>)>, x: Passed, size: nat)
    requires Gives(r, Some(x), size)
    ensures r.Some? && |r.value.0.mem| == size && |x.rest| <= size
    ensures Stands(r.value.0, x.rest, size - |x.rest|, x.parser)
  {}

  /** Request line and token arrive; the token pointer leads 32 bytes into the buffer. */
  lemma TokenArrives(size: nat, t: Parser)
    requires size > 35 && t == AfterLine(AfterLine(START, GET_A), AUTHORIZATION)
    ensures var data := GET_A + "\r\n" + (AUTHORIZATION + "\r\n" + "");
            && Fresh(size).readIdx + |data| <= |Fresh(size).mem| && Call(Fresh(size), data).Some?
            && var c := Call(Fresh(size), data).value.0;
               Stands(c, "", size, t) && |c.mem| == size && PtrsOf(c.regs).token == At(32)
  {
    hide *;
    var data, t1 := GET_A + "\r\n" + (AUTHORIZATION + "\r\n" + ""), AfterLine(START, GET_A);
    GetA();
    StartState();
    AfterGetA(START);
    var q := PtrsOf(Fresh(size).regs);
    var q1 := Set(START, GET_A, 0, q);
    TokenLine(t1, 10, q1);
    LineFirst(START, GET_A, AUTHORIZATION + "\r\n" + "", 0, size - 35);
    LineFirst(t1, AUTHORIZATION, "", 10, size - 35);
    NothingBehind(t, 35, size - 35);
    ThenIs([Line(t1.state, AUTHORIZATION)], Some(Passed([], t, "")));
    ThenIs([Line(START.state, GET_A)], Some(Passed([Line(t1.state, AUTHORIZATION)] + [], t, "")));
    FreshStands(size);
    assert "" + data == data;
    CallRefines(Fresh(size), "", size, START, data);
    GivesMeans(Call(Fresh(size), data), Pass(START, data, 0, size - 35).value, size);
    CallLeads(Fresh(size), "", size, START, data);
    PtrsLine(START, GET_A, AUTHORIZATION + "\r\n" + "", 0, q, 2, 0, 0);
    PtrsLine(t1, AUTHORIZATION, "", 10, q1, 1, 0, 0);
    NoLineInNothing();
    PtrsEnd(t, 35, "", Set(t1, AUTHORIZATION, 10, q1), 0);
  }

  /** What the second call says on the text level. */
  lemma HelloSaid(t: Parser, room: nat)
    requires t.state == HEADER && t.url.Some? && t.contentLength == 0 && room > 0
    ensures var data := "\r\n" + (GET_HELLO + "\r\n" + ("\r\n" + ""));
            && |data| == 22 && Forward(t, data) && Pass(t, data, 0, room).Some?
            && var said := Pass(t, data, 0, room).value.events;
               && |said| == 5 && !BringsToken(said[..4]) && BringsUrl(said[..4])
               && said[4].Dispatch? && said[4].request.url == "/api/hello" && said[4].request.token == t.token
  {
    hide *;
    var rest := GET_HELLO + "\r\n" + ("\r\n" + "");
    var data, t1 := "\r\n" + rest, AfterLine(t, "");
    AfterBlank(t);
    HelloLine(t1);
    var t2 := AfterLine(t1, GET_HELLO);
    BlankIsFirst(t, rest, 0, room);
    LineFirst(t1, GET_HELLO, "\r\n" + "", 2, room);
    BlankIsFirst(t2, "", 20, room);
    NothingBehind(AfterLine(t2, ""), 22, room);
    LineEventsAre(t, "", None);
    LineEventsAre(t2, "", None);
    ClosesMeans(t, "");
    ClosesMeans(t2, "");
    ThenIs(LineEvents(t2, "", None), Some(Passed([], AfterLine(t2, ""), "")));
    ThenIs([Line(t1.state, GET_HELLO)], Pass(t2, "\r\n" + "", 20, room));
    ThenIs(LineEvents(t, "", None), Pass(t1, rest, 2, room));
    BlankSays(LineEvents(t, "", None), LineEvents(t2, "", None), t, t1, t2);
  }

  lemma AfterBlank(t: Parser)
    requires t.state == HEADER
    ensures var p := AfterLine(t, ""); p.state == REQUESTLINE && p.token == t.token && p.contentLength == 0
  {}

  lemma BlankSays(x: seq<Event>, y: seq<Event>, t: Parser, t1: Parser, t2: Parser)
    requires |x| == |y| == 2 && x[0] == Line(HEADER, "") == y[0] && x[1].Dispatch? && y[1].Dispatch?
    requires t1.state == REQUESTLINE
    ensures var said := x + ([Line(t1.state, GET_HELLO)] + (y + []));
            |said| == 5 && said[4] == y[1] && !BringsToken(said[..4]) && BringsUrl(said[..4])
  {
    var said := x + ([Line(t1.state, GET_HELLO)] + (y + []));
    assert said[..4] == [Line(HEADER, ""), x[1], Line(t1.state, GET_HELLO), Line(HEADER, "")];
    var e := said[..4][2];
    assert SetsUrl(e) && e in said[..4];
  }

  /**
  A token from an earlier call: the second request of the later call is handed its own path, and the empty string for
  a token, although no line of it names one; so it goes to the check of tokens, which refuses it.
   */
  lemma LeftoverToken(size: nat)
    requires size > 35
    ensures var early := GET_A + "\r\n" + (AUTHORIZATION + "\r\n" + "");
            var data := "\r\n" + (GET_HELLO + "\r\n" + ("\r\n" + ""));
            && Fresh(size).readIdx + |early| <= |Fresh(size).mem| && Call(Fresh(size), early).Some?
            && var c := Call(Fresh(size), early).value.0;
               && c.readIdx + |data| <= |c.mem| && Call(c, data).Some?
               && var got := Call(c, data).value.1;
                  && |got| == 5 && got[4].Dispatch?
                  && got[4].request.url == "/api/hello" && got[4].request.token == Some("")
  {
    hide *;
    var early := GET_A + "\r\n" + (AUTHORIZATION + "\r\n" + "");
    var data := "\r\n" + (GET_HELLO + "\r\n" + ("\r\n" + ""));
    StartState();
    AfterGetA(START);
    var t1 := AfterLine(START, GET_A);
    var t := AfterLine(t1, AUTHORIZATION);
    TokenLine(t1, 0, Ptrs(Null, Null));
    StartLength();
    TokenArrives(size, t);
    var c := Call(Fresh(size), early).value.0;
    HelloSaid(t, size - 22);
    assert "" + data == data;
    CallExact(c, "", size, t, data);
    CallReads(c, "", size, t, data);
    LeftStays(t, data, 0, size - 22, PtrsOf(c.regs), 4);
    SeenSize(t, "", data, 4);
    BehindReads(Seen(t, "", data, 4), 32);
    ThroughAt(Seen(t, "", data, 4), 32);
  }

  lemma ThroughAt(w: string, off: nat)
    ensures Through(w, At(off)) == Some(Deref(w, At(off)))
  {}

  // ---------------------------------------------------------------- a file that cannot be opened

  /** A world with one file that can be read, and one that cannot be opened. */
  ghost predicate OneOpens(w: World) {
    w.lookup("./resources/a") == File("x") && w.lookup("./resources/b") == Unreadable
  }

  lemma Replies(w: World, a: Request, b: Request)
    requires OneOpens(w) && a == Request("/a", false, None, true, None) && b == Request("/b", false, None, true, None)
    ensures Respond(w, a) == FromFile("text/plain", "x") && Respond(w, b) == Silent
  {
    assert "./resources" + "/a" == "./resources/a" && "./resources" + "/b" == "./resources/b";
    PlainType();
    ShortHead();
  }

  lemma PlainType()
    ensures ContentType("./resources/a") == "text/plain"
  {
    var p := "./resources/a";
    assert p == "" + ['.'] + "/resources/a";
    LastCharIs("", '.', "/resources/a");
    assert p[0..] == p;
  }

  lemma ShortHead()
    ensures |HeadFor(FromFile("text/plain", "x"), true)| < WRITE_BUFFER_SIZE
  {
    var h := HeadLines("200 OK", true, "text/plain", 1);
    assert h[1..][1..][1..][1..] == [];
    assert |Unlines(h)| < 1000;
  }

  /** A request for each in one call: of the only reply, nothing beyond its header can ever be sent. */
  lemma LostFile(w: World, s: Sender)
    requires OneOpens(w) && s.toSend == 0
    ensures var a, b := Request("/a", false, None, true, None), Request("/b", false, None, true, None);
            && AllFit(w, [a, b])
            && forall scripts :: Writes(Answered(w, s, [a, b]).(keepAlive := true), scripts).sender.toSend != 0
  {
    hide Respond, Answered, Writes;
    var a, b := Request("/a", false, None, true, None), Request("/b", false, None, true, None);
    Replies(w, a, b);
    assert [] + [a] + [b] == [a, b];
    LastReplyArrives(w, s, [], a, [b], true);
  }
}
