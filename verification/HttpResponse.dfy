/**
`http_conn::do_request` (src/http/http_conn.cpp:237-376): which response a request gets, and what its header
declares. A message is read back by the rules of RFC 9112, sections 2.1, 5 and 6.2.
 */
module HttpResponses {
  import opened Strings
  import opened HttpText
  import opened HttpMemory
  import opened HttpWriters
  import Jwt

  // ---------------------------------------------------------------- a message, as its reader sees it

  datatype Message = Message(status: string, fields: seq<string>, body: string)

  /** The lines up to the first empty one, and what follows it. */
  function HeadOf(stream: string): Option<(seq<string>, string)>
    decreases |stream|
  {
    match FindCrlf(stream, 0)
    case None => None
    case Some(k) =>
      if k == 0 then Some(([], stream[2..]))
      else
        match HeadOf(stream[k + 2..])
        case None => None
        case Some((lines, rest)) => Some(([stream[..k]] + lines, rest))
  }

  /** A number in decimal digits, and nothing else. */
  function Number(t: string): Option<nat> {
    if t == "" || exists c | c in t :: !IsDigit(c) then None else Some(Value(t))
  }

  function Value(t: string): nat {
    if t == "" then 0
    else (if IsDigit(t[|t| - 1]) then DigitOf(t[|t| - 1]) else 0) + 10 * Value(t[..|t| - 1])
  }

  function TrimEnd(t: string): string {
    if t != "" && IsBlank(t[|t| - 1]) then TrimEnd(t[..|t| - 1]) else t
  }

  /** The values of all Content-Length fields. */
  function Lengths(fields: seq<string>): seq<Option<nat>> {
    if fields == [] then []
    else
      (if HasPrefix(fields[0], "Content-Length:") then
         var v := fields[0][15..];
         [Number(TrimEnd(v[Blanks(v)..]))]
       else []) + Lengths(fields[1..])
  }

  predicate Chunked(fields: seq<string>) {
    exists f | f in fields :: HasPrefix(f, "Transfer-Encoding:")
  }

  /** One message off the front of a stream: the body is as long as its one Content-Length says. */
  function ReadMessage(stream: string): Option<(Message, string)> {
    match HeadOf(stream)
    case None => None
    case Some((lines, rest)) =>
      if lines == [] || Chunked(lines[1..]) then None
      else
        var lengths := Lengths(lines[1..]);
        if |lengths| != 1 || lengths[0].None? || |rest| < lengths[0].value then None
        else Some((Message(lines[0], lines[1..], rest[..lengths[0].value]), rest[lengths[0].value..]))
  }

  // ---------------------------------------------------------------- what the server writes

  const WRITE_BUFFER_SIZE := 1024
  const INT_MAX := 0x7fff_ffff

  function Digit(d: nat): (c: char)
    requires d < 10
    ensures IsDigit(c) && DigitOf(c) == d
  {
    (d + '0' as int) as char
  }

  /** `%zu`. */
  function Dec(n: nat): string {
    if n < 10 then [Digit(n)] else Dec(n / 10) + [Digit(n % 10)]
  }

  function HeadLines(status: string, keepAlive: bool, contentType: string, length: nat): seq<string> {
    ["HTTP/1.1 " + status, "Connection: " + (if keepAlive then "keep-alive" else "close"),
     "Content-Type: " + contentType, "Content-Length: " + Dec(length)]
  }

  function Head(status: string, keepAlive: bool, contentType: string, length: nat): string {
    Unlines(HeadLines(status, keepAlive, contentType, length)) + "\r\n"
  }

  lemma {:induction false} DecReadsBack(n: nat)
    ensures Number(Dec(n)) == Some(n)
  {
    DecDigits(n);
    DecValue(n);
  }

  lemma {:induction false} DecDigits(n: nat)
    ensures Dec(n) != "" && forall c | c in Dec(n) :: IsDigit(c)
  {
    if n >= 10 {
      DecDigits(n / 10);
    }
  }

  lemma {:induction false} DecValue(n: nat)
    ensures Value(Dec(n)) == n
  {
    var t := Dec(n);
    if n < 10 {
      assert t[..0] == "";
    } else {
      DecValue(n / 10);
      assert t[..|t| - 1] == Dec(n / 10);
    }
  }

  lemma {:induction false} DecIsDigits(n: nat)
    ensures Digits(Dec(n), 0) == n
  {
    if n >= 10 {
      DecIsDigits(n / 10);
      DecDigits(n / 10);
      DigitsAppend(Dec(n / 10), Digit(n % 10), 0);
    } else {
      assert Dec(n)[1..] == "";
    }
  }

  /** A length that is declared as the server declares lengths is read as that length, up to the limits of an int. */
  lemma LengthMeans(name: string, gap: string, n: nat)
    requires Spells(name, "Content-Length:") && (forall c | c in gap :: IsBlank(c)) && n <= INT_MAX
    ensures ParseHeader(name + gap + Dec(n)) == ContentLength(n)
  {
    hide Blanks, HasPrefix, Spells, Dec, Digits, Atol;
    SpellsLength(name, "Content-Length:");
    DecDigits(n);
    DecIsDigits(n);
    var first := Dec(n)[0];
    assert first in Dec(n);
    AfterGap(name, gap, Dec(n));
    assert name + gap + Dec(n) == name + (gap + Dec(n));
    PrefixOfSum(name, gap + Dec(n), "Content-Length:");
    AtolIs(Dec(n), n);
  }

  lemma AtolIs(t: string, n: nat)
    requires t != "" && IsDigit(t[0]) && Digits(t, 0) == n <= INT_MAX
    ensures Atol(t) == n
  {}

  lemma FirstCrlf(line: string, rest: string)
    requires HasNoCrlf(line)
    ensures FindCrlf(line + "\r\n" + rest, 0) == Some(|line|)
  {
    var s := line + "\r\n" + rest;
    assert CrlfAt(s, |line|);
    forall i | 0 <= i < |line| ensures !CrlfAt(s, i) {
      assert !CrlfAt(line, i);
    }
  }

  /** Lines without CRLF, none of them empty, come back out of a head. */
  lemma {:induction false} HeadReadsBack(lines: seq<string>, rest: string)
    requires forall l | l in lines :: l != "" && HasNoCrlf(l)
    ensures HeadOf(Unlines(lines) + "\r\n" + rest) == Some((lines, rest))
    decreases |lines|
  {
    hide HasNoCrlf, FindCrlf;
    if lines == [] {
      EmptyHead(rest);
    } else {
      var later := Unlines(lines[1..]) + "\r\n" + rest;
      assert Unlines(lines) + "\r\n" + rest == lines[0] + "\r\n" + later;
      assert lines[0] in lines && forall l | l in lines[1..] :: l in lines;
      HeadReadsBack(lines[1..], rest);
      HeadCons(lines[0], later);
      assert [lines[0]] + lines[1..] == lines;
    }
  }

  lemma EmptyHead(rest: string)
    ensures HeadOf(Unlines([]) + "\r\n" + rest) == Some(([], rest))
  {}

  lemma HeadCons(line: string, later: string)
    requires line != "" && HasNoCrlf(line)
    ensures HeadOf(line + "\r\n" + later) ==
            match HeadOf(later) case None => None case Some((lines, rest)) => Some(([line] + lines, rest))
  {
    hide HasNoCrlf, FindCrlf;
    var s := line + "\r\n" + later;
    FirstCrlf(line, later);
    assert s[..|line|] == line && s[|line| + 2..] == later;
  }

  // ---------------------------------------------------------------- do_request

  /** What the server reads or is told: files, texts, the password check, the key behind the tokens. */
  datatype Lookup = Missing | Unreadable | File(content: string)

  datatype World = World(
    lookup: string -> Lookup, login: (string, string) -> bool, mac: Jwt.Mac,
    welcome: (string, string) -> string, loginFailed: string,
    noToken: string, badToken: string, hello: string -> string, notFound: string)

  /** `sscanf(post, "user=%[^&]&password=%s", name, pwd)`; what does not match stays empty. */
  function Credentials(post: string): (string, string) {
    if !MatchesAt(post, "user=", 0) then ("", "")
    else
      var name := UpTo(post[5..], c => c == '&');
      var rest := post[5 + |name|..];
      if name == "" || !MatchesAt(rest, "&password=", 0) then (name, "")
      else (name, UpTo(SkipSpace(rest[10..]), IsSpace))
  }

  function UpTo(t: string, stop: char -> bool): (r: string)
    ensures r <= t
  {
    if t == "" || stop(t[0]) then "" else [t[0]] + UpTo(t[1..], stop)
  }

  function SkipSpace(t: string): string {
    if t != "" && IsSpace(t[0]) then SkipSpace(t[1..]) else t
  }

  /** A form with a name and a password gives both, as long as neither holds what ends it. */
  lemma CredentialsMeans(name: string, pwd: string)
    requires name != "" && '&' !in name && forall c | c in pwd :: !IsSpace(c)
    ensures Credentials("user=" + name + "&password=" + pwd) == (name, pwd)
  {
    var rest := "&password=" + pwd;
    var post := "user=" + name + rest;
    assert "user=" + name + "&password=" + pwd == post;
    assert post[0..5] == "user=" && post[5..] == name + rest;
    UpToStop(name, rest, c => c == '&');
    assert post[5 + |name|..] == rest && rest[0..10] == "&password=" && rest[10..] == pwd;
    UpToStop(pwd, "", IsSpace);
    assert pwd + "" == pwd;
    assert pwd != "" ==> pwd[0] in pwd;
  }

  lemma {:induction false} UpToStop(t: string, rest: string, stop: char -> bool)
    requires (forall c | c in t :: !stop(c)) && (rest == "" || stop(rest[0]))
    ensures UpTo(t + rest, stop) == t
  {
    if t == "" {
      assert t + rest == rest;
    } else {
      assert (t + rest)[0] == t[0] && (t + rest)[1..] == t[1..] + rest;
      UpToStop(t[1..], rest, stop);
    }
  }

  function ContentType(path: string): string {
    match RFindChar(path, '.')
    case None => "text/plain"
    case Some(k) =>
      var dot := path[k..];
      if dot == ".html" then "text/html"
      else if dot == ".css" then "text/css"
      else if dot == ".js" then "application/javascript"
      else if dot == ".jpg" then "image/jpeg"
      else if dot == ".png" then "image/png"
      else if dot == ".ico" then "image/x-icon"
      else "text/plain"
  }

  /** `Silent`: the file cannot be opened, nothing is written. `Overflow`: a fixed buffer, or an int, is too small. */
  datatype Reply =
    | Buffered(status: string, contentType: string, text: string)
    | FromFile(contentType: string, content: string)
    | Silent
    | Overflow

  const JSON := "application/json; charset=utf-8"
  const HTML := "text/html; charset=utf-8"

  /** The branch a request takes. */
  function Chosen(w: World, r: Request): Reply {
    if r.isPost && r.url == "/login" then
      var (name, pwd) := if r.post.Some? then Credentials(r.post.value) else ("", "");
      if 50 <= |name| || 50 <= |pwd| then Overflow
      else if w.login(name, pwd) then Limited("200 OK", JSON, w.welcome(name, Jwt.Generate(w.mac, name)), 1024)
      else Limited("200 OK", JSON, w.loginFailed, 1024)
    else if r.url == "/api/hello" then
      match r.token
      case None => Limited("401 Unauthorized", JSON, w.noToken, 512)
      case Some(token) =>
        match Jwt.Verify(w.mac, token)
        case None => Limited("401 Unauthorized", JSON, w.badToken, 512)
        case Some(user) => Limited("200 OK", JSON, w.hello(user), 512)
    else
      var path := "./resources" + r.url;
      if 256 <= |path| then Overflow
      else
        match w.lookup(path)
        case Missing => Buffered("404 Not Found", HTML, CStr(w.notFound, 0))
        case Unreadable => Silent
        case File(content) => FromFile(ContentType(path), content)
  }

  /** A text put together in a buffer of its own first; its length is what `strlen` finds. */
  function Limited(status: string, contentType: string, text: string, room: nat): Reply {
    var body := CStr(text, 0);
    if room <= |body| then Overflow else Buffered(status, contentType, body)
  }

  predicate Sends(reply: Reply) {
    reply.Buffered? || reply.FromFile?
  }

  function StatusOf(reply: Reply): string
    requires Sends(reply)
  {
    if reply.Buffered? then reply.status else "200 OK"
  }

  function TypeOf(reply: Reply): string
    requires Sends(reply)
  {
    reply.contentType
  }

  function HeadFor(reply: Reply, keepAlive: bool): string
    requires Sends(reply)
  {
    match reply
    case Buffered(status, contentType, text) => Head(status, keepAlive, contentType, |text|)
    case FromFile(contentType, content) => Head("200 OK", keepAlive, contentType, |content|)
  }

  function BodyOf(reply: Reply): string
    requires Sends(reply)
  {
    if reply.Buffered? then reply.text else reply.content
  }

  /** The reply, unless it does not fit. */
  function Respond(w: World, r: Request): Reply {
    var reply := Chosen(w, r);
    match reply
    case Buffered(_, _, text) =>
      if WRITE_BUFFER_SIZE <= |HeadFor(reply, r.keepAlive)| + |text| then Overflow else reply
    case FromFile(_, content) =>
      var n := |HeadFor(reply, r.keepAlive)|;
      if WRITE_BUFFER_SIZE <= n || INT_MAX < n + |content| then Overflow else reply
    case _ => reply
  }

  /** The books `do_request` opens: a text follows its header in the buffer, a file stays where it is. */
  function Booked(s: Sender, reply: Reply, keepAlive: bool): Sender
    requires Sends(reply) || reply == Silent
  {
    match reply
    case Silent => s.(have := 0, file := None, keepAlive := keepAlive)
    case Buffered(_, _, text) =>
      var out := HeadFor(reply, keepAlive) + text;
      Sender(out, s.file, 0, |out|, keepAlive, s.wire)
    case FromFile(_, content) =>
      var out := HeadFor(reply, keepAlive);
      Sender(out, Some(content), 0, |out| + |content|, keepAlive, s.wire)
  }

  // ---------------------------------------------------------------- framing

  predicate Plain(t: string) {
    '\r' !in t
  }

  lemma PlainLine(t: string)
    requires Plain(t)
    ensures HasNoCrlf(t)
  {}

  lemma {:induction false} DecPlain(n: nat)
    ensures Plain(Dec(n)) && TrimEnd(Dec(n)) == Dec(n) && Blanks(Dec(n)) == 0
  {
    DecDigits(n);
    var t := Dec(n);
    assert t[0] in t && t[|t| - 1] in t;
  }

  lemma LinesPlain(status: string, keepAlive: bool, contentType: string, length: nat)
    requires Plain(status) && Plain(contentType)
    ensures forall l | l in HeadLines(status, keepAlive, contentType, length) :: l != "" && HasNoCrlf(l)
  {
    DecPlain(length);
    forall l | l in HeadLines(status, keepAlive, contentType, length) ensures l != "" && HasNoCrlf(l) {
      PlainLine(l);
    }
  }

  lemma OneLength(keepAlive: bool, contentType: string, length: nat, status: string)
    ensures var fields := HeadLines(status, keepAlive, contentType, length)[1..];
            Lengths(fields) == [Some(length)] && !Chunked(fields)
  {
    DecPlain(length);
    DecReadsBack(length);
    hide Dec, Number, TrimEnd;
    var fields := HeadLines(status, keepAlive, contentType, length)[1..];
    var conn, kind, len := fields[0], fields[1], fields[2];
    assert conn[1] == 'o' && conn[3] == 'n' && kind[3] == 't' && kind[8] == 'T' && len[0] == 'C' && kind[0] == 'C' &&
           conn[0] == 'C';
    assert fields[1..] == [kind, len] && fields[1..][1..] == [len];
    assert Lengths([len]) == [Number(TrimEnd(len[15..][Blanks(len[15..])..]))] + Lengths([]);
    var v := len[15..];
    assert v == " " + Dec(length);
    assert v[1..] == Dec(length);
    assert Blanks(v) == 1;
  }

  /** The header declares the length of what follows it: the message comes back off the front of any stream. */
  lemma HeadFrames(status: string, keepAlive: bool, contentType: string, body: string, later: string)
    requires Plain(status) && Plain(contentType)
    ensures var lines := HeadLines(status, keepAlive, contentType, |body|);
            ReadMessage(Head(status, keepAlive, contentType, |body|) + body + later) ==
            Some((Message(lines[0], lines[1..], body), later))
  {
    hide Lengths, Chunked, HeadLines;
    var lines := HeadLines(status, keepAlive, contentType, |body|);
    LinesPlain(status, keepAlive, contentType, |body|);
    HeadReadsBack(lines, body + later);
    OneLength(keepAlive, contentType, |body|, status);
    assert Head(status, keepAlive, contentType, |body|) + body + later == Unlines(lines) + "\r\n" + (body + later);
    assert lines != [] by { LinesCount(status, keepAlive, contentType, |body|); }
  }

  lemma LinesCount(status: string, keepAlive: bool, contentType: string, length: nat)
    ensures |HeadLines(status, keepAlive, contentType, length)| == 4
  {}

  lemma StatusesArePlain()
    ensures Plain("200 OK") && Plain("401 Unauthorized") && Plain("404 Not Found") && Plain(JSON) && Plain(HTML)
  {}

  lemma ContentTypePlain(path: string)
    ensures Plain(ContentType(path))
  {
    var t := ContentType(path);
    assert t in ["text/plain", "text/html", "text/css", "application/javascript", "image/jpeg", "image/png",
                 "image/x-icon"] by {
      hide Plain;
    }
    hide ContentType, RFindChar;
  }

  lemma ReplyIsPlain(w: World, r: Request)
    requires Sends(Respond(w, r))
    ensures Plain(StatusOf(Respond(w, r))) && Plain(TypeOf(Respond(w, r)))
  {
    hide Plain, Head, Credentials, CStr, ContentType, HeadFor, Jwt.Verify, Jwt.Generate;
    StatusesArePlain();
    ContentTypePlain("./resources" + r.url);
  }

  lemma HeadForIs(reply: Reply, keepAlive: bool)
    requires Sends(reply)
    ensures HeadFor(reply, keepAlive) == Head(StatusOf(reply), keepAlive, TypeOf(reply), |BodyOf(reply)|)
  {}

  /** The message a reply stands for. */
  function MessageOf(reply: Reply, keepAlive: bool): Message
    requires Sends(reply)
  {
    var lines := HeadLines(StatusOf(reply), keepAlive, TypeOf(reply), |BodyOf(reply)|);
    Message(lines[0], lines[1..], BodyOf(reply))
  }

  lemma ReplyReadsBack(w: World, r: Request, later: string)
    requires Sends(Respond(w, r))
    ensures var reply := Respond(w, r);
            ReadMessage(HeadFor(reply, r.keepAlive) + BodyOf(reply) + later) ==
            Some((MessageOf(reply, r.keepAlive), later))
  {
    hide *;
    ReplyIsPlain(w, r);
    var reply := Respond(w, r);
    HeadForIs(reply, r.keepAlive);
    HeadFrames(StatusOf(reply), r.keepAlive, TypeOf(reply), BodyOf(reply), later);
    MessageIs(reply, r.keepAlive);
  }

  /** The books are right from the start. */
  lemma BookedSends(w: World, r: Request, s: Sender)
    requires Sends(Respond(w, r))
    ensures var reply := Respond(w, r);
            var b := Booked(s, reply, r.keepAlive);
            var body := if reply.FromFile? then reply.content else "";
            && Sending(b, b.header, body, s.wire) && 0 < b.toSend
            && b.header + body == HeadFor(reply, r.keepAlive) + BodyOf(reply)
            && b.keepAlive == r.keepAlive
  {
    hide Respond, HeadLines;
  }

  /**
  Response framing: whatever branch the request takes, and however the kernel lets the bytes go, they are a prefix
  of one message; once nothing is left to send, the peer reads exactly that message off the stream, with the body
  the branch meant, and finds what comes later behind it. `keepAlive` is the flag as it stands when `write` runs.
   */
  lemma Framing(w: World, r: Request, s: Sender, keepAlive: bool, scripts: seq<seq<Answer>>, later: string)
    requires Sends(Respond(w, r))
    ensures var reply := Respond(w, r);
            var end := Writes(Booked(s, reply, r.keepAlive).(keepAlive := keepAlive), scripts);
            var stream := HeadFor(reply, r.keepAlive) + BodyOf(reply);
            && s.wire <= end.sender.wire <= s.wire + stream
            && (end.sender.toSend == 0 <==> end.sender.wire == s.wire + stream)
            && (end.sender.toSend == 0 ==> end.ok == keepAlive)
            && ReadMessage(stream + later) == Some((MessageOf(reply, r.keepAlive), later))
  {
    hide *;
    BookedSends(w, r, s);
    var reply := Respond(w, r);
    ReplyReadsBack(w, r, later);
    var body := if reply.FromFile? then reply.content else "";
    var b := Booked(s, reply, r.keepAlive).(keepAlive := keepAlive);
    SendingStill(Booked(s, reply, r.keepAlive), keepAlive, body, s.wire);
    Delivery(b, scripts, b.header, body, s.wire);
    assert s.wire + (b.header + body) == s.wire + b.header + body;
  }

  lemma SendingStill(s: Sender, keepAlive: bool, body: string, before: string)
    requires Sending(s, s.header, body, before)
    ensures Sending(s.(keepAlive := keepAlive), s.header, body, before)
  {}

  lemma MessageIs(reply: Reply, keepAlive: bool)
    requires Sends(reply)
    ensures var lines := HeadLines(StatusOf(reply), keepAlive, TypeOf(reply), |BodyOf(reply)|);
            |lines| == 4 && MessageOf(reply, keepAlive) == Message(lines[0], lines[1..], BodyOf(reply))
  {}

  /** A token the login hands out greets the user it was made for, up to a double quote in the name. */
  lemma TokenOpensHello(w: World, r: Request, name: string)
    requires Jwt.IsText(name) && r.url == "/api/hello" && r.token == Some(Jwt.Generate(w.mac, name))
    ensures Chosen(w, r) == Limited("200 OK", JSON, w.hello(Jwt.UpToQuote(name)), 512)
  {
    hide Jwt.Generate, Jwt.Verify;
    Jwt.TokenRoundTrip(w.mac, name);
  }
}
