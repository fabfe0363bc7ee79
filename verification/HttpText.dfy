/**
The text level of the request parser (src/http/http_conn.cpp): what a line means, and what a whole
stream means when it is split at CRLF (sections 2.2 and 3 of RFC 9112) and read line by line.
 */
module HttpText {
  import opened Strings

  const NUL := '\0'

  // ---------------------------------------------------------------- one line

  predicate IsBlank(c: char) {
    c == ' ' || c == '\t'
  }

  function Lower(c: char): char {
    if 'A' <= c <= 'Z' then (c as int + 32) as char else c
  }

  /** `strncasecmp(t, p, |p|) == 0`. */
  predicate HasPrefix(t: string, p: string) {
    |p| <= |t| && forall i | 0 <= i < |p| :: Lower(t[i]) == Lower(p[i])
  }

  /** `strpbrk(t, " \t")`, or the length when there is no blank. */
  function FirstBlank(t: string): (k: nat)
    ensures k <= |t|
  {
    if t == "" || IsBlank(t[0]) then 0 else 1 + FirstBlank(t[1..])
  }

  /** `strspn(t, " \t")`. */
  function Blanks(t: string): (k: nat)
    ensures k <= |t|
  {
    if t == "" || !IsBlank(t[0]) then 0 else 1 + Blanks(t[1..])
  }

  /** `strchr(t, '?')`, or the length when there is no question mark. */
  function QueryAt(t: string): (k: nat)
    ensures k <= |t|
  {
    match FindChar(t, '?')
    case None => |t|
    case Some(k) => k
  }

  /** The text between the first two blanks. */
  function Target(line: string): string
    requires FirstBlank(line) < |line|
  {
    var r := line[FirstBlank(line) + 1..];
    r[..FirstBlank(r)]
  }

  /** The target up to its question mark. */
  function RawPath(line: string): string
    requires FirstBlank(line) < |line|
  {
    Target(line)[..QueryAt(Target(line))]
  }

  /** The path a request line asks for. */
  function Path(line: string): string
    requires FirstBlank(line) < |line|
  {
    if RawPath(line) == "/" then "/index.html" else RawPath(line)
  }

  /** The target is the text between the first two blanks, the raw path what stands before its question mark. */
  lemma TargetMeans(line: string, verb: string, blank: char, path: string, query: string, tail: string)
    requires line == verb + [blank] + (path + query + tail)
    requires NoBlank(verb) && IsBlank(blank) && NoBlank(path + query) && (tail == "" || IsBlank(tail[0]))
    requires '?' !in path && (query == "" || query[0] == '?')
    ensures FirstBlank(line) == |verb| && Target(line) == path + query && RawPath(line) == path
    ensures Path(line) == if path == "/" then "/index.html" else path
  {
    hide *;
    UpToBlank(verb, [blank] + (path + query + tail));
    UpToBlank(path + query, tail);
    UpToQuery(path, query);
    assert line == verb + ([blank] + (path + query + tail));
    assert line[|verb| + 1..] == path + query + tail;
    TargetIs(line, |verb|, path + query, tail);
    assert (path + query)[..|path|] == path;
    RawPathIs(line, path + query, |path|);
    PathIs(line);
  }

  lemma PathIs(line: string)
    requires FirstBlank(line) < |line|
    ensures Path(line) == if RawPath(line) == "/" then "/index.html" else RawPath(line)
  {}

  predicate NoBlank(t: string) {
    forall c | c in t :: !IsBlank(c)
  }

  lemma TargetIs(line: string, b: nat, target: string, tail: string)
    requires FirstBlank(line) == b < |line| && line[b + 1..] == target + tail && FirstBlank(target + tail) == |target|
    ensures Target(line) == target
  {}

  lemma RawPathIs(line: string, target: string, q: nat)
    requires FirstBlank(line) < |line| && Target(line) == target && QueryAt(target) == q
    ensures RawPath(line) == target[..q]
  {}

  lemma {:induction false} UpToBlank(x: string, y: string)
    requires NoBlank(x) && (y == "" || IsBlank(y[0]))
    ensures FirstBlank(x + y) == |x|
  {
    if x == "" {
      assert x + y == y;
    } else {
      assert (x + y)[1..] == x[1..] + y;
      UpToBlank(x[1..], y);
    }
  }

  lemma {:induction false} UpToQuery(path: string, query: string)
    requires '?' !in path && (query == "" || query[0] == '?')
    ensures QueryAt(path + query) == |path|
  {
    if path == "" {
      assert path + query == query;
    } else {
      assert (path + query)[1..] == path[1..] + query;
      UpToQuery(path[1..], query);
    }
  }

  predicate IsDigit(c: char) {
    '0' <= c <= '9'
  }

  predicate IsSpace(c: char) {
    c == ' ' || '\t' <= c <= '\r'
  }

  function DigitOf(c: char): (d: nat)
    requires IsDigit(c)
    ensures d < 10
  {
    c as int - '0' as int
  }

  function Digits(t: string, acc: nat): int {
    if t == "" || !IsDigit(t[0]) then acc
    else Digits(t[1..], acc * 10 + DigitOf(t[0]))
  }

  const LONG_MAX := 0x7fff_ffff_ffff_ffff
  const LONG_MIN := -0x8000_0000_0000_0000

  /** `(int)atol(t)`: the value is clamped to a long, then cut to its low 32 bits. */
  function Atol(t: string): int {
    if t != "" && IsSpace(t[0]) then Atol(t[1..])
    else
      var n := if t != "" && t[0] == '-' then -Digits(t[1..], 0)
               else if t != "" && t[0] == '+' then Digits(t[1..], 0)
               else Digits(t, 0);
      var l := if n > LONG_MAX then LONG_MAX else if n < LONG_MIN then LONG_MIN else n;
      (l + 0x8000_0000) % 0x1_0000_0000 - 0x8000_0000
  }

  datatype Header =
    | ContentLength(value: int)
    | KeepAlive
    | Bearer(off: nat)     // the token starts here
    | Other

  function ParseHeader(t: string): (h: Header)
    ensures h.Bearer? ==> h.off <= |t|
  {
    if HasPrefix(t, "Content-Length:") then
      ContentLength(Atol(t[15 + Blanks(t[15..])..]))
    else if HasPrefix(t, "Connection:") then
      if HasPrefix(t[11 + Blanks(t[11..])..], "keep-alive") then KeepAlive else Other
    else if HasPrefix(t, "Authorization:") then
      var at := 14 + Blanks(t[14..]);
      if HasPrefix(t[at..], "Bearer ") then Bearer(at + 7) else Other
    else Other
  }

  /** `t` reads `p` in letters of any case, and nothing more. */
  predicate Spells(t: string, p: string) {
    |t| == |p| && HasPrefix(t, p)
  }

  lemma {:induction false} BlanksOf(gap: string, rest: string)
    requires (forall c | c in gap :: IsBlank(c)) && (rest == "" || !IsBlank(rest[0]))
    ensures Blanks(gap + rest) == |gap|
  {
    if gap == "" {
      assert gap + rest == rest;
    } else {
      assert (gap + rest)[0] == gap[0] && (gap + rest)[1..] == gap[1..] + rest;
      BlanksOf(gap[1..], rest);
    }
  }

  lemma AfterGap(name: string, gap: string, value: string)
    requires (forall c | c in gap :: IsBlank(c)) && (value == "" || !IsBlank(value[0]))
    ensures var line := name + gap + value;
            && line[|name|..] == gap + value && Blanks(line[|name|..]) == |gap|
            && line[|name| + |gap|..] == value
  {
    BlanksOf(gap, value);
    var line := name + gap + value;
    assert line[|name|..] == gap + value;
  }

  lemma PrefixOfSum(t: string, rest: string, p: string)
    requires Spells(t, p)
    ensures HasPrefix(t + rest, p)
  {}

  /** Names that differ in their first letter or their third are not confused. */
  lemma OtherHeader(t: string, p: string, q: string, i: nat)
    requires HasPrefix(t, p) && i < |p| && i < |q| && Lower(p[i]) != Lower(q[i])
    ensures !HasPrefix(t, q)
  {}

  /** The bearer text of an Authorization line, whatever the blanks before it and the case of its words. */
  lemma BearerMeans(name: string, gap: string, word: string, token: string)
    requires Spells(name, "Authorization:") && (forall c | c in gap :: IsBlank(c)) && Spells(word, "Bearer ")
    ensures var line, h := name + gap + (word + token), ParseHeader(name + gap + (word + token));
            h.Bearer? && line[h.off..] == token
  {
    hide Blanks, HasPrefix, Spells;
    SpellsLength(name, "Authorization:");
    SpellsLength(word, "Bearer ");
    FirstLetter(word, "Bearer ");
    AfterGap(name, gap, word + token);
    var line := name + gap + (word + token);
    assert line == name + (gap + (word + token));
    PrefixOfSum(name, gap + (word + token), "Authorization:");
    PrefixOfSum(word, token, "Bearer ");
    OtherHeader(line, "Authorization:", "Content-Length:", 0);
    OtherHeader(line, "Authorization:", "Connection:", 0);
    assert line[14 + |gap|..][7..] == token;
  }

  lemma SpellsLength(t: string, p: string)
    requires Spells(t, p)
    ensures |t| == |p|
  {}

  lemma FirstLetter(t: string, p: string)
    requires Spells(t, p) && p != "" && 'A' <= p[0] <= 'z'
    ensures !IsBlank(t[0])
  {}

  /** A Connection line whose value starts with keep-alive, and only such a line, keeps the connection. */
  lemma KeepAliveMeans(name: string, gap: string, value: string)
    requires Spells(name, "Connection:") && (forall c | c in gap :: IsBlank(c)) && (value == "" || !IsBlank(value[0]))
    ensures ParseHeader(name + gap + value) == KeepAlive <==> HasPrefix(value, "keep-alive")
  {
    hide Blanks, HasPrefix, Spells;
    SpellsLength(name, "Connection:");
    AfterGap(name, gap, value);
    var line := name + gap + value;
    assert line == name + (gap + value);
    PrefixOfSum(name, gap + value, "Connection:");
    OtherHeader(line, "Connection:", "Content-Length:", 3);
  }

  lemma {:induction false} DigitsAppend(t: string, c: char, acc: nat)
    requires (forall d | d in t :: IsDigit(d)) && IsDigit(c)
    ensures Digits(t + [c], acc) == Digits(t, acc) * 10 + DigitOf(c)
  {
    if t == "" {
      assert (t + [c])[1..] == "";
    } else {
      assert (t + [c])[0] == t[0] && (t + [c])[1..] == t[1..] + [c];
      DigitsAppend(t[1..], c, acc * 10 + DigitOf(t[0]));
    }
  }

  // ---------------------------------------------------------------- a stream

  datatype CheckState = REQUESTLINE | HEADER

  /** What `do_request` is handed. */
  datatype Request = Request(url: string, isPost: bool, token: Option<string>, keepAlive: bool, post: Option<string>)

  datatype Event =
    | Line(state: CheckState, text: string)   // a line, with the state it was read in
    | Dispatch(request: Request)              // do_request

  /** What a run of events hands on, in order. */
  function Requests(events: seq<Event>): seq<Request> {
    if events == [] then []
    else (if events[0].Dispatch? then [events[0].request] else []) + Requests(events[1..])
  }

  lemma NoRequests()
    ensures Requests([]) == []
  {}

  lemma {:induction false} RequestsAppend(x: seq<Event>, y: seq<Event>)
    ensures Requests(x + y) == Requests(x) + Requests(y)
  {
    if x == [] {
      assert x + y == y;
    } else {
      assert (x + y)[0] == x[0] && (x + y)[1..] == x[1..] + y;
      RequestsAppend(x[1..], y);
    }
  }

  predicate CrlfAt(s: string, i: int) {
    0 <= i < |s| - 1 && s[i] == '\r' && s[i + 1] == '\n'
  }

  /** The first CRLF at or after `from`. */
  function FindCrlf(s: string, from: nat): (r: Option<nat>)
    ensures r.Some? ==> from <= r.value && CrlfAt(s, r.value) && forall i | from <= i < r.value :: !CrlfAt(s, i)
    ensures r.None? ==> forall i | from <= i :: !CrlfAt(s, i)
    decreases |s| - from
  {
    if |s| <= from then None
    else if CrlfAt(s, from) then Some(from)
    else FindCrlf(s, from + 1)
  }

  /** The complete lines of a text. */
  function Lines(s: string): seq<string>
    decreases |s|
  {
    match FindCrlf(s, 0)
    case None => []
    case Some(k) => [s[..k]] + Lines(s[k + 2..])
  }

  /** What follows the last CRLF. */
  function Rest(s: string): string
    decreases |s|
  {
    match FindCrlf(s, 0)
    case None => s
    case Some(k) => Rest(s[k + 2..])
  }

  /** The parser's registers, holding texts instead of pointers. */
  datatype Parser = Parser(
    state: CheckState, url: Option<string>, isPost: bool, contentLength: int, token: Option<string>, keepAlive: bool)

  const START := Parser(REQUESTLINE, None, false, 0, None, false)

  function AfterLine(p: Parser, line: string): Parser {
    match p.state
    case REQUESTLINE =>
      p.(state := HEADER, isPost := p.isPost || HasPrefix(line, "POST"),
         url := if FirstBlank(line) < |line| then Some(Path(line)) else None)
    case HEADER =>
      if line == "" then p.(state := REQUESTLINE, contentLength := 0, url := None, isPost := false)
      else
        match ParseHeader(line)
        case ContentLength(n) => p.(contentLength := n)
        case KeepAlive => p.(keepAlive := true)
        case Bearer(off) => p.(token := Some(line[off..]))
        case Other => p
  }

  /** The blank line that ends the headers of a request. */
  predicate Closes(p: Parser, line: string) {
    p.state == HEADER && line == ""
  }

  /** `post` is what `do_request` finds in `m_post_data`. */
  function LineEvents(p: Parser, line: string, post: Option<string>): seq<Event> {
    if Closes(p, line) then
      var url := if p.url.Some? then p.url.value else "";
      [Line(p.state, line), Dispatch(Request(url, p.isPost, p.token, p.keepAlive, post))]
    else [Line(p.state, line)]
  }

  function AfterLines(p: Parser, lines: seq<string>): Parser
    decreases |lines|
  {
    if lines == [] then p else AfterLines(AfterLine(p, lines[0]), lines[1..])
  }

  /** The events of lines among which no body was announced. */
  function Events(p: Parser, lines: seq<string>): seq<Event>
    decreases |lines|
  {
    if lines == [] then [] else LineEvents(p, lines[0], None) + Events(AfterLine(p, lines[0]), lines[1..])
  }

  /** Whenever a blank line is reached, the request line had a target and no body was announced. */
  predicate Orderly(p: Parser, lines: seq<string>)
    decreases |lines|
  {
    lines == [] ||
    ((Closes(p, lines[0]) ==> p.url.Some? && p.contentLength == 0) && Orderly(AfterLine(p, lines[0]), lines[1..]))
  }

  // ---------------------------------------------------------------- splitting, piece by piece

  /** Lines with their CRLFs put back. */
  function Unlines(lines: seq<string>): string
    decreases |lines|
  {
    if lines == [] then "" else lines[0] + "\r\n" + Unlines(lines[1..])
  }

  ghost predicate HasNoCrlf(s: string) {
    forall i :: !CrlfAt(s, i)
  }

  /** Splitting loses nothing, and no piece has a CRLF left in it. */
  lemma {:induction false} LinesSplit(s: string)
    ensures Unlines(Lines(s)) + Rest(s) == s
    ensures HasNoCrlf(Rest(s)) && forall line | line in Lines(s) :: HasNoCrlf(line)
    decreases |s|
  {
    hide HasNoCrlf, FindCrlf, Unlines;
    match FindCrlf(s, 0)
    case None =>
      NoLines(s);
    case Some(k) =>
      var line, rest := s[..k], s[k + 2..];
      LinesSplit(rest);
      LineEnds(s, k, line, rest);
      UnlinesFirst(line, Lines(rest), Rest(rest));
  }

  lemma NoLines(s: string)
    requires FindCrlf(s, 0).None?
    ensures Unlines([]) + s == s && HasNoCrlf(s)
  {}

  lemma LineEnds(s: string, k: nat, line: string, rest: string)
    requires FindCrlf(s, 0) == Some(k) && line == s[..k] && rest == s[k + 2..]
    ensures s == line + "\r\n" + rest && HasNoCrlf(line)
  {
    assert forall i :: CrlfAt(line, i) ==> CrlfAt(s, i);
  }

  lemma UnlinesFirst(line: string, lines: seq<string>, rest: string)
    ensures Unlines([line] + lines) + rest == line + "\r\n" + (Unlines(lines) + rest)
  {}

  /** The first CRLF of `a` is the first one of anything that starts with `a`. */
  lemma FindInFront(a: string, b: string)
    requires FindCrlf(a, 0).Some?
    ensures FindCrlf(a + b, 0) == FindCrlf(a, 0)
  {
    var k := FindCrlf(a, 0).value;
    assert forall i | 0 <= i <= k :: CrlfAt(a + b, i) <==> CrlfAt(a, i);
  }

  /** Splitting `a` first and carrying its rest over to `b` gives what splitting `a + b` gives. */
  lemma {:induction false} SplitAppend(a: string, b: string)
    ensures Lines(a + b) == Lines(a) + Lines(Rest(a) + b)
    ensures Rest(a + b) == Rest(Rest(a) + b)
    decreases |a|
  {
    hide FindCrlf;
    match FindCrlf(a, 0)
    case None =>
    case Some(k) =>
      FindInFront(a, b);
      assert (a + b)[..k] == a[..k] && (a + b)[k + 2..] == a[k + 2..] + b;
      SplitAppend(a[k + 2..], b);
  }

  lemma {:induction false} RunAppend(p: Parser, x: seq<string>, y: seq<string>)
    ensures AfterLines(p, x + y) == AfterLines(AfterLines(p, x), y)
    ensures Events(p, x + y) == Events(p, x) + Events(AfterLines(p, x), y)
    ensures Orderly(p, x + y) <==> Orderly(p, x) && Orderly(AfterLines(p, x), y)
    decreases |x|
  {
    hide AfterLine, LineEvents;
    if x == [] {
      assert x + y == y;
    } else {
      assert (x + y)[1..] == x[1..] + y;
      RunAppend(AfterLine(p, x[0]), x[1..], y);
    }
  }
}
