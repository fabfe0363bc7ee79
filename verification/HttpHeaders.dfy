/**
What the header lines of a request make of the parser's registers (src/http/http_conn.cpp:138-235), line by line and for
all of them, and which request they close.
 */
module HttpHeaders {
  import opened Strings
  import opened HttpText
  import opened HttpPass
  import opened HttpResponses

  predicate AllBlank(t: string) {
    forall c | c in t :: IsBlank(c)
  }

  /** A Connection line whose value starts with keep-alive. */
  ghost predicate AsksToStay(line: string) {
    exists name, gap, value ::
      && line == name + gap + value && Spells(name, "Connection:") && AllBlank(gap)
      && (value == "" || !IsBlank(value[0])) && HasPrefix(value, "keep-alive")
  }

  /** An Authorization line with this bearer text. */
  ghost predicate NamesToken(line: string, token: string) {
    exists name, gap, word ::
      && line == name + gap + (word + token) && Spells(name, "Authorization:") && AllBlank(gap)
      && Spells(word, "Bearer ")
  }

  predicate DeclaresLength(line: string) {
    HasPrefix(line, "Content-Length:")
  }

  lemma {:induction false} BlanksSplit(t: string)
    ensures var k := Blanks(t); AllBlank(t[..k]) && (k == |t| || !IsBlank(t[k]))
  {
    hide IsBlank;
    if t != "" && IsBlank(t[0]) {
      BlanksSplit(t[1..]);
      var k := Blanks(t[1..]);
      assert Blanks(t) == k + 1;
      assert t[..k + 1] == [t[0]] + t[1..][..k];
      assert k + 1 < |t| ==> t[k + 1] == t[1..][k];
    } else {
      assert t[..0] == "";
    }
  }

  lemma PrefixSpells(t: string, p: string)
    requires HasPrefix(t, p)
    ensures |p| <= |t| && Spells(t[..|p|], p)
  {}

  lemma StaysIs(line: string)
    ensures ParseHeader(line) == KeepAlive <==> AsksToStay(line)
  {
    hide Blanks, HasPrefix, Spells, Atol;
    if ParseHeader(line) == KeepAlive {
      PrefixSpells(line, "Connection:");
      var name, k := line[..11], Blanks(line[11..]);
      BlanksSplit(line[11..]);
      var gap, value := line[11..][..k], line[11..][k..];
      assert line[11 + k..] == value;
      assert line == name + gap + value;
    }
    if AsksToStay(line) {
      var name, gap, value :|
        && line == name + gap + value && Spells(name, "Connection:") && AllBlank(gap)
        && (value == "" || !IsBlank(value[0])) && HasPrefix(value, "keep-alive");
      KeepAliveMeans(name, gap, value);
    }
  }

  lemma TokenNamed(line: string)
    requires ParseHeader(line).Bearer?
    ensures NamesToken(line, line[ParseHeader(line).off..])
  {
    hide Blanks, HasPrefix, Spells, Atol, NamesToken;
    PrefixSpells(line, "Authorization:");
    var name, k := line[..14], Blanks(line[14..]);
    BlanksSplit(line[14..]);
    PrefixSpells(line[14 + k..], "Bearer ");
    var gap, word, token := line[14..][..k], line[14 + k..][..7], line[14 + k + 7..];
    assert line == name + gap + (word + token);
    TokenIn(name, gap, word, token);
  }

  lemma TokenIn(name: string, gap: string, word: string, token: string)
    requires Spells(name, "Authorization:") && AllBlank(gap) && Spells(word, "Bearer ")
    ensures NamesToken(name + gap + (word + token), token)
  {
    hide Spells, AllBlank;
  }

  lemma TokenIs(line: string, token: string)
    ensures NamesToken(line, token) <==> ParseHeader(line).Bearer? && line[ParseHeader(line).off..] == token
  {
    hide ParseHeader, Spells;
    if ParseHeader(line).Bearer? {
      TokenNamed(line);
    }
    if NamesToken(line, token) {
      var name, gap, word :|
        && line == name + gap + (word + token) && Spells(name, "Authorization:") && AllBlank(gap)
        && Spells(word, "Bearer ");
      BearerMeans(name, gap, word, token);
      assert ParseHeader(line).Bearer? && line[ParseHeader(line).off..] == token;
    }
  }

  lemma LengthIs(line: string)
    ensures ParseHeader(line).ContentLength? <==> DeclaresLength(line)
  {
    hide Blanks, HasPrefix, Atol;
  }

  // ---------------------------------------------------------------- the number

  lemma {:induction false} DigitsAre(d: string)
    requires forall c | c in d :: IsDigit(c)
    ensures Digits(d, 0) == Value(d)
    decreases |d|
  {
    if d != "" {
      var front, last := d[..|d| - 1], d[|d| - 1];
      assert d == front + [last] && last in d && forall c | c in front :: c in d;
      DigitsAre(front);
      DigitsAppend(front, last, 0);
    }
  }

  lemma {:induction false} DigitsStop(d: string, rest: string, acc: nat)
    requires (forall c | c in d :: IsDigit(c)) && (rest == "" || !IsDigit(rest[0]))
    ensures Digits(d + rest, acc) == Digits(d, acc)
    decreases |d|
  {
    if d == "" {
      assert d + rest == rest;
    } else {
      assert d[0] in d && (d + rest)[0] == d[0] && (d + rest)[1..] == d[1..] + rest;
      DigitsStop(d[1..], rest, acc * 10 + DigitOf(d[0]));
    }
  }

  /** The 32 low bits of a number that was first cut to the limits of a long. */
  ghost predicate IsIntOf(r: int, v: int) {
    var l := if v > 0x7fff_ffff_ffff_ffff then 0x7fff_ffff_ffff_ffff
             else if v < -0x8000_0000_0000_0000 then -0x8000_0000_0000_0000 else v;
    -0x8000_0000 <= r < 0x8000_0000 && (l - r) % 0x1_0000_0000 == 0
  }

  lemma Wraps(l: int)
    ensures var r := (l + 0x8000_0000) % 0x1_0000_0000 - 0x8000_0000;
            -0x8000_0000 <= r < 0x8000_0000 && (l - r) % 0x1_0000_0000 == 0
  {}

  /** No space, sign or digit starts `t`. */
  predicate StartsOther(t: string) {
    t == "" || !(IsSpace(t[0]) || t[0] == '+' || t[0] == '-' || IsDigit(t[0]))
  }

  function Signed(sign: string, d: string): int {
    if sign == "-" then 0 - Value(d) else Value(d)
  }

  lemma SignedNumber(sign: string, d: string, rest: string)
    requires sign in ["", "+", "-"] && (forall c | c in d :: IsDigit(c))
    requires if d == "" then StartsOther(rest) else rest == "" || !IsDigit(rest[0])
    ensures IsIntOf(Atol(sign + d + rest), Signed(sign, d))
  {
    hide Digits, Value, IsIntOf, Atol;
    DigitsAre(d);
    DigitsStop(d, rest, 0);
    var u, t := d + rest, sign + d + rest;
    if sign == "" {
      assert t == u;
      NumberFirst(d, rest);
      AtolOf(u, Digits(u, 0));
    } else {
      assert t == sign + u && t[0] == sign[0] && t[1..] == u;
      AtolOf(t, if sign == "-" then 0 - Digits(u, 0) else Digits(u, 0));
    }
  }

  /** A number without a sign starts with a digit, if it has any. */
  lemma NumberFirst(d: string, rest: string)
    requires (forall c | c in d :: IsDigit(c)) && (d == "" ==> StartsOther(rest))
    ensures d + rest == "" || !(IsSpace((d + rest)[0]) || (d + rest)[0] == '+' || (d + rest)[0] == '-')
  {
    if d == "" {
      assert d + rest == rest;
    } else {
      assert d[0] in d && (d + rest)[0] == d[0];
    }
  }

  lemma AtolOf(t: string, v: int)
    requires t == "" || !IsSpace(t[0])
    requires v == if t != "" && t[0] == '-' then 0 - Digits(t[1..], 0)
                  else if t != "" && t[0] == '+' then Digits(t[1..], 0) else Digits(t, 0)
    ensures IsIntOf(Atol(t), v)
  {
    hide Digits;
    Wraps(if v > LONG_MAX then LONG_MAX else if v < LONG_MIN then LONG_MIN else v);
  }

  lemma {:induction false} AtolSkips(space: string, t: string)
    requires forall c | c in space :: IsSpace(c)
    ensures Atol((space + t)[Blanks(space + t)..]) == Atol(t) || (t != "" && IsBlank(t[0]))
    ensures Atol(space + t) == Atol(t)
    decreases |space|
  {
    var u := space + t;
    if space == "" {
      assert u == t;
      assert t[0..] == t;
    } else {
      assert space[0] in space && u[0] == space[0] && u[1..] == space[1..] + t;
      AtolSkips(space[1..], t);
      if IsBlank(u[0]) {
        assert u[Blanks(u)..] == u[1..][Blanks(u[1..])..];
      } else {
        assert u[0..] == u;
      }
    }
  }

  /** What a Content-Length line makes of the register: spaces, a sign, digits, and whatever follows them. */
  lemma LengthReads(name: string, space: string, sign: string, d: string, rest: string)
    requires Spells(name, "Content-Length:") && (forall c | c in space :: IsSpace(c)) && sign in ["", "+", "-"]
    requires forall c | c in d :: IsDigit(c)
    requires if d == "" then StartsOther(rest) else rest == "" || !IsDigit(rest[0])
    ensures var h := ParseHeader(name + (space + (sign + d + rest)));
            h.ContentLength? && IsIntOf(h.value, Signed(sign, d))
  {
    hide Blanks, HasPrefix, Spells, Digits, Atol, Signed, IsIntOf;
    var t := sign + d + rest;
    var line := name + (space + t);
    SpellsLength(name, "Content-Length:");
    PrefixOfSum(name, space + t, "Content-Length:");
    assert line[15..] == space + t;
    assert line[15 + Blanks(space + t)..] == (space + t)[Blanks(space + t)..];
    SignedNumber(sign, d, rest);
    NumberIsNoBlank(sign, d, rest);
    AtolSkips(space, t);
  }

  lemma NumberIsNoBlank(sign: string, d: string, rest: string)
    requires sign in ["", "+", "-"] && (forall c | c in d :: IsDigit(c)) && (d == "" ==> StartsOther(rest))
    ensures var t := sign + d + rest; t == "" || !IsBlank(t[0])
  {
    var t := sign + d + rest;
    if sign == "" && d != "" {
      assert d[0] in d && t[0] == d[0];
    } else if sign == "" {
      assert t == rest;
    } else {
      assert t[0] == sign[0];
    }
  }

  // ---------------------------------------------------------------- all header lines

  lemma AfterHeaderLine(t: Parser, line: string)
    requires t.state == HEADER && line != ""
    ensures var p := AfterLine(t, line);
            && p.state == HEADER && p.url == t.url && p.isPost == t.isPost
            && (p.keepAlive <==> t.keepAlive || AsksToStay(line))
            && (forall token | NamesToken(line, token) :: p.token == Some(token))
            && ((forall token :: !NamesToken(line, token)) ==> p.token == t.token)
            && (!DeclaresLength(line) ==> p.contentLength == t.contentLength)
  {
    hide ParseHeader, AsksToStay, NamesToken, DeclaresLength;
    StaysIs(line);
    LengthIs(line);
    forall token
      ensures NamesToken(line, token) <==> ParseHeader(line).Bearer? && line[ParseHeader(line).off..] == token
    {
      TokenIs(line, token);
    }
    if ParseHeader(line).Bearer? {
      assert NamesToken(line, line[ParseHeader(line).off..]);
    }
  }

  lemma LinesFrom(t: Parser, line: string, later: seq<string>)
    ensures AfterLines(t, [line] + later) == AfterLines(AfterLine(t, line), later)
  {
    hide AfterLine;
    assert ([line] + later)[1..] == later;
  }

  ghost predicate HasNoLength(headers: seq<string>) {
    forall l | l in headers :: !DeclaresLength(l)
  }

  ghost predicate HasNoToken(headers: seq<string>) {
    forall l, token | l in headers :: !NamesToken(l, token)
  }

  /**
  The registers after any header lines: the connection is kept if and only if it was before or some line asks for it;
  without a line about them, length and token stay.
   */
  lemma {:induction false} HeadersSet(t: Parser, headers: seq<string>)
    requires t.state == HEADER && "" !in headers
    ensures var p := AfterLines(t, headers);
            && p.state == HEADER && p.url == t.url && p.isPost == t.isPost
            && (p.keepAlive <==> t.keepAlive || exists l | l in headers :: AsksToStay(l))
            && (HasNoLength(headers) ==> p.contentLength == t.contentLength)
            && (HasNoToken(headers) ==> p.token == t.token)
    decreases |headers|
  {
    hide AfterLine, AsksToStay, NamesToken, DeclaresLength;
    if headers != [] {
      var line, later := headers[0], headers[1..];
      assert headers == [line] + later && line in headers && forall l | l in later :: l in headers;
      LinesFrom(t, line, later);
      AfterHeaderLine(t, line);
      HeadersSet(AfterLine(t, line), later);
    }
  }

  lemma Middle(before: seq<string>, line: string, after: seq<string>)
    ensures before + [line] + after == before + ([line] + after)
    ensures "" !in before + [line] + after ==> "" !in before && line != "" && "" !in after
  {
    var all := before + [line] + after;
    assert line == all[|before|];
    assert forall l | l in before :: l in all;
    assert forall l | l in after :: l in all;
  }

  /** The last line that declares a length sets it, and the last that names a token sets that. */
  lemma LastLineSets(t: Parser, before: seq<string>, line: string, after: seq<string>)
    requires t.state == HEADER && "" !in before + [line] + after
    ensures var p := AfterLines(t, before + [line] + after);
            && (ParseHeader(line).ContentLength? && HasNoLength(after) ==> p.contentLength == ParseHeader(line).value)
            && forall token | NamesToken(line, token) && HasNoToken(after) :: p.token == Some(token)
  {
    hide ParseHeader, AsksToStay, NamesToken, DeclaresLength, HasNoLength, HasNoToken;
    Middle(before, line, after);
    RunAppend(t, before, [line] + after);
    var t1 := AfterLines(t, before);
    HeadersSet(t, before);
    LinesFrom(t1, line, after);
    AfterHeaderLine(t1, line);
    SetsLength(t1, line);
    HeadersSet(AfterLine(t1, line), after);
  }

  lemma SetsLength(t: Parser, line: string)
    requires t.state == HEADER && line != ""
    ensures ParseHeader(line).ContentLength? ==> AfterLine(t, line).contentLength == ParseHeader(line).value
  {
    hide ParseHeader;
  }

  /** A length declared as the server itself declares lengths, and not again after that. */
  lemma LengthDeclared(t: Parser, before: seq<string>, name: string, gap: string, n: nat, after: seq<string>)
    requires t.state == HEADER && "" !in before + [name + gap + Dec(n)] + after
    requires Spells(name, "Content-Length:") && AllBlank(gap) && n <= INT_MAX && HasNoLength(after)
    ensures AfterLines(t, before + [name + gap + Dec(n)] + after).contentLength == n
  {
    hide ParseHeader, Spells, Dec, HasNoLength;
    LengthMeans(name, gap, n);
    LastLineSets(t, before, name + gap + Dec(n), after);
  }

  // ---------------------------------------------------------------- a request, from its lines

  /** Everything a request without a body hands on, and what it leaves for the next one. */
  lemma RequestOf(t: Parser, line: string, headers: seq<string>)
    requires t.state == REQUESTLINE && t.contentLength == 0 && FirstBlank(line) < |line|
    requires "" !in headers && HasNoLength(headers)
    ensures var r, p := Requests(Events(t, [line] + (headers + [""]))), AfterLines(t, [line] + (headers + [""]));
            && |r| == 1 && r[0].url == Path(line) && r[0].isPost == (t.isPost || HasPrefix(line, "POST"))
            && r[0].post == None
            && (r[0].keepAlive <==> t.keepAlive || exists l | l in headers :: AsksToStay(l))
            && (HasNoToken(headers) ==> r[0].token == t.token)
            && p == Parser(REQUESTLINE, None, false, 0, r[0].token, r[0].keepAlive)
  {
    hide *;
    var t1 := AfterLine(t, line);
    var t2 := AfterLines(t1, headers);
    LinesCons(t, line, headers + [""]);
    RunAppend(t1, headers, [""]);
    RequestLineGives(t, line);
    HeadersSet(t1, headers);
    HeadersSayNothing(t1, headers);
    assert [""] + [] == [""];
    LinesCons(t2, "", []);
    LinesNil(AfterLine(t2, ""));
    BlankLineCloses(t2);
    RequestsAppend(LineEvents(t, line, None), Events(t1, headers + [""]));
    RequestsAppend(Events(t1, headers), Events(t2, [""]));
    RequestsAppend(LineEvents(t2, "", None), []);
    NoRequests();
  }

  lemma RequestLineGives(t: Parser, line: string)
    requires t.state == REQUESTLINE
    ensures forall post :: Requests(LineEvents(t, line, post)) == []
    ensures var p := AfterLine(t, line);
            && p.state == HEADER && p.isPost == (t.isPost || HasPrefix(line, "POST"))
            && p.url == (if FirstBlank(line) < |line| then Some(Path(line)) else None)
            && p.contentLength == t.contentLength && p.token == t.token && p.keepAlive == t.keepAlive
  {
    hide HasPrefix, Path, FirstBlank;
    assert [Line(t.state, line)][1..] == [];
  }

  lemma BlankLineCloses(t: Parser)
    requires t.state == HEADER && t.url.Some?
    ensures AfterLine(t, "") == Parser(REQUESTLINE, None, false, 0, t.token, t.keepAlive)
    ensures forall post ::
              Requests(LineEvents(t, "", post)) == [Request(t.url.value, t.isPost, t.token, t.keepAlive, post)]
  {
    forall post
      ensures Requests(LineEvents(t, "", post)) == [Request(t.url.value, t.isPost, t.token, t.keepAlive, post)]
    {
      var e := LineEvents(t, "", post);
      assert e[1..] == [e[1]];
      assert Requests(e[1..]) == [e[1].request] + Requests([]);
    }
  }

  lemma {:induction false} HeadersSayNothing(t: Parser, headers: seq<string>)
    requires t.state == HEADER && "" !in headers
    ensures Requests(Events(t, headers)) == []
    decreases |headers|
  {
    hide *;
    if headers == [] {
      LinesNil(t);
      NoRequests();
    } else {
      var line, later := headers[0], headers[1..];
      assert headers == [line] + later && line in headers && forall l | l in later :: l in headers;
      LinesCons(t, line, later);
      AfterHeaderLine(t, line);
      NothingSaid(t, line);
      HeadersSayNothing(AfterLine(t, line), later);
      RequestsAppend(LineEvents(t, line, None), Events(AfterLine(t, line), later));
    }
  }

  lemma NothingSaid(t: Parser, line: string)
    requires t.state == HEADER && line != ""
    ensures Requests(LineEvents(t, line, None)) == []
  {
    assert [Line(t.state, line)][1..] == [];
  }
}
