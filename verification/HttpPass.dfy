/**
One pass of `process` over its buffer (src/http/http_conn.cpp:122-161), on the text level and for any bytes: what is
handed on, what is left, and where a body ends a line early.
 */
module HttpPass {
  import opened Strings
  import opened HttpText

  /** The C string a buffer starts with. */
  function UpToNul(u: string): string {
    if u == "" || u[0] == NUL then "" else [u[0]] + UpToNul(u[1..])
  }

  /** The first CRLF at or after `from` with no NUL before it. */
  function FindLine(u: string, from: nat): (r: Option<nat>)
    ensures r.Some? ==> from <= r.value && CrlfAt(u, r.value)
    decreases |u| - from
  {
    if |u| <= from || u[from] == NUL then None
    else if CrlfAt(u, from) then Some(from)
    else FindLine(u, from + 1)
  }

  /** What stands behind a blank line once the byte a body of length `n` would end at is a NUL. */
  function Terminated(rest: string, n: int): (r: string)
    ensures |r| == |rest|
  {
    if 0 < n < |rest| then rest[n := NUL] else rest
  }

  /** That byte is in the buffer, which reaches from `next` bytes before the body to `behind` bytes after its start. */
  predicate Inside(n: int, next: nat, behind: nat) {
    n == 0 || 0 <= next + n < next + behind
  }

  /** A blank line gets through when the request has a target and its body an end in the buffer. */
  predicate Allowed(p: Parser, line: string, next: nat, behind: nat) {
    Closes(p, line) ==> p.url.Some? && Inside(p.contentLength, next, behind)
  }

  /** What a pass finds behind a line. */
  function Behind(p: Parser, line: string, rest: string): (r: string)
    ensures |r| == |rest|
  {
    if Closes(p, line) then Terminated(rest, p.contentLength) else rest
  }

  function Post(p: Parser, behind: string): Option<string> {
    if p.contentLength == 0 then None else Some(UpToNul(behind))
  }

  /** What a pass has handed on, its registers, and the bytes it leaves for the next call. */
  datatype Passed = Passed(events: seq<Event>, parser: Parser, rest: string)

  function Then(events: seq<Event>, later: Option<Passed>): Option<Passed> {
    match later
    case None => None
    case Some(x) => Some(x.(events := events + x.events))
  }

  /**
  One pass over any bytes `u`: `before` bytes of the buffer lie in front of them, `room` zeros behind.
  None when the pass leaves the buffer or a request has no target.
   */
  function Pass(p: Parser, u: string, before: nat, room: nat): Option<Passed>
    decreases |u|
  {
    match FindLine(u, 0)
    case None => if room == 0 && NUL !in u then None else Some(Passed([], p, u))
    case Some(m) =>
      var line, rest, next := u[..m], u[m + 2..], before + m + 2;
      if !Allowed(p, line, next, |rest| + room) then None
      else
        var behind := Behind(p, line, rest);
        Then(LineEvents(p, line, Post(p, behind)), Pass(AfterLine(p, line), behind, next, room))
  }

  /** What a caller can check first: a free byte or a NUL for the scan to stop at, and every blank line allowed. */
  predicate Sound(p: Parser, u: string, before: nat, room: nat)
    decreases |u|
  {
    match FindLine(u, 0)
    case None => room > 0 || NUL in u
    case Some(m) =>
      var line, rest, next := u[..m], u[m + 2..], before + m + 2;
      Allowed(p, line, next, |rest| + room) && Sound(AfterLine(p, line), Behind(p, line, rest), next, room)
  }

  /** No body is announced with a negative length. */
  predicate Forward(p: Parser, u: string)
    decreases |u|
  {
    match FindLine(u, 0)
    case None => true
    case Some(m) =>
      var line, rest := u[..m], u[m + 2..];
      (Closes(p, line) ==> 0 <= p.contentLength) && Forward(AfterLine(p, line), Behind(p, line, rest))
  }

  lemma {:induction false} PassSound(p: Parser, u: string, before: nat, room: nat)
    ensures Pass(p, u, before, room).Some? <==> Sound(p, u, before, room)
    decreases |u|
  {
    hide FindLine, Allowed, Behind, AfterLine, LineEvents;
    match FindLine(u, 0)
    case None =>
    case Some(m) =>
      var line, rest := u[..m], u[m + 2..];
      PassSound(AfterLine(p, line), Behind(p, line, rest), before + m + 2, room);
  }

  /** Without NULs the two ways to look for a line agree. */
  lemma {:induction false} FindLineIs(s: string, from: nat)
    requires NUL !in s
    ensures FindLine(s, from) == FindCrlf(s, from)
    decreases |s| - from
  {
    if from < |s| {
      assert s[from] in s;
      FindLineIs(s, from + 1);
    }
  }

  /** The first line of some bytes, and what comes after its CRLF. */
  ghost predicate Splits(u: string, m: nat, line: string, rest: string) {
    FindLine(u, 0) == Some(m) && line == u[..m] && rest == u[m + 2..]
  }

  lemma Split(u: string) returns (m: nat, line: string, rest: string)
    requires FindLine(u, 0).Some?
    ensures Splits(u, m, line, rest) && |u| == m + 2 + |rest| && m == |line|
  {
    m := FindLine(u, 0).value;
    line, rest := u[..m], u[m + 2..];
  }

  lemma PassFirst(p: Parser, u: string, m: nat, line: string, rest: string, before: nat, room: nat)
    requires Splits(u, m, line, rest)
    ensures Pass(p, u, before, room) ==
            if !Allowed(p, line, before + m + 2, |rest| + room) then None
            else Then(LineEvents(p, line, Post(p, Behind(p, line, rest))),
                      Pass(AfterLine(p, line), Behind(p, line, rest), before + m + 2, room))
    ensures Forward(p, u) <==>
            (Closes(p, line) ==> 0 <= p.contentLength) && Forward(AfterLine(p, line), Behind(p, line, rest))
  {
    hide FindLine, Allowed, Behind, AfterLine, LineEvents, Post, Closes;
  }

  lemma PassEnds(p: Parser, u: string, before: nat, room: nat)
    requires FindLine(u, 0).None?
    ensures Pass(p, u, before, room) == if room == 0 && NUL !in u then None else Some(Passed([], p, u))
    ensures Forward(p, u)
  {
    hide FindLine, Allowed, Behind, AfterLine, LineEvents, Post, Closes;
  }

  lemma LinesFirst(s: string, m: nat, line: string, rest: string)
    requires NUL !in s && Splits(s, m, line, rest)
    ensures Lines(s) == [line] + Lines(rest) && Rest(s) == Rest(rest) && NUL !in rest && NUL !in line
  {
    hide FindLine, FindCrlf;
    FindLineIs(s, 0);
  }

  lemma LinesNone(s: string)
    requires NUL !in s && FindLine(s, 0).None?
    ensures Lines(s) == [] && Rest(s) == s
  {
    hide FindLine, FindCrlf;
    FindLineIs(s, 0);
  }

  lemma LinesCons(p: Parser, line: string, lines: seq<string>)
    ensures AfterLines(p, [line] + lines) == AfterLines(AfterLine(p, line), lines)
    ensures Events(p, [line] + lines) == LineEvents(p, line, None) + Events(AfterLine(p, line), lines)
    ensures Orderly(p, [line] + lines) <==>
            (Closes(p, line) ==> p.url.Some? && p.contentLength == 0) && Orderly(AfterLine(p, line), lines)
  {
    hide AfterLine, LineEvents, Closes;
    assert ([line] + lines)[1..] == lines;
  }

  lemma LinesNil(p: Parser)
    ensures AfterLines(p, []) == p && Events(p, []) == [] && Orderly(p, [])
  {}

  lemma NoBody(p: Parser, line: string, rest: string, next: nat, behind: nat)
    requires Closes(p, line) ==> p.url.Some? && p.contentLength == 0
    ensures Allowed(p, line, next, behind) && Behind(p, line, rest) == rest
    ensures LineEvents(p, line, Post(p, rest)) == LineEvents(p, line, None)
    ensures Closes(p, line) ==> 0 <= p.contentLength
  {}

  /** Text without bodies: the pass is the reading line by line. */
  lemma {:induction false} PassLines(p: Parser, s: string, before: nat, room: nat)
    requires NUL !in s && Orderly(p, Lines(s)) && room > 0
    ensures Pass(p, s, before, room) == Some(Passed(Events(p, Lines(s)), AfterLines(p, Lines(s)), Rest(s)))
    ensures Forward(p, s)
    decreases |s|
  {
    hide *;
    if FindLine(s, 0).None? {
      LinesNone(s);
      LinesNil(p);
      PassEnds(p, s, before, room);
    } else {
      var m, line, rest := Split(s);
      LinesFirst(s, m, line, rest);
      LinesCons(p, line, Lines(rest));
      NoBody(p, line, rest, before + m + 2, |rest| + room);
      PassFirst(p, s, m, line, rest, before, room);
      PassLines(AfterLine(p, line), rest, before + m + 2, room);
      ThenIs(LineEvents(p, line, None), Pass(AfterLine(p, line), rest, before + m + 2, room));
    }
  }

  lemma ThenIs(events: seq<Event>, later: Option<Passed>)
    ensures later.Some? ==>
              Then(events, later) == Some(Passed(events + later.value.events, later.value.parser, later.value.rest))
    ensures later.None? ==> Then(events, later).None?
  {}

  /** No header announces a body. */
  predicate Bodyless(p: Parser, lines: seq<string>)
    decreases |lines|
  {
    p.contentLength == 0 && (lines == [] || Bodyless(AfterLine(p, lines[0]), lines[1..]))
  }

  lemma BodylessCons(p: Parser, line: string, lines: seq<string>)
    requires Bodyless(p, [line] + lines)
    ensures p.contentLength == 0 && Bodyless(AfterLine(p, line), lines)
  {
    hide AfterLine;
    assert ([line] + lines)[1..] == lines;
  }

  lemma NullUrl(p: Parser, line: string, next: nat, behind: nat)
    requires p.contentLength == 0
    ensures Allowed(p, line, next, behind) <==> (Closes(p, line) ==> p.url.Some?)
    ensures forall rest :: Behind(p, line, rest) == rest
  {}

  /** Without bodies a pass gets through exactly when a byte stays free and every blank line has its target. */
  lemma {:induction false} PassBodyless(p: Parser, s: string, before: nat, room: nat)
    requires NUL !in s && Bodyless(p, Lines(s))
    ensures Pass(p, s, before, room).Some? <==> room > 0 && Orderly(p, Lines(s))
    decreases |s|
  {
    hide *;
    if FindLine(s, 0).None? {
      LinesNone(s);
      LinesNil(p);
      PassEnds(p, s, before, room);
    } else {
      var m, line, rest := Split(s);
      LinesFirst(s, m, line, rest);
      LinesCons(p, line, Lines(rest));
      BodylessCons(p, line, Lines(rest));
      NullUrl(p, line, before + m + 2, |rest| + room);
      assert Behind(p, line, rest) == rest;
      PassFirst(p, s, m, line, rest, before, room);
      PassBodyless(AfterLine(p, line), rest, before + m + 2, room);
      ThenIs(LineEvents(p, line, Post(p, rest)), Pass(AfterLine(p, line), rest, before + m + 2, room));
    }
  }
}
