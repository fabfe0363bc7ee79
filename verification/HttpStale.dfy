/**
What `m_url` reads when a request is handed on (src/http/http_conn.cpp:140): in the call that brought the request line,
and in a later one, when the buffer has been shifted under it.
 */
module HttpStale {
  import opened Strings
  import opened HttpText
  import opened HttpMemory
  import opened HttpParser
  import opened HttpPass
  import opened HttpStream
  import opened HttpCalls

  /** The registers at the first blank line that closes a request, and where the bytes behind that line begin. */
  function Closing(t: Parser, u: string): Option<(Parser, nat)>
    decreases |u|
  {
    match FindLine(u, 0)
    case None => None
    case Some(m) =>
      if Closes(t, u[..m]) then Some((t, m + 2))
      else
        match Closing(AfterLine(t, u[..m]), u[m + 2..])
        case None => None
        case Some((t1, e)) => Some((t1, m + 2 + e))
  }

  /** Header lines up to a blank one have lost their CRLFs: the text that then starts `off` bytes in. */
  function HeldAt(u: string, off: nat): string
    decreases |u|
  {
    match FindLine(u, 0)
    case None => TailAt(u, off)
    case Some(m) =>
      if off <= m then u[off..m]
      else if off == m + 1 then ""
      else if m == 0 then TailAt(u, off)
      else HeldAt(u[m + 2..], off - m - 2)
  }

  function TailAt(u: string, off: nat): string {
    if off <= |u| then UpToNul(u[off..]) else ""
  }

  lemma ClosingFirst(t: Parser, u: string, m: nat, line: string, rest: string)
    requires Splits(u, m, line, rest)
    ensures Closes(t, line) ==> Closing(t, u) == Some((t, m + 2))
    ensures !Closes(t, line) ==>
              Closing(t, u) == match Closing(AfterLine(t, line), rest)
                               case None => None
                               case Some((t1, e)) => Some((t1, m + 2 + e))
  {
    hide FindLine, Closes, AfterLine;
  }

  lemma HeldFirst(u: string, m: nat, line: string, rest: string, off: nat)
    requires Splits(u, m, line, rest) && off >= m + 2 && m > 0
    ensures HeldAt(u, off) == HeldAt(rest, off - m - 2)
  {
    hide FindLine, TailAt;
  }

  // ---------------------------------------------------------------- one line

  /** What the blank line hands on, in terms of the buffer it finds. */
  lemma BlankUrl(mem: string, i: nat, regs: Regs)
    requires CrlfAt(mem, i) && Dispatched(CutAt(mem, i), i + 2, regs).Outcome?
    ensures var d, n := Dispatched(CutAt(mem, i), i + 2, regs), regs.contentLength;
            && Requests(d.events) != []
            && Requests(d.events)[0].url == Clip(regs.url, n, i + 2 + n, Deref(CutAt(mem, i), regs.url))
  {
    hide Deref, CutAt, CStr, Clip;
    var d, n := Dispatched(CutAt(mem, i), i + 2, regs), regs.contentLength;
    assert d.events[1..] == [d.events[1]];
    assert Requests(d.events[1..]) == [d.events[1].request] + Requests([]);
    if n != 0 {
      DerefPut(CutAt(mem, i), regs.url, n, i + 2 + n);
    } else {
      NoClip(regs.url, i + 2, Deref(CutAt(mem, i), regs.url));
    }
  }

  /** A header line leaves `m_url` alone and hands nothing on. */
  lemma HeaderKeepsUrl(mem: string, start: nat, i: nat, line: string, regs: Regs)
    requires start <= i && CrlfAt(mem, i) && line == mem[start..i] && line != "" && regs.state == HEADER
    ensures i + 2 <= |mem|
    ensures var o := OneLine(mem, start, i, regs);
            && o.Outcome? && Requests(o.events) == [] && o.regs.url == regs.url && o.regs.state == HEADER
            && o.mem == CutAt(mem, i)
  {
    hide ParseHeader;
    assert Requests([Line(HEADER, line)]) == Requests([Line(HEADER, line)][1..]);
  }

  /** Text of a cut line is out of reach of later lines. */
  lemma HeldTracks(mem: string, start: nat, i: nat, line: string, off: nat)
    requires start <= i && CrlfAt(mem, i) && line == mem[start..i] && NUL !in line && start <= off < i + 2
    ensures i + 2 <= |mem|
    ensures Tracks(CutAt(mem, i), i + 2, At(off), Some(if off <= i then line[off - start..] else ""))
  {
    if off <= i {
      assert CutAt(mem, i)[off..i] == line[off - start..];
    }
  }

  lemma TailRead(mem: string, next: nat, rest: string, room: nat, off: nat)
    requires Holds(mem, next, rest, room) && next <= off
    ensures CStr(mem, off) == TailAt(rest, off - next)
  {
    hide UpToNul;
    var k := off - next;
    if k <= |rest| {
      forall j | 0 <= j < |rest[k..]| ensures mem[off + j] == rest[k..][j] {
        assert mem[next + (k + j)] == rest[k + j];
      }
      CStrHolds(mem, off, rest[k..], room);
    } else if off <= |mem| {
      assert off < |mem| ==> mem[off] == NUL;
    }
  }

  lemma HeldBlank(u: string, rest: string, k: nat)
    requires Splits(u, 0, "", rest)
    ensures HeldAt(u, k) == if k < 2 then "" else TailAt(rest, k - 2)
  {
    hide FindLine, UpToNul;
    if 2 <= k <= |u| {
      assert u[k..] == rest[k - 2..];
    }
  }

  /** Where the blank line stands first: what is behind it is read as it came. */
  lemma BlankHeld(mem: string, start: nat, u: string, room: nat, rest: string, off: nat)
    requires Holds(mem, start, u, room) && Splits(u, 0, "", rest) && start <= off
    ensures CrlfAt(mem, start) && CStr(CutAt(mem, start), off) == HeldAt(u, off - start)
  {
    hide Splits, Holds, HeldAt, TailAt, CStr, CutAt;
    FirstFound(mem, start, u, room, 0, "", rest);
    HeldBlank(u, rest, off - start);
    if off < start + 2 {
      CutReads(mem, start, off);
    } else {
      CutHolds(mem, start, rest, room);
      TailRead(CutAt(mem, start), start + 2, rest, room, off);
    }
  }

  lemma CutReads(mem: string, i: nat, off: nat)
    requires CrlfAt(mem, i) && i <= off < i + 2
    ensures CStr(CutAt(mem, i), off) == ""
  {
    assert CutAt(mem, i)[off] == NUL;
  }

  // ---------------------------------------------------------------- a pass that starts among header lines

  /** A pointer whose text lies before the pass: the request reads it, cut off where its own NUL falls. */
  lemma {:induction false} RunTracked(mem: string, start: nat, regs: Regs, u: string, room: nat, t: Parser,
                                      text: string)
    requires start <= |mem| && Holds(mem, start, u, room) && Sim(regs, t) && t.state == HEADER
    requires Tracks(mem, start, regs.url, Some(text)) && Closing(t, u).Some? && RunLines(mem, start, regs).Outcome?
    ensures var (t1, e) := Closing(t, u).value;
            var n, r := t1.contentLength, Requests(RunLines(mem, start, regs).events);
            r != [] && r[0].url == Clip(regs.url, n, start + e + n, text)
    decreases |u|
  {
    hide *;
    ClosingHasLine(t, u);
    var m, line, rest := Split(u);
    var i := start + m;
    ClosingFirst(t, u, m, line, rest);
    FirstFound(mem, start, u, room, m, line, rest);
    SimState(regs, t);
    ClosesMeans(t, line);
    OneThenRest(mem, start, i, regs);
    var o := OneLine(mem, start, i, regs);
    PrependRequests(o.events, RunLines(o.mem, o.start, o.regs));
    if Closes(t, line) {
      OneBlank(mem, start, i, regs);
      BlankUrl(mem, i, regs);
      CutSame(mem, start, i);
      TracksStays(mem, start, regs.url, Some(text), CutAt(mem, i), i + 2);
      TracksReads(CutAt(mem, i), i + 2, regs.url, Some(text));
      SimLength(regs, t);
    } else {
      HeaderKeepsUrl(mem, start, i, line, regs);
      LineRefines(mem, start, i, line, regs, t);
      CutSame(mem, start, i);
      TracksStays(mem, start, regs.url, Some(text), o.mem, i + 2);
      CutHolds(mem, i, rest, room);
      StillHeader(t, line);
      OneStart(mem, start, i, regs);
      RunTracked(o.mem, o.start, o.regs, rest, room, AfterLine(t, line), text);
    }
  }

  lemma ClosingHasLine(t: Parser, u: string)
    requires Closing(t, u).Some?
    ensures FindLine(u, 0).Some?
  {}

  lemma PrependRequests(events: seq<Event>, o: Outcome)
    ensures o.Outcome? ==>
              && Prepend(events, o).Outcome?
              && Requests(Prepend(events, o).events) == Requests(events) + Requests(o.events)
    ensures Prepend(events, o).Outcome? ==> o.Outcome?
  {
    if o.Outcome? {
      RequestsAppend(events, o.events);
    }
  }

  lemma SimLength(regs: Regs, t: Parser)
    requires Sim(regs, t)
    ensures regs.contentLength == t.contentLength
  {}

  lemma StillHeader(t: Parser, line: string)
    requires t.state == HEADER && line != ""
    ensures AfterLine(t, line).state == HEADER
  {}

  lemma OneStart(mem: string, start: nat, i: nat, regs: Regs)
    requires start <= i && CrlfAt(mem, i) && OneLine(mem, start, i, regs).Outcome?
    ensures OneLine(mem, start, i, regs).start == i + 2 <= |mem| == |OneLine(mem, start, i, regs).mem|
  {}

  /** A pointer into the bytes of the pass itself, left over from an earlier call. */
  lemma {:induction false} RunHeld(mem: string, start: nat, regs: Regs, u: string, room: nat, t: Parser, off: nat)
    requires start <= |mem| && Holds(mem, start, u, room) && Sim(regs, t) && t.state == HEADER
    requires regs.url == At(off) && start <= off && Closing(t, u).Some? && RunLines(mem, start, regs).Outcome?
    ensures var (t1, e) := Closing(t, u).value;
            var n, r := t1.contentLength, Requests(RunLines(mem, start, regs).events);
            r != [] && r[0].url == Clip(At(off), n, start + e + n, HeldAt(u, off - start))
    decreases |u|
  {
    hide *;
    ClosingHasLine(t, u);
    var m, line, rest := Split(u);
    var i := start + m;
    ClosingFirst(t, u, m, line, rest);
    FirstFound(mem, start, u, room, m, line, rest);
    SimState(regs, t);
    ClosesMeans(t, line);
    OneThenRest(mem, start, i, regs);
    var o := OneLine(mem, start, i, regs);
    PrependRequests(o.events, RunLines(o.mem, o.start, o.regs));
    if Closes(t, line) {
      OneBlank(mem, start, i, regs);
      BlankUrl(mem, i, regs);
      BlankHeld(mem, start, u, room, rest, off);
      DerefAt(CutAt(mem, i), off);
      SimLength(regs, t);
    } else {
      HeaderKeepsUrl(mem, start, i, line, regs);
      LineRefines(mem, start, i, line, regs, t);
      CutHolds(mem, i, rest, room);
      StillHeader(t, line);
      OneStart(mem, start, i, regs);
      if off < i + 2 {
        HeldTracks(mem, start, i, line, off);
        HeldHere(u, m, line, rest, off - start);
        RunTracked(o.mem, o.start, o.regs, rest, room, AfterLine(t, line), HeldAt(u, off - start));
      } else {
        HeldFirst(u, m, line, rest, off - start);
        RunHeld(o.mem, o.start, o.regs, rest, room, AfterLine(t, line), off);
      }
    }
  }

  lemma DerefAt(mem: string, off: nat)
    ensures Deref(mem, At(off)) == CStr(mem, off)
  {}

  lemma HeldHere(u: string, m: nat, line: string, rest: string, off: nat)
    requires Splits(u, m, line, rest) && off < m + 2
    ensures |line| == m && HeldAt(u, off) == if off <= m then line[off..] else ""
  {
    hide FindLine, TailAt;
  }

  /** Header lines that close nothing leave `m_url` alone. */
  lemma {:induction false} RunKeepsUrl(mem: string, start: nat, regs: Regs, u: string, room: nat, t: Parser)
    requires start <= |mem| && Holds(mem, start, u, room) && Sim(regs, t) && t.state == HEADER
    requires Closing(t, u).None? && RunLines(mem, start, regs).Outcome?
    ensures var o := RunLines(mem, start, regs); o.regs.url == regs.url && Requests(o.events) == []
    decreases |u|
  {
    hide *;
    if FindLine(u, 0).None? {
      RunEnds(mem, start, regs, u, room);
    } else {
      var m, line, rest := Split(u);
      var i := start + m;
      ClosingFirst(t, u, m, line, rest);
      FirstFound(mem, start, u, room, m, line, rest);
      SimState(regs, t);
      ClosesMeans(t, line);
      OneThenRest(mem, start, i, regs);
      HeaderKeepsUrl(mem, start, i, line, regs);
      LineRefines(mem, start, i, line, regs, t);
      CutHolds(mem, i, rest, room);
      StillHeader(t, line);
      OneStart(mem, start, i, regs);
      var o := OneLine(mem, start, i, regs);
      PrependRequests(o.events, RunLines(o.mem, o.start, o.regs));
      RunKeepsUrl(o.mem, o.start, o.regs, rest, room, AfterLine(t, line));
      PrependRegs(o.events, RunLines(o.mem, o.start, o.regs));
    }
  }

  lemma PrependRegs(events: seq<Event>, o: Outcome)
    requires o.Outcome?
    ensures Prepend(events, o).Outcome? && Prepend(events, o).regs == o.regs
  {}

  lemma RunEnds(mem: string, start: nat, regs: Regs, u: string, room: nat)
    requires start <= |mem| && Holds(mem, start, u, room) && FindLine(u, 0).None? && RunLines(mem, start, regs).Outcome?
    ensures RunLines(mem, start, regs) == Outcome(mem, start, regs, []) && Requests([]) == []
  {
    hide FindLine, Scan;
    ScanIs(mem, start, u, room, 0);
  }

  // ---------------------------------------------------------------- a pass that starts with a request line

  lemma RequestLineSets(mem: string, start: nat, i: nat, line: string, regs: Regs)
    requires start <= i && CrlfAt(mem, i) && line == mem[start..i] && regs.state == REQUESTLINE
    ensures i + 2 <= |mem|
    ensures var o := OneLine(mem, start, i, regs);
            && o.Outcome? && Requests(o.events) == [] && o.regs.url == UrlPtr(line, start) && o.regs.state == HEADER
            && o.mem == Over(CutAt(mem, i), start, Blanked(line))
  {
    hide Blanked, UrlPtr, HasPrefix, CutAt, Over;
    assert Requests([Line(REQUESTLINE, line)]) == Requests([Line(REQUESTLINE, line)][1..]);
  }

  /** The same registers in the end, and the same requests. */
  ghost predicate Continues(o: Outcome, later: Outcome) {
    o.Outcome? && later.Outcome? && o.regs == later.regs && Requests(o.events) == Requests(later.events)
  }

  lemma ContinuesIs(events: seq<Event>, later: Outcome)
    requires Prepend(events, later).Outcome? && Requests(events) == []
    ensures Continues(Prepend(events, later), later)
  {
    hide Requests;
    RequestsAppend(events, later.events);
  }

  lemma ContinuesMeans(o: Outcome, later: Outcome)
    requires Continues(o, later)
    ensures o.Outcome? && later.Outcome? && o.regs == later.regs && Requests(o.events) == Requests(later.events)
  {}

  /** What the pass goes on with after a request line. */
  lemma AfterFirst(mem: string, start: nat, regs: Regs, u: string, room: nat, t: Parser, m: nat, line: string,
                   rest: string)
    requires start <= |mem| && Holds(mem, start, u, room) && Sim(regs, t) && t.state == REQUESTLINE
    requires Splits(u, m, line, rest) && RunLines(mem, start, regs).Outcome?
    ensures start + m + 2 <= |mem| && CrlfAt(mem, start + m) && mem[start..start + m] == line && NUL !in line
    ensures var o := OneLine(mem, start, start + m, regs);
            && o.Outcome? && |o.mem| == |mem| && o.start == start + m + 2 && Holds(o.mem, o.start, rest, room)
            && Sim(o.regs, AfterLine(t, line)) && AfterLine(t, line).state == HEADER
            && o.regs.url == UrlPtr(line, start) && o.mem == Over(CutAt(mem, start + m), start, Blanked(line))
            && Continues(RunLines(mem, start, regs), RunLines(o.mem, o.start, o.regs))
  {
    hide *;
    var i := start + m;
    FirstFound(mem, start, u, room, m, line, rest);
    SimState(regs, t);
    ClosesMeans(t, line);
    OneThenRest(mem, start, i, regs);
    RequestLineSets(mem, start, i, line, regs);
    LineRefines(mem, start, i, line, regs, t);
    LineKeeps(mem, start, i, line, regs, t);
    var o := OneLine(mem, start, i, regs);
    HoldsOutside(mem, o.mem, start, i + 2, rest, room);
    OneStart(mem, start, i, regs);
    SimState(o.regs, AfterLine(t, line));
    ContinuesIs(o.events, RunLines(o.mem, o.start, o.regs));
  }

  // ---------------------------------------------------------------- calls

  lemma CallRun(c: Conn, p: string, room: nat, t: Parser, data: string)
    requires Stands(c, p, room, t) && |data| <= room && p + data != "" && Call(c, data).Some?
    ensures c.readIdx + |data| <= |c.mem|
    ensures var r := Received(c, data);
            && Holds(r.mem, 0, p + data, room - |data|) && |r.mem| == |c.mem| && r.regs == c.regs && Sim(r.regs, t)
            && var o := RunLines(r.mem, 0, r.regs);
               && o.Outcome? && Call(c, data).value.1 == o.events && Call(c, data).value.0.regs == o.regs
  {
    hide Holds, Sim, RunLines, Received;
    StandsMeans(c, p, room, t);
    CallIs(c, p, room, t, data);
  }

  lemma HasBytes(t: Parser, u: string)
    requires Closing(t, u).Some? || FindLine(u, 0).Some?
    ensures u != ""
  {}

  /**
  The request line came in an earlier call: the request is served for the text that this call's bytes, kept and new,
  hold where its path once stood.
   */
  lemma StaleCall(c: Conn, p: string, room: nat, t: Parser, data: string, off: nat)
    requires Stands(c, p, room, t) && |data| <= room && t.state == HEADER && c.regs.url == At(off)
    requires Closing(t, p + data).Some? && Call(c, data).Some?
    ensures var (t1, e) := Closing(t, p + data).value;
            var n, r := t1.contentLength, Requests(Call(c, data).value.1);
            r != [] && r[0].url == Clip(At(off), n, e + n, HeldAt(p + data, off))
  {
    hide *;
    HasBytes(t, p + data);
    CallRun(c, p, room, t, data);
    var r := Received(c, data);
    RunHeld(r.mem, 0, r.regs, p + data, room - |data|, t, off);
  }

  /** A path that is a literal survives. */
  lemma LiteralCall(c: Conn, p: string, room: nat, t: Parser, data: string)
    requires Stands(c, p, room, t) && |data| <= room && t.state == HEADER && c.regs.url == IndexHtml
    requires Closing(t, p + data).Some? && Call(c, data).Some?
    ensures var r := Requests(Call(c, data).value.1); r != [] && r[0].url == "/index.html"
  {
    hide *;
    HasBytes(t, p + data);
    CallRun(c, p, room, t, data);
    var r := Received(c, data);
    TracksLiteral(r.mem);
    RunTracked(r.mem, 0, r.regs, p + data, room - |data|, t, "/index.html");
    ClipLiteral();
  }

  lemma TracksLiteral(mem: string)
    ensures Tracks(mem, 0, IndexHtml, Some("/index.html"))
  {}

  lemma ClipLiteral()
    ensures forall n, end, text :: Clip(IndexHtml, n, end, text) == text
  {}

  /** A call that closes no request leaves `m_url` alone. */
  lemma KeepingCall(c: Conn, p: string, room: nat, t: Parser, data: string)
    requires Stands(c, p, room, t) && |data| <= room && 0 < |c.mem| && t.state == HEADER
    requires Closing(t, p + data).None? && Call(c, data).Some?
    ensures Call(c, data).value.0.regs.url == c.regs.url && Requests(Call(c, data).value.1) == []
  {
    hide *;
    StandsMeans(c, p, room, t);
    if p + data == "" {
      EmptyCall(c, p, room, t, data);
      NoRequests();
    } else {
      CallRun(c, p, room, t, data);
      var r := Received(c, data);
      RunKeepsUrl(r.mem, 0, r.regs, p + data, room - |data|, t);
    }
  }

  /** A call that reads the request line, and nothing that closes it, leaves `m_url` on its target. */
  lemma RequestLineCall(c: Conn, p: string, room: nat, t: Parser, data: string, m: nat, line: string, rest: string)
    requires Stands(c, p, room, t) && |data| <= room && t.state == REQUESTLINE && Splits(p + data, m, line, rest)
    requires Closing(AfterLine(t, line), rest).None? && Call(c, data).Some?
    ensures Call(c, data).value.0.regs.url == UrlPtr(line, 0) && Requests(Call(c, data).value.1) == []
  {
    hide *;
    SplitsLine(p + data, m, line, rest);
    HasBytes(t, p + data);
    CallRun(c, p, room, t, data);
    var r := Received(c, data);
    AfterFirst(r.mem, 0, r.regs, p + data, room - |data|, t, m, line, rest);
    var o := OneLine(r.mem, 0, m, r.regs);
    ContinuesMeans(RunLines(r.mem, 0, r.regs), RunLines(o.mem, o.start, o.regs));
    HoldsSize(o.mem, m + 2, rest, room - |data|);
    RunKeepsUrl(o.mem, m + 2, o.regs, rest, room - |data|, AfterLine(t, line));
  }

  lemma SplitsLine(u: string, m: nat, line: string, rest: string)
    requires Splits(u, m, line, rest)
    ensures FindLine(u, 0) == Some(m) && |line| == m
  {}

  /** A call that completes no line changes no register. */
  lemma IdleCall(c: Conn, p: string, room: nat, t: Parser, data: string)
    requires Stands(c, p, room, t) && |data| <= room && 0 < |c.mem| && FindLine(p + data, 0).None? &&
             Call(c, data).Some?
    ensures Requests(Call(c, data).value.1) == []
  {
    hide *;
    StandsMeans(c, p, room, t);
    if p + data == "" {
      EmptyCall(c, p, room, t, data);
      NoRequests();
    } else {
      CallRun(c, p, room, t, data);
      var r := Received(c, data);
      HoldsSize(r.mem, 0, p + data, room - |data|);
      RunEnds(r.mem, 0, r.regs, p + data, room - |data|);
    }
  }

  // ---------------------------------------------------------------- one call is enough

  /**
  Request line and headers in one call, on any connection between two requests: the path of the first is the one asked
  for, unless a negative length puts its NUL into it.
   */
  lemma UrlOfOneCall(c: Conn, p: string, room: nat, t: Parser, data: string, m: nat, line: string, rest: string)
    requires Stands(c, p, room, t) && |data| <= room && t.state == REQUESTLINE
    requires Splits(p + data, m, line, rest) && FirstBlank(line) < |line|
    requires Closing(AfterLine(t, line), rest).Some? && Sound(t, p + data, 0, room - |data|)
    ensures c.readIdx + |data| <= |c.mem| && Call(c, data).Some?
    ensures var (t1, e) := Closing(AfterLine(t, line), rest).value;
            var n, b, r := t1.contentLength, FirstBlank(line), Requests(Call(c, data).value.1);
            && r != [] && r[0].url == Clip(UrlPtr(line, 0), n, m + 2 + e + n, Path(line))
            && (r[0].url == Path(line) <==>
                  !(n < 0 && RawPath(line) != "/" && b + 1 <= m + 2 + e + n < b + 1 + |RawPath(line)|))
  {
    hide *;
    StandsMeans(c, p, room, t);
    SplitsLine(p + data, m, line, rest);
    HasBytes(t, p + data);
    CallIs(c, p, room, t, data);
    CallSucceeds(c, p, room, t, data);
    CallRun(c, p, room, t, data);
    var r := Received(c, data);
    AfterFirst(r.mem, 0, r.regs, p + data, room - |data|, t, m, line, rest);
    var o := OneLine(r.mem, 0, m, r.regs);
    ContinuesMeans(RunLines(r.mem, 0, r.regs), RunLines(o.mem, o.start, o.regs));
    HoldsSize(o.mem, m + 2, rest, room - |data|);
    CutEnds(r.mem, 0, m, line);
    UrlTracks(CutAt(r.mem, m), 0, line, m + 2);
    RunTracked(o.mem, m + 2, o.regs, rest, room - |data|, AfterLine(t, line), Path(line));
    ClosingBehind(AfterLine(t, line), rest);
    PathFits(line);
    var (t1, e) := Closing(AfterLine(t, line), rest).value;
    PathClips(line, t1.contentLength, m + 2, m + 2 + e + t1.contentLength);
  }

  lemma StartState()
    ensures START.state == REQUESTLINE
  {}

  lemma ClosingBehind(t: Parser, u: string)
    requires Closing(t, u).Some?
    ensures Closing(t, u).value.1 >= 2
  {}

  lemma PathClips(line: string, n: int, next: nat, end: int)
    requires FirstBlank(line) < |line| && (0 <= n ==> next <= end) && FirstBlank(line) + 1 + |RawPath(line)| <= next
    ensures var b := FirstBlank(line);
            Clip(UrlPtr(line, 0), n, end, Path(line)) == Path(line) <==>
              !(n < 0 && RawPath(line) != "/" && b + 1 <= end < b + 1 + |RawPath(line)|)
  {
    hide FirstBlank, RawPath;
  }

  lemma PathFits(line: string)
    requires FirstBlank(line) < |line|
    ensures FirstBlank(line) + 1 + |RawPath(line)| <= |line|
  {
    hide FirstBlank, QueryAt;
  }

  // ---------------------------------------------------------------- the request line in an earlier call

  lemma {:induction false} NoBlankLine(t: Parser, s: string)
    requires NUL !in s && t.state == HEADER && "" !in Lines(s)
    ensures Closing(t, s).None? && Orderly(t, Lines(s)) && AfterLines(t, Lines(s)).state == HEADER
    decreases |s|
  {
    hide *;
    if FindLine(s, 0).None? {
      LinesNone(s);
      LinesNil(t);
      ClosingNone(t, s);
    } else {
      var m, line, rest := Split(s);
      LinesFirst(s, m, line, rest);
      assert line in [line] + Lines(rest) && forall l | l in Lines(rest) :: l in [line] + Lines(rest);
      LinesCons(t, line, Lines(rest));
      ClosesMeans(t, line);
      ClosingFirst(t, s, m, line, rest);
      StillHeader(t, line);
      NoBlankLine(AfterLine(t, line), rest);
    }
  }

  lemma ClosingNone(t: Parser, s: string)
    requires FindLine(s, 0).None?
    ensures Closing(t, s).None?
  {}

  /** Waiting for more headers, over any number of calls: nothing is handed on and `m_url` stays. */
  lemma {:induction false} CallsKeepUrl(c: Conn, p: string, room: nat, t: Parser, chunks: seq<string>)
    requires Stands(c, p, room, t) && 0 < |c.mem| && NUL !in p && FindCrlf(p, 0).None? && Fit(|c.mem|, p, chunks)
    requires t.state == HEADER && "" !in Lines(p + Concat(chunks))
    ensures Calls(c, chunks).Some?
    ensures Calls(c, chunks).value.0.regs.url == c.regs.url && Requests(Calls(c, chunks).value.1) == []
    decreases |chunks|
  {
    hide *;
    if chunks == [] {
      CallsEmpty(c);
      NoRequests();
    } else {
      StandsMeans(c, p, room, t);
      FitFirst(|c.mem|, p, chunks);
      var s, later := p + chunks[0], chunks[1..];
      ConcatFirst(p, chunks);
      SplitAppend(s, Concat(later));
      NoNulIn(p, chunks[0]);
      NotInSum(Lines(s), Lines(Rest(s) + Concat(later)));
      NoBlankLine(t, s);
      CallDelivers(c, p, room, t, chunks[0]);
      DeliversMeans(Call(c, chunks[0]), |c.mem|, s, t);
      KeepingCall(c, p, room, t, chunks[0]);
      RestHasNoLine(s);
      var d := Call(c, chunks[0]).value.0;
      CallsKeepUrl(d, Rest(s), |c.mem| - |Rest(s)|, AfterLines(t, Lines(s)), later);
      CallsMore(c, chunks);
      RequestsAppend(Call(c, chunks[0]).value.1, Calls(d, later).value.1);
    }
  }

  lemma NotInSum(x: seq<string>, y: seq<string>)
    requires "" !in x + y
    ensures "" !in x && "" !in y
  {
    assert forall l | l in x :: l in x + y;
    assert forall l | l in y :: l in x + y;
  }

  /** From a fresh connection to a request line and headers that are still open, over any number of calls. */
  lemma {:induction false} CallsSetUrl(c: Conn, p: string, room: nat, t: Parser, chunks: seq<string>, line: string,
                                      headers: seq<string>)
    requires Stands(c, p, room, t) && 0 < |c.mem| && NUL !in p && FindCrlf(p, 0).None? && Fit(|c.mem|, p, chunks)
    requires t.state == REQUESTLINE && Lines(p + Concat(chunks)) == [line] + headers && "" !in headers
    ensures Calls(c, chunks).Some?
    ensures Calls(c, chunks).value.0.regs.url == UrlPtr(line, 0) && Requests(Calls(c, chunks).value.1) == []
    decreases |chunks|
  {
    hide *;
    if chunks == [] {
      NoChunks(p, line, headers);
    } else {
      StandsMeans(c, p, room, t);
      FitFirst(|c.mem|, p, chunks);
      var s, later := p + chunks[0], chunks[1..];
      ConcatFirst(p, chunks);
      SplitAppend(s, Concat(later));
      NoNulIn(p, chunks[0]);
      var d0 := Call(c, chunks[0]);
      if FindLine(s, 0).None? {
        LinesNone(s);
        LinesNil(t);
        CallDelivers(c, p, room, t, chunks[0]);
        DeliversMeans(d0, |c.mem|, s, t);
        IdleCall(c, p, room, t, chunks[0]);
        RestHasNoLine(s);
        NothingBefore(Lines(s + Concat(later)));
        CallsSetUrl(d0.value.0, s, |c.mem| - |s|, t, later, line, headers);
      } else {
        var m, first, rest := Split(s);
        LinesFirst(s, m, first, rest);
        FirstOfSum(first, Lines(rest), Lines(Rest(s) + Concat(later)), line, headers);
        LinesCons(t, line, Lines(rest));
        ClosesMeans(t, line);
        RequestLineNext(t, line);
        NoBlankLine(AfterLine(t, line), rest);
        CallDelivers(c, p, room, t, chunks[0]);
        DeliversMeans(d0, |c.mem|, s, t);
        RequestLineCall(c, p, room, t, chunks[0], m, line, rest);
        RestHasNoLine(s);
        CallsKeepUrl(d0.value.0, Rest(s), |c.mem| - |Rest(s)|, AfterLines(t, Lines(s)), later);
      }
      CallsMore(c, chunks);
      RequestsAppend(d0.value.1, Calls(d0.value.0, later).value.1);
    }
  }

  lemma NoChunks(p: string, line: string, headers: seq<string>)
    requires FindCrlf(p, 0).None?
    ensures Lines(p + Concat([])) != [line] + headers
  {
    assert p + Concat([]) == p;
  }

  lemma NothingBefore(x: seq<string>)
    ensures [] + x == x
  {}

  lemma FirstOfSum(first: string, x: seq<string>, y: seq<string>, line: string, headers: seq<string>)
    requires [first] + x + y == [line] + headers && "" !in headers
    ensures first == line && x + y == headers && "" !in x && "" !in y
  {
    assert ([first] + x + y)[0] == first && ([line] + headers)[0] == line;
    assert ([first] + x + y)[1..] == x + y && ([line] + headers)[1..] == headers;
    NotInSum(x, y);
  }

  lemma RequestLineNext(t: Parser, line: string)
    requires t.state == REQUESTLINE
    ensures AfterLine(t, line).state == HEADER
  {}

  // ---------------------------------------------------------------- the blank line in a later call

  /** The text that stands where the path of `line` once stood, when the call works on the bytes `u`. */
  function Instead(line: string, u: string, t: Parser): string
    requires Closing(t, u).Some?
  {
    var (t1, e) := Closing(t, u).value;
    var at := FirstBlank(line) + 1;
    Clip(At(at), t1.contentLength, e + t1.contentLength, HeldAt(u, at))
  }

  /**
  A request whose request line, and any of its headers, came in earlier calls, and whose blank line comes in this one
  with any bytes before and behind it: it is served for its path exactly when that is "/" and hence a literal, or the
  bytes of this call happen to spell it where it once stood.
   */
  lemma StaleUrl(size: nat, early: seq<string>, line: string, headers: seq<string>, data: string)
    requires 0 < size && Fit(size, "", early) && Lines(Concat(early)) == [line] + headers && "" !in headers
    requires FirstBlank(line) < |line|
    requires var u, t := Rest(Concat(early)) + data, AfterLines(START, [line] + headers);
             |u| <= size && Closing(t, u).Some? && Sound(t, u, 0, size - |u|)
    ensures var u, t, c := Rest(Concat(early)) + data, AfterLines(START, [line] + headers), Calls(Fresh(size), early);
            && c.Some? && Requests(c.value.1) == [] && c.value.0.readIdx + |data| <= |c.value.0.mem|
            && var now := Call(c.value.0, data);
               && now.Some? && Requests(now.value.1) != []
               && var served := Requests(now.value.1)[0].url;
                  && served == (if RawPath(line) == "/" then "/index.html" else Instead(line, u, t))
                  && (served == Path(line) <==> RawPath(line) == "/" || Instead(line, u, t) == RawPath(line))
  {
    hide *;
    var s, t := Concat(early), AfterLines(START, [line] + headers);
    var kept := Rest(s);
    assert "" + s == s;
    StartState();
    FreshStands(size);
    NoLineYet();
    CallsSetUrl(Fresh(size), "", size, START, early, line, headers);
    LinesCons(START, line, headers);
    ClosesMeans(START, line);
    RequestLineNext(START, line);
    HeadersOrderly(AfterLine(START, line), headers);
    StreamRefines(Fresh(size), "", size, START, early);
    var c := Calls(Fresh(size), early).value.0;
    DeliversMeans(Calls(Fresh(size), early), size, s, START);
    StandsMeans(c, kept, size - |kept|, t);
    CallSucceeds(c, kept, size - |kept|, t, data);
    UrlOfLine(line);
    if RawPath(line) == "/" {
      LiteralCall(c, kept, size - |kept|, t, data);
    } else {
      StaleCall(c, kept, size - |kept|, t, data, FirstBlank(line) + 1);
      InsteadIs(line, kept + data, t);
    }
  }

  lemma NoLineYet()
    ensures FindCrlf("", 0).None? && NUL !in ""
  {}

  lemma {:induction false} HeadersOrderly(t: Parser, headers: seq<string>)
    requires t.state == HEADER && "" !in headers
    ensures Orderly(t, headers) && AfterLines(t, headers).state == HEADER
    decreases |headers|
  {
    hide *;
    if headers == [] {
      LinesNil(t);
    } else {
      var line, later := headers[0], headers[1..];
      assert headers == [line] + later && line in headers && forall l | l in later :: l in headers;
      LinesCons(t, line, later);
      ClosesMeans(t, line);
      StillHeader(t, line);
      HeadersOrderly(AfterLine(t, line), later);
    }
  }

  lemma UrlOfLine(line: string)
    requires FirstBlank(line) < |line|
    ensures UrlPtr(line, 0) == if RawPath(line) == "/" then IndexHtml else At(FirstBlank(line) + 1)
    ensures Path(line) == if RawPath(line) == "/" then "/index.html" else RawPath(line)
  {
    hide FirstBlank, RawPath;
  }

  lemma InsteadIs(line: string, u: string, t: Parser)
    requires Closing(t, u).Some?
    ensures var (t1, e) := Closing(t, u).value;
            Instead(line, u, t) ==
            Clip(At(FirstBlank(line) + 1), t1.contentLength, e + t1.contentLength, HeldAt(u, FirstBlank(line) + 1))
  {
    hide FirstBlank, HeldAt, Clip, Closing;
  }
}
