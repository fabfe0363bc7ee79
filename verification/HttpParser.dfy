/** The memory level of the request parser reads what the text level says. */
module HttpParser {
  import opened Strings
  import opened HttpText
  import opened HttpMemory
  import opened HttpPass

  /** From `start` on the buffer holds `u`, and then `room` zeros. */
  ghost predicate Holds(mem: string, start: nat, u: string, room: nat) {
    && start + |u| + room == |mem|
    && (forall j | 0 <= j < |u| :: mem[start + j] == u[j])
    && (forall j | start + |u| <= j < |mem| :: mem[j] == NUL)
  }

  /** The value registers agree; the pointers are set when the texts are. */
  ghost predicate Sim(regs: Regs, t: Parser) {
    && regs.state == t.state && regs.isPost == t.isPost && regs.contentLength == t.contentLength
    && regs.keepAlive == t.keepAlive
    && (regs.url == Null <==> t.url == None) && (regs.token == Null <==> t.token == None)
  }

  /** The pointer reads the text, and everything it reads lies before `start`, where the scan never returns. */
  ghost predicate Tracks(mem: string, start: nat, p: Ptr, text: Option<string>) {
    match p
    case Null => text == None
    case IndexHtml => text == Some("/index.html")
    case At(off) =>
      && text.Some? && NUL !in text.value && off + |text.value| < start <= |mem|
      && mem[off..off + |text.value|] == text.value && mem[off + |text.value|] == NUL
  }

  lemma {:induction false} StrLenIs(mem: string, off: nat, s: string)
    requires off + |s| < |mem| && mem[off..off + |s|] == s && mem[off + |s|] == NUL && NUL !in s
    ensures StrLen(mem, off) == |s|
    decreases |s|
  {}

  lemma TracksReads(mem: string, start: nat, p: Ptr, text: Option<string>)
    requires Tracks(mem, start, p, text)
    ensures text.Some? ==> Deref(mem, p) == text.value
  {}

  /** Two buffers that differ between `lo` and `hi` at most. */
  ghost predicate SameOutside(a: string, b: string, lo: nat, hi: nat) {
    |a| == |b| && forall j | 0 <= j < |a| && !(lo <= j < hi) :: a[j] == b[j]
  }

  ghost predicate SameBefore(a: string, b: string, n: nat) {
    |a| == |b| && forall j | 0 <= j < |a| && j < n :: a[j] == b[j]
  }

  /** What a pointer reads is out of reach of later lines. */
  lemma TracksStays(mem: string, start: nat, p: Ptr, text: Option<string>, mem': string, start': nat)
    requires Tracks(mem, start, p, text) && start <= start' <= |mem| && SameBefore(mem, mem', start)
    ensures Tracks(mem', start', p, text)
  {}

  /** Where `parse_request_line` puts its NULs: before the target, behind it, and at its question mark. */
  lemma BlankedAt(line: string, b: nat, v: nat, q: nat)
    requires b == FirstBlank(line) < |line|
    requires v == FirstBlank(line[b + 1..]) && q == QueryAt(line[b + 1..][..v])
    ensures q <= v && b + 1 + v <= |line|
    ensures forall j | 0 <= j < |line| ::
              Blanked(line)[j] == if j == b || j == b + 1 + v || j == b + 1 + q then NUL else line[j]
  {
    hide *;
    BlankedIs(line, b, v, q);
  }

  lemma BlankedIs(line: string, b: nat, v: nat, q: nat)
    requires b == FirstBlank(line) < |line|
    requires v == FirstBlank(line[b + 1..]) && q == QueryAt(line[b + 1..][..v])
    ensures q <= v && b + 1 + v <= |line|
    ensures var split := Put(Put(line, b), b + 1 + v); Blanked(line) == if q < v then Put(split, b + 1 + q) else split
  {
    hide FirstBlank, QueryAt, Put;
  }

  lemma RawPathAt(line: string, b: nat, v: nat, q: nat)
    requires b == FirstBlank(line) < |line|
    requires v == FirstBlank(line[b + 1..]) && q == QueryAt(line[b + 1..][..v])
    ensures RawPath(line) == line[b + 1..b + 1 + q]
  {
    hide FirstBlank, QueryAt;
    assert line[b + 1..][..v][..q] == line[b + 1..b + 1 + q];
  }

  /** `parse_request_line` leaves the path as a C string. */
  lemma BlankedPath(line: string)
    requires NUL !in line && FirstBlank(line) < |line|
    ensures var b, p, r := FirstBlank(line) + 1, RawPath(line), Blanked(line);
            && b + |p| <= |line| && r[b..b + |p|] == p && NUL !in p
            && (b + |p| < |line| ==> r[b + |p|] == NUL)
  {
    hide *;
    var b := FirstBlank(line);
    var v := FirstBlank(line[b + 1..]);
    var q := QueryAt(line[b + 1..][..v]);
    BlankedAt(line, b, v, q);
    RawPathAt(line, b, v, q);
    PathAmongNuls(line, Blanked(line), b, v, q);
  }

  lemma PathAmongNuls(line: string, r: string, b: nat, v: nat, q: nat)
    requires NUL !in line && |r| == |line| && q <= v && b + 1 + v <= |line|
    requires forall j | 0 <= j < |line| :: r[j] == if j == b || j == b + 1 + v || j == b + 1 + q then NUL else line[j]
    ensures r[b + 1..b + 1 + q] == line[b + 1..b + 1 + q] && NUL !in line[b + 1..b + 1 + q]
    ensures b + 1 + q < |line| ==> r[b + 1 + q] == NUL
  {}

  lemma UrlPtrNull(line: string, start: nat)
    ensures UrlPtr(line, start) == Null <==> FirstBlank(line) == |line|
  {}

  lemma UrlTracksPath(cut: string, start: nat, line: string)
    requires NUL !in line && start + |line| + 2 <= |cut| && cut[start + |line|] == NUL && FirstBlank(line) < |line|
    ensures Tracks(Over(cut, start, Blanked(line)), start + |line| + 2,
                   At(start + FirstBlank(line) + 1), Some(RawPath(line)))
  {
    hide *;
    BlankedPath(line);
    var b, r, p := FirstBlank(line) + 1, Blanked(line), RawPath(line);
    PathInBuffer(cut, start, r, b, p);
  }

  lemma UrlTracks(cut: string, start: nat, line: string, next: nat)
    requires NUL !in line && next == start + |line| + 2 <= |cut| && cut[start + |line|] == NUL
    ensures Tracks(Over(cut, start, Blanked(line)), next, UrlPtr(line, start),
                   if FirstBlank(line) < |line| then Some(Path(line)) else None)
  {
    hide *;
    if FirstBlank(line) < |line| {
      UrlTracksPath(cut, start, line);
    }
    UrlOf(Over(cut, start, Blanked(line)), start, line, next);
  }

  lemma UrlOf(mem: string, start: nat, line: string, next: nat)
    requires FirstBlank(line) < |line| ==> Tracks(mem, next, At(start + FirstBlank(line) + 1), Some(RawPath(line)))
    ensures Tracks(mem, next, UrlPtr(line, start), if FirstBlank(line) < |line| then Some(Path(line)) else None)
  {}

  lemma PathInBuffer(cut: string, start: nat, r: string, b: nat, p: string)
    requires start + |r| + 2 <= |cut| && cut[start + |r|] == NUL
    requires b + |p| <= |r| && r[b..b + |p|] == p && NUL !in p && (b + |p| < |r| ==> r[b + |p|] == NUL)
    ensures Tracks(Over(cut, start, r), start + |r| + 2, At(start + b), Some(p))
  {}

  lemma TokenTracks(cut: string, start: nat, line: string, off: nat, next: nat)
    requires NUL !in line && off <= |line| && next == start + |line| + 2 <= |cut| && cut[start + |line|] == NUL
    requires cut[start..start + |line|] == line
    ensures Tracks(cut, next, At(start + off), Some(line[off..]))
  {}

  // ---------------------------------------------------------------- one line

  /** The same event without the strings read through pointers. */
  function Mask(e: Event): Event {
    match e
    case Line(_, _) => e
    case Dispatch(r) => Dispatch(r.(url := "", token := None))
  }

  lemma OverKeeps(mem: string, i: nat, start: nat, s: string)
    requires i + 1 < |mem| && start + |s| == i
    ensures SameOutside(mem, CutAt(mem, i), start, i + 2)
    ensures SameOutside(mem, Over(CutAt(mem, i), start, s), start, i + 2)
  {}

  /** What a line leaves alone: the buffer before it and behind it. */
  lemma LineKeeps(mem: string, start: nat, i: nat, line: string, regs: Regs, t: Parser)
    requires start <= i && CrlfAt(mem, i) && line == mem[start..i] && Sim(regs, t) && !Closes(t, line)
    ensures var o := OneLine(mem, start, i, regs); o.Outcome? && SameOutside(mem, o.mem, start, i + 2)
  {
    hide SameOutside, CutAt, Over, Blanked, UrlPtr, HeaderRegs, HasPrefix, Deref, CStr;
    OverKeeps(mem, i, start, Blanked(line));
  }

  lemma HeaderSim(line: string, start: nat, regs: Regs, t: Parser)
    requires Sim(regs, t) && t.state == HEADER && line != ""
    ensures Sim(HeaderRegs(line, start, regs), AfterLine(t, line))
  {
    hide ParseHeader;
  }

  /** A line that closes no request: the same event and the same registers. */
  lemma LineRefines(mem: string, start: nat, i: nat, line: string, regs: Regs, t: Parser)
    requires start <= i && CrlfAt(mem, i) && line == mem[start..i] && Sim(regs, t) && !Closes(t, line)
    ensures var o := OneLine(mem, start, i, regs);
            o.Outcome? && Sim(o.regs, AfterLine(t, line)) && o.events == [Line(t.state, line)]
  {
    hide HasPrefix, FirstBlank, Blanked, Path, CutAt, Deref, CStr, Over, ParseHeader, HeaderRegs, UrlPtr;
    if regs.state == REQUESTLINE {
      UrlPtrNull(line, start);
    } else {
      HeaderSim(line, start, regs, t);
    }
  }

  // ---------------------------------------------------------------- the blank line

  lemma {:induction false} CStrHolds(mem: string, start: nat, u: string, room: nat)
    requires Holds(mem, start, u, room)
    ensures CStr(mem, start) == UpToNul(u)
    decreases |u|
  {
    hide Holds, CStr, UpToNul;
    if u == "" {
      CStrAtZeros(mem, start, room);
    } else {
      HoldsTail(mem, start, u, room);
      CStrStep(mem, start, u);
      if u[0] != NUL {
        CStrHolds(mem, start + 1, u[1..], room);
      }
    }
  }

  lemma CStrAtZeros(mem: string, start: nat, room: nat)
    requires Holds(mem, start, "", room)
    ensures CStr(mem, start) == "" == UpToNul("")
  {}

  lemma HoldsTail(mem: string, start: nat, u: string, room: nat)
    requires Holds(mem, start, u, room) && u != ""
    ensures start < |mem| && mem[start] == u[0] && Holds(mem, start + 1, u[1..], room)
  {
    assert mem[start + 0] == u[0];
    forall j | 0 <= j < |u[1..]| ensures mem[start + 1 + j] == u[1..][j] {
      assert mem[start + (1 + j)] == u[1 + j];
    }
  }

  lemma CStrStep(mem: string, start: nat, u: string)
    requires u != "" && start < |mem| && mem[start] == u[0]
    ensures u[0] == NUL ==> CStr(mem, start) == "" == UpToNul(u)
    ensures u[0] != NUL ==> CStr(mem, start) == [u[0]] + CStr(mem, start + 1) && UpToNul(u) == [u[0]] + UpToNul(u[1..])
  {
    var end := start + StrLen(mem, start);
    assert mem[start..end] == if mem[start] == NUL then "" else [mem[start]] + mem[start + 1..end];
  }

  /** The NUL behind a body, in the buffer and in the text. */
  lemma TerminatedHolds(mem: string, next: nat, rest: string, room: nat, n: int)
    requires Holds(mem, next, rest, room) && Inside(n, next, |rest| + room)
    ensures Holds(if n != 0 then mem[next + n := NUL] else mem, next, Terminated(rest, n), room)
  {}

  lemma CutHolds(mem: string, i: nat, rest: string, room: nat)
    requires CrlfAt(mem, i) && Holds(mem, i + 2, rest, room)
    ensures Holds(CutAt(mem, i), i + 2, rest, room)
  {}

  /** The blank line: a fault, or the same request up to what is read through pointers, and the same registers. */
  lemma BlankRefines(mem: string, i: nat, rest: string, room: nat, regs: Regs, t: Parser)
    requires CrlfAt(mem, i) && Holds(mem, i + 2, rest, room) && Sim(regs, t) && t.state == HEADER
    ensures var d := Dispatched(CutAt(mem, i), i + 2, regs);
            if Allowed(t, "", i + 2, |rest| + room) then
              && d.Outcome? && d.start == i + 2 && Holds(d.mem, i + 2, Behind(t, "", rest), room)
              && Sim(d.regs, AfterLine(t, ""))
              && Map(Mask, d.events) == Map(Mask, LineEvents(t, "", Post(t, Behind(t, "", rest))))
            else d == Fault
  {
    hide CutAt, Holds, Deref, CStr, Terminated, UpToNul;
    CutHolds(mem, i, rest, room);
    HoldsSize(CutAt(mem, i), i + 2, rest, room);
    if Inside(t.contentLength, i + 2, |rest| + room) {
      TerminatedHolds(CutAt(mem, i), i + 2, rest, room, t.contentLength);
      var n := t.contentLength;
      CStrHolds(if n != 0 then CutAt(mem, i)[i + 2 + n := NUL] else CutAt(mem, i), i + 2, Terminated(rest, n), room);
    }
  }

  lemma HoldsSize(mem: string, start: nat, u: string, room: nat)
    requires Holds(mem, start, u, room)
    ensures |mem| == start + |u| + room
  {}

  /** A text read through `p` once a NUL is put `n` bytes behind a blank line, at `end`. */
  function Clip(p: Ptr, n: int, end: int, text: string): string {
    if n != 0 && p.At? && p.off <= end < p.off + |text| then text[..end - p.off] else text
  }

  lemma {:induction false} StrLenPut(mem: string, off: nat, end: nat)
    requires off <= |mem| && end < |mem|
    ensures var n := StrLen(mem, off); StrLen(mem[end := NUL], off) == if off <= end < off + n then end - off else n
    decreases |mem| - off
  {
    if off < |mem| && mem[off] != NUL && off != end {
      StrLenPut(mem, off + 1, end);
    }
  }

  lemma DerefPut(mem: string, p: Ptr, n: int, end: nat)
    requires end < |mem|
    ensures Deref(if n != 0 then mem[end := NUL] else mem, p) == Clip(p, n, end, Deref(mem, p))
  {
    if n != 0 && p.At? && p.off <= |mem| {
      StrLenPut(mem, p.off, end);
    }
  }

  /**
  What a blank line hands on through a pointer that was exact before it: the text, cut off where the NUL of
  src/http/http_conn.cpp:137 falls into it.
   */
  lemma DispatchReads(mem: string, start: nat, i: nat, regs: Regs, t: Parser)
    requires start <= i && CrlfAt(mem, i) && Sim(regs, t) && t.state == HEADER
    requires Allowed(t, "", i + 2, |mem| - i - 2)
    ensures var d, n, end := Dispatched(CutAt(mem, i), i + 2, regs), t.contentLength, i + 2 + t.contentLength;
            && d.Outcome? && |d.events| == 2 && d.events[1].Dispatch?
            && var q := d.events[1].request;
               && (Tracks(mem, start, regs.url, t.url) ==> q.url == Clip(regs.url, n, end, t.url.value))
               && (Tracks(mem, start, regs.token, t.token) ==>
                     q.token == (if t.token == None then None else Some(Clip(regs.token, n, end, t.token.value))))
  {
    hide Tracks, Deref, CutAt, SameBefore, CStr, Clip;
    var cut, n := CutAt(mem, i), t.contentLength;
    CutSame(mem, start, i);
    if Tracks(mem, start, regs.url, t.url) {
      TracksStays(mem, start, regs.url, t.url, cut, i + 2);
      TracksReads(cut, i + 2, regs.url, t.url);
    }
    if Tracks(mem, start, regs.token, t.token) {
      TracksStays(mem, start, regs.token, t.token, cut, i + 2);
      TracksReads(cut, i + 2, regs.token, t.token);
    }
    if n != 0 {
      DerefPut(cut, regs.url, n, i + 2 + n);
      DerefPut(cut, regs.token, n, i + 2 + n);
    } else {
      NoClip(regs.url, i + 2, Deref(cut, regs.url));
      NoClip(regs.token, i + 2, Deref(cut, regs.token));
    }
  }

  lemma CutSame(mem: string, start: nat, i: nat)
    requires start <= i && CrlfAt(mem, i)
    ensures SameBefore(mem, CutAt(mem, i), start) && i + 2 <= |mem| == |CutAt(mem, i)|
  {}

  lemma NoClip(p: Ptr, end: int, text: string)
    ensures Clip(p, 0, end, text) == text
  {}

  /** A length of zero or more cuts nothing off, a negative one does exactly when the NUL falls into the text. */
  lemma ClipsWhen(mem: string, start: nat, p: Ptr, text: string, n: int, end: int)
    requires Tracks(mem, start, p, Some(text)) && (0 <= n ==> start <= end)
    ensures Clip(p, n, end, text) == text <==> !(n < 0 && p.At? && p.off <= end < p.off + |text|)
  {}

  /** A request is handed on with its own path exactly when its length is not negative, or the NUL misses the path. */
  lemma UrlSurvives(mem: string, start: nat, i: nat, regs: Regs, t: Parser)
    requires start <= i && CrlfAt(mem, i) && Sim(regs, t) && t.state == HEADER
    requires Tracks(mem, start, regs.url, t.url) && Allowed(t, "", i + 2, |mem| - i - 2)
    ensures var d, n, end := Dispatched(CutAt(mem, i), i + 2, regs), t.contentLength, i + 2 + t.contentLength;
            && d.Outcome? && |d.events| == 2 && d.events[1].Dispatch?
            && (d.events[1].request.url == t.url.value <==>
                  !(n < 0 && regs.url.At? && regs.url.off <= end < regs.url.off + |t.url.value|))
  {
    hide Tracks, Deref, CutAt, CStr, Clip, Dispatched;
    DispatchReads(mem, start, i, regs, t);
    ClipsWhen(mem, start, regs.url, t.url.value, t.contentLength, i + 2 + t.contentLength);
  }

  // ---------------------------------------------------------------- the pointers after a line

  /** A pointer set before the line still reads what it read. */
  lemma OldPointer(mem: string, start: nat, i: nat, line: string, regs: Regs, t: Parser, p: Ptr, text: Option<string>)
    requires start <= i && CrlfAt(mem, i) && line == mem[start..i] && Sim(regs, t) && !Closes(t, line)
    requires Tracks(mem, start, p, text)
    ensures var o := OneLine(mem, start, i, regs); o.Outcome? && Tracks(o.mem, i + 2, p, text)
  {
    hide OneLine, Tracks;
    LineKeeps(mem, start, i, line, regs, t);
    TracksStays(mem, start, p, text, OneLine(mem, start, i, regs).mem, i + 2);
  }

  lemma CutEnds(mem: string, start: nat, i: nat, line: string)
    requires start <= i && i + 1 < |mem| && line == mem[start..i]
    ensures CutAt(mem, i)[start + |line|] == NUL
    ensures CutAt(mem, i)[start..start + |line|] == line
  {}

  lemma AfterRequestLine(mem: string, start: nat, i: nat, line: string, regs: Regs, t: Parser)
    requires start <= i && CrlfAt(mem, i) && line == mem[start..i] && regs.state == t.state == REQUESTLINE
    ensures i + 1 < |mem| && |line| == i - start
    ensures var o, p := OneLine(mem, start, i, regs), AfterLine(t, line);
            && o.Outcome? && o.mem == Over(CutAt(mem, i), start, Blanked(line))
            && o.regs.url == UrlPtr(line, start) && o.regs.token == regs.token
            && p.url == (if FirstBlank(line) < |line| then Some(Path(line)) else None) && p.token == t.token
  {}

  lemma AfterHeader(mem: string, start: nat, i: nat, line: string, regs: Regs)
    requires start <= i && CrlfAt(mem, i) && line == mem[start..i] && line != "" && regs.state == HEADER
    ensures i + 1 < |mem| && |line| == i - start
    ensures var o := OneLine(mem, start, i, regs);
            o.Outcome? && o.mem == CutAt(mem, i) && o.regs == HeaderRegs(line, start, regs)
  {}

  /** A request line sets `m_url`, and nothing else. */
  predicate SetsUrl(e: Event) {
    e.Line? && e.state == REQUESTLINE
  }

  /** An Authorization line with a bearer text sets `m_jwt_token`, and nothing else does. */
  predicate SetsToken(e: Event) {
    e.Line? && e.state == HEADER && ParseHeader(e.text).Bearer?
  }

  lemma UrlAfterLine(mem: string, start: nat, i: nat, line: string, regs: Regs, t: Parser)
    requires start <= i && CrlfAt(mem, i) && line == mem[start..i] && NUL !in line && Sim(regs, t) && !Closes(t, line)
    requires SetsUrl(Line(t.state, line)) || Tracks(mem, start, regs.url, t.url)
    ensures var o := OneLine(mem, start, i, regs);
            o.Outcome? && Tracks(o.mem, i + 2, o.regs.url, AfterLine(t, line).url)
  {
    hide *;
    SimState(regs, t);
    ClosesMeans(t, line);
    SetsMeans(t, line);
    if t.state == REQUESTLINE {
      AfterRequestLine(mem, start, i, line, regs, t);
      CutEnds(mem, start, i, line);
      UrlTracks(CutAt(mem, i), start, line, i + 2);
    } else {
      AfterHeader(mem, start, i, line, regs);
      OldPointer(mem, start, i, line, regs, t, regs.url, t.url);
      HeaderSets(line, start, regs, t);
    }
  }

  lemma TokenAfterLine(mem: string, start: nat, i: nat, line: string, regs: Regs, t: Parser)
    requires start <= i && CrlfAt(mem, i) && line == mem[start..i] && NUL !in line && Sim(regs, t) && !Closes(t, line)
    requires SetsToken(Line(t.state, line)) || Tracks(mem, start, regs.token, t.token)
    ensures var o := OneLine(mem, start, i, regs);
            o.Outcome? && Tracks(o.mem, i + 2, o.regs.token, AfterLine(t, line).token)
  {
    hide *;
    SimState(regs, t);
    ClosesMeans(t, line);
    SetsMeans(t, line);
    if t.state == REQUESTLINE {
      AfterRequestLine(mem, start, i, line, regs, t);
      OldPointer(mem, start, i, line, regs, t, regs.token, t.token);
    } else {
      AfterHeader(mem, start, i, line, regs);
      HeaderSets(line, start, regs, t);
      if ParseHeader(line).Bearer? {
        CutEnds(mem, start, i, line);
        TokenTracks(CutAt(mem, i), start, line, ParseHeader(line).off, i + 2);
      } else {
        OldPointer(mem, start, i, line, regs, t, regs.token, t.token);
      }
    }
  }

  lemma SimState(regs: Regs, t: Parser)
    requires Sim(regs, t)
    ensures regs.state == t.state
  {}

  lemma ClosesMeans(t: Parser, line: string)
    ensures Closes(t, line) <==> t.state == HEADER && line == ""
  {}

  lemma SetsMeans(t: Parser, line: string)
    ensures SetsUrl(Line(t.state, line)) <==> t.state == REQUESTLINE
    ensures SetsToken(Line(t.state, line)) <==> t.state == HEADER && line != "" && ParseHeader(line).Bearer?
  {}

  lemma HeaderSets(line: string, start: nat, regs: Regs, t: Parser)
    requires t.state == HEADER && line != ""
    ensures var r, p, h := HeaderRegs(line, start, regs), AfterLine(t, line), ParseHeader(line);
            && r.url == regs.url && p.url == t.url
            && r.token == (if h.Bearer? then At(start + h.off) else regs.token)
            && p.token == (if h.Bearer? then Some(line[h.off..]) else t.token)
  {
    hide ParseHeader;
  }

  /** Behind a body of zero or more bytes nothing that an exact pointer reads is touched. */
  lemma BlankExact(mem: string, start: nat, i: nat, regs: Regs, t: Parser)
    requires start <= i && CrlfAt(mem, i) && Sim(regs, t) && t.state == HEADER
    requires Allowed(t, "", i + 2, |mem| - i - 2) && 0 <= t.contentLength
    ensures var d := Dispatched(CutAt(mem, i), i + 2, regs);
            && d.Outcome? && |d.events| == 2 && d.events[1].Dispatch?
            && (Tracks(mem, start, regs.url, t.url) ==> d.events[1].request.url == t.url.value)
            && Tracks(d.mem, i + 2, d.regs.url, AfterLine(t, "").url)
            && (Tracks(mem, start, regs.token, t.token) ==>
                  d.events[1].request.token == t.token && Tracks(d.mem, i + 2, d.regs.token, AfterLine(t, "").token))
  {
    hide *;
    CutSame(mem, start, i);
    AllowedMeans(t, i + 2, |mem| - i - 2);
    DispatchReads(mem, start, i, regs, t);
    BlankKeeps(mem, start, i, regs, t);
    var d := Dispatched(CutAt(mem, i), i + 2, regs);
    BlankPointers(d.mem, i + 2, t);
    if Tracks(mem, start, regs.url, t.url) {
      NotClipped(mem, start, regs.url, t.url, t.contentLength, i + 2 + t.contentLength);
    }
    if Tracks(mem, start, regs.token, t.token) {
      NotClipped(mem, start, regs.token, t.token, t.contentLength, i + 2 + t.contentLength);
      TracksStays(mem, start, regs.token, t.token, d.mem, i + 2);
    }
  }

  lemma AllowedMeans(t: Parser, next: nat, behind: nat)
    requires Allowed(t, "", next, behind) && t.state == HEADER
    ensures t.url.Some?
  {}

  lemma BlankPointers(mem: string, next: nat, t: Parser)
    requires t.state == HEADER
    ensures Tracks(mem, next, Null, AfterLine(t, "").url) && AfterLine(t, "").token == t.token
  {}

  lemma NotClipped(mem: string, start: nat, p: Ptr, text: Option<string>, n: int, end: int)
    requires Tracks(mem, start, p, text) && 0 <= n && start <= end
    ensures text.Some? ==> Clip(p, n, end, text.value) == text.value
  {}

  lemma BlankKeeps(mem: string, start: nat, i: nat, regs: Regs, t: Parser)
    requires start <= i && CrlfAt(mem, i) && Sim(regs, t) && 0 <= t.contentLength && t.state == HEADER
    ensures var d := Dispatched(CutAt(mem, i), i + 2, regs);
            d.Outcome? ==>
              i + 2 <= |mem| && SameBefore(mem, d.mem, start) && d.regs.url == Null && d.regs.token == regs.token
  {
    hide Deref, CStr;
  }

  /**
  Pointer by pointer: one that was exact before a line, or that the line sets, is exact after it, and what a request is
  handed through an exact one is exact.
   */
  lemma LineExact(mem: string, start: nat, i: nat, line: string, regs: Regs, t: Parser)
    requires start <= i && CrlfAt(mem, i) && line == mem[start..i] && NUL !in line && Sim(regs, t)
    requires Allowed(t, line, i + 2, |mem| - i - 2) && (Closes(t, line) ==> 0 <= t.contentLength)
    ensures var o, p := OneLine(mem, start, i, regs), AfterLine(t, line);
            && o.Outcome?
            && (Closes(t, line) || SetsUrl(Line(t.state, line)) || Tracks(mem, start, regs.url, t.url) ==>
                  Tracks(o.mem, i + 2, o.regs.url, p.url))
            && (SetsToken(Line(t.state, line)) || Tracks(mem, start, regs.token, t.token) ==>
                  Tracks(o.mem, i + 2, o.regs.token, p.token))
            && (Closes(t, line) ==>
                  && |o.events| == 2 && o.events[1].Dispatch?
                  && (Tracks(mem, start, regs.url, t.url) ==>
                        t.url.Some? && o.events[1].request.url == t.url.value)
                  && (Tracks(mem, start, regs.token, t.token) ==> o.events[1].request.token == t.token))
  {
    hide *;
    SimState(regs, t);
    ClosesMeans(t, line);
    SetsMeans(t, line);
    if Closes(t, line) {
      OneBlank(mem, start, i, regs);
      BlankExact(mem, start, i, regs, t);
      AllowedMeans(t, i + 2, |mem| - i - 2);
    } else {
      LineRefines(mem, start, i, line, regs, t);
      if SetsUrl(Line(t.state, line)) || Tracks(mem, start, regs.url, t.url) {
        UrlAfterLine(mem, start, i, line, regs, t);
      }
      if SetsToken(Line(t.state, line)) || Tracks(mem, start, regs.token, t.token) {
        TokenAfterLine(mem, start, i, line, regs, t);
      }
    }
  }

  lemma OneBlank(mem: string, start: nat, i: nat, regs: Regs)
    requires start <= i && CrlfAt(mem, i) && "" == mem[start..i] && regs.state == HEADER
    ensures start == i && i + 2 <= |mem| && OneLine(mem, start, i, regs) == Dispatched(CutAt(mem, i), i + 2, regs)
  {}
}
