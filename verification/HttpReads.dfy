/**
What `do_request` reads through its two pointers (src/http/http_conn.cpp:140, 296-302), whichever call set them. Only
`init` resets `m_jwt_token` (line 39), and `m_url` outlives a call that ends among header lines, while the buffer is
shifted under both.
 */
module HttpReads {
  import opened Strings
  import opened HttpText
  import opened HttpMemory
  import opened HttpParser
  import opened HttpPass
  import opened HttpStream
  import opened HttpCalls

  /**
  The bytes of a pass once a line is worked off: NULs for its CRLF, in a request line for its blanks and its question
  mark, and one where a body ends. `done` stands before the line, `rest` behind it.
   */
  function Taken(p: Parser, done: string, line: string, rest: string): (r: string)
    ensures |r| == |done| + |line| + 2 + |rest|
  {
    var cut := done + (if p.state == REQUESTLINE then Blanked(line) else line) + [NUL, NUL] + rest;
    var end := |done| + |line| + 2 + p.contentLength;
    if Closes(p, line) && p.contentLength != 0 && 0 <= end then Put(cut, end) else cut
  }

  /** The bytes of a pass over `u` as they are when its event `k` comes out. */
  function Seen(p: Parser, done: string, u: string, k: nat): string
    decreases |u|
  {
    match FindLine(u, 0)
    case None => done + u
    case Some(m) =>
      var line, rest := u[..m], u[m + 2..];
      var now, next := Taken(p, done, line, rest), |done| + m + 2;
      var n := if Closes(p, line) then 2 else 1;
      if k < n then now else Seen(AfterLine(p, line), now[..next], now[next..], k - n)
  }

  /** The two pointers. */
  datatype Ptrs = Ptrs(url: Ptr, token: Ptr)

  function PtrsOf(regs: Regs): Ptrs {
    Ptrs(regs.url, regs.token)
  }

  /** A line that starts at `at` sets `m_url`, resets it, sets `m_jwt_token`, or leaves both alone. */
  function Set(p: Parser, line: string, at: nat, q: Ptrs): Ptrs {
    match p.state
    case REQUESTLINE => q.(url := UrlPtr(line, at))
    case HEADER =>
      if line == "" then q.(url := Null)
      else
        match ParseHeader(line)
        case Bearer(off) => q.(token := At(at + off))
        case _ => q
  }

  /** Where they lead when event `k` of a pass comes out; `u` starts at `at`. */
  function PtrsAt(p: Parser, at: nat, u: string, q: Ptrs, k: nat): Ptrs
    decreases |u|
  {
    match FindLine(u, 0)
    case None => q
    case Some(m) =>
      var line, rest := u[..m], u[m + 2..];
      var n := if Closes(p, line) then 2 else 1;
      if k < n then q else PtrsAt(AfterLine(p, line), at + m + 2, Behind(p, line, rest), Set(p, line, at, q), k - n)
  }

  /** What `do_request` makes of `m_jwt_token`. */
  function Through(mem: string, p: Ptr): Option<string> {
    if p == Null then None else Some(Deref(mem, p))
  }

  lemma SeenFirst(p: Parser, done: string, u: string, k: nat, m: nat, line: string, rest: string)
    requires Splits(u, m, line, rest)
    ensures |line| == m
    ensures var now, next, n := Taken(p, done, line, rest), |done| + m + 2, if Closes(p, line) then 2 else 1;
            Seen(p, done, u, k) == if k < n then now else Seen(AfterLine(p, line), now[..next], now[next..], k - n)
  {
    hide FindLine, Closes, AfterLine, Taken;
  }

  lemma {:induction false} SeenSize(p: Parser, done: string, u: string, k: nat)
    ensures |Seen(p, done, u, k)| == |done| + |u|
    decreases |u|
  {
    hide FindLine, Closes, AfterLine, Taken;
    match FindLine(u, 0)
    case None =>
    case Some(m) =>
      var line, rest := u[..m], u[m + 2..];
      var now, next, n := Taken(p, done, line, rest), |done| + m + 2, if Closes(p, line) then 2 else 1;
      if n <= k {
        SeenSize(AfterLine(p, line), now[..next], now[next..], k - n);
      }
  }

  /** A pointer that leads behind the bytes reads the empty string. */
  lemma BehindReads(w: string, off: nat)
    requires |w| <= off
    ensures Deref(w, At(off)) == ""
  {}

  lemma PtrsFirst(p: Parser, at: nat, u: string, q: Ptrs, k: nat, m: nat, line: string, rest: string)
    requires Splits(u, m, line, rest)
    ensures var n := if Closes(p, line) then 2 else 1;
            PtrsAt(p, at, u, q, k) ==
            if k < n then q
            else PtrsAt(AfterLine(p, line), at + m + 2, Behind(p, line, rest), Set(p, line, at, q), k - n)
  {
    hide FindLine, Closes, AfterLine, Behind, Set;
  }

  /** What a pass goes on with. */
  lemma TakenBehind(p: Parser, done: string, line: string, rest: string, room: nat)
    requires Allowed(p, line, |done| + |line| + 2, |rest| + room)
    ensures Taken(p, done, line, rest)[|done| + |line| + 2..] == Behind(p, line, rest)
  {
    hide Blanked;
    var now, next := Taken(p, done, line, rest), |done| + |line| + 2;
    forall j | 0 <= j < |rest| ensures now[next + j] == Behind(p, line, rest)[j] {}
  }

  lemma CutIs(mem: string, done: string, line: string, rest: string, room: nat)
    requires Holds(mem, 0, done + line + "\r\n" + rest, room)
    ensures CrlfAt(mem, |done| + |line|)
    ensures Holds(CutAt(mem, |done| + |line|), 0, done + line + [NUL, NUL] + rest, room)
  {
    var s := done + line + "\r\n" + rest;
    assert mem[0 + (|done| + |line|)] == s[|done| + |line|] && mem[0 + (|done| + |line| + 1)] == s[|done| + |line| + 1];
    forall j | 0 <= j < |s| ensures CutAt(mem, |done| + |line|)[0 + j] == (done + line + [NUL, NUL] + rest)[j] {
      assert mem[0 + j] == s[j];
    }
  }

  lemma OverIs(mem: string, done: string, line: string, x: string, behind: string, room: nat)
    requires Holds(mem, 0, done + line + behind, room) && |x| == |line|
    ensures |done| + |x| <= |mem| && Holds(Over(mem, |done|, x), 0, done + x + behind, room)
  {
    forall j | 0 <= j < |done + x + behind| ensures Over(mem, |done|, x)[0 + j] == (done + x + behind)[j] {
      assert mem[0 + j] == (done + line + behind)[j];
    }
  }

  lemma PutHolds(mem: string, s: string, room: nat, k: nat)
    requires Holds(mem, 0, s, room) && k < |mem|
    ensures Holds(mem[k := NUL], 0, Put(s, k), room)
  {
    forall j | 0 <= j < |s| ensures mem[k := NUL][0 + j] == Put(s, k)[j] {
      assert mem[0 + j] == s[j];
    }
  }

  lemma SplitsIs(done: string, u: string, m: nat, line: string, rest: string)
    requires Splits(u, m, line, rest)
    ensures done + u == done + line + "\r\n" + rest && |line| == m
  {
    assert u == line + "\r\n" + rest;
  }

  /** The buffer after a line of a pass. */
  lemma TakenHolds(mem: string, done: string, u: string, room: nat, regs: Regs, t: Parser, m: nat, line: string,
                   rest: string)
    requires Holds(mem, 0, done + u, room) && Splits(u, m, line, rest) && Sim(regs, t)
    requires CrlfAt(mem, |done| + m) && mem[|done|..|done| + m] == line
    ensures var o := OneLine(mem, |done|, |done| + m, regs);
            o.Outcome? ==> Holds(o.mem, 0, Taken(t, done, line, rest), room)
  {
    hide *;
    SplitsIs(done, u, m, line, rest);
    CutIs(mem, done, line, rest, room);
    SimState(regs, t);
    ClosesMeans(t, line);
    var i := |done| + m;
    if t.state == REQUESTLINE {
      AfterRequestLine(mem, |done|, i, line, regs, t);
      assert done + line + [NUL, NUL] + rest == done + line + ([NUL, NUL] + rest);
      OverIs(CutAt(mem, i), done, line, Blanked(line), [NUL, NUL] + rest, room);
      TakenRequestLine(t, done, line, rest);
    } else if line != "" {
      AfterHeader(mem, |done|, i, line, regs);
      TakenHeader(t, done, line, rest);
    } else {
      OneBlank(mem, |done|, i, regs);
      BlankTaken(CutAt(mem, i), done, rest, room, regs, t);
    }
  }

  lemma TakenRequestLine(t: Parser, done: string, line: string, rest: string)
    requires t.state == REQUESTLINE
    ensures Taken(t, done, line, rest) == done + Blanked(line) + ([NUL, NUL] + rest)
  {
    hide Blanked;
    assert Taken(t, done, line, rest) == done + Blanked(line) + [NUL, NUL] + rest;
  }

  lemma TakenHeader(t: Parser, done: string, line: string, rest: string)
    requires t.state == HEADER && line != ""
    ensures Taken(t, done, line, rest) == done + line + [NUL, NUL] + rest
  {}

  lemma BlankTaken(cut: string, done: string, rest: string, room: nat, regs: Regs, t: Parser)
    requires Holds(cut, 0, done + "" + [NUL, NUL] + rest, room) && Sim(regs, t) && t.state == HEADER
    ensures var d := Dispatched(cut, |done| + 2, regs); d.Outcome? ==> Holds(d.mem, 0, Taken(t, done, "", rest), room)
  {
    hide Deref, CStr, Put, Holds;
    var d, n := Dispatched(cut, |done| + 2, regs), regs.contentLength;
    if d.Outcome? && n != 0 {
      PutHolds(cut, done + "" + [NUL, NUL] + rest, room, |done| + 2 + n);
    }
  }

  /** Zeros behind the bytes make no difference to what is read. */
  lemma DerefHolds(mem: string, w: string, room: nat, p: Ptr)
    requires Holds(mem, 0, w, room)
    ensures Deref(mem, p) == Deref(w, p)
  {
    if p.At? && p.off <= |w| {
      forall j | 0 <= j < |w[p.off..]| ensures mem[p.off + j] == w[p.off..][j] {
        assert mem[0 + (p.off + j)] == w[p.off + j];
      }
      CStrHolds(mem, p.off, w[p.off..], room);
      CStrHolds(w, p.off, w[p.off..], 0);
    } else if p.At? && p.off <= |mem| {
      assert p.off < |mem| ==> mem[p.off] == NUL;
    }
  }

  /** The blank line reads its pointers in the buffer it leaves. */
  lemma BlankReads(cut: string, next: nat, regs: Regs)
    ensures var d := Dispatched(cut, next, regs);
            d.Outcome? ==>
              && |d.events| == 2 && d.events[1].Dispatch? && !d.events[0].Dispatch?
              && d.events[1].request.url == Deref(d.mem, regs.url)
              && d.events[1].request.token == Through(d.mem, regs.token)
              && d.regs.token == regs.token && d.regs.url == Null
  {
    hide Deref, CStr;
  }

  lemma LineSets(mem: string, start: nat, i: nat, line: string, regs: Regs, t: Parser)
    requires start <= i && CrlfAt(mem, i) && line == mem[start..i] && Sim(regs, t)
    ensures var o := OneLine(mem, start, i, regs); o.Outcome? ==> PtrsOf(o.regs) == Set(t, line, start, PtrsOf(regs))
  {
    hide *;
    SimState(regs, t);
    if t.state == REQUESTLINE {
      AfterRequestLine(mem, start, i, line, regs, t);
    } else if line != "" {
      AfterHeader(mem, start, i, line, regs);
      HeaderSets(line, start, regs, t);
    } else {
      OneBlank(mem, start, i, regs);
      BlankReads(CutAt(mem, i), i + 2, regs);
    }
    var o := OneLine(mem, start, i, regs);
    if o.Outcome? {
      SetIs(t, line, start, regs, o);
    }
  }

  lemma SetIs(t: Parser, line: string, start: nat, regs: Regs, o: Outcome)
    requires o.Outcome?
    requires t.state == REQUESTLINE ==> o.regs.url == UrlPtr(line, start) && o.regs.token == regs.token
    requires t.state == HEADER && line == "" ==> o.regs.url == Null && o.regs.token == regs.token
    requires t.state == HEADER && line != "" ==>
               && o.regs.url == regs.url
               && o.regs.token == if ParseHeader(line).Bearer? then At(start + ParseHeader(line).off) else regs.token
    ensures PtrsOf(o.regs) == Set(t, line, start, PtrsOf(regs))
  {
    hide ParseHeader, UrlPtr;
  }

  /**
  What every request of a pass is handed through the pointers, for any bytes, any bodies and any pointers before it:
  the C strings that stand where they lead, in the bytes as they are when the request comes out.
   */
  lemma {:induction false} RunReads(mem: string, done: string, regs: Regs, u: string, room: nat, t: Parser, k: nat)
    requires Holds(mem, 0, done + u, room) && Sim(regs, t) && Pass(t, u, |done|, room).Some?
    requires k < |Pass(t, u, |done|, room).value.events| && Pass(t, u, |done|, room).value.events[k].Dispatch?
    ensures |done| <= |mem|
    ensures var o, said := RunLines(mem, |done|, regs), Pass(t, u, |done|, room).value.events;
            var now, q := Seen(t, done, u, k), PtrsAt(t, |done|, u, PtrsOf(regs), k);
            && o.Outcome? && |o.events| == |said| && o.events[k].Dispatch?
            && o.events[k].request.url == Deref(now, q.url) && o.events[k].request.token == Through(now, q.token)
    decreases |u|
  {
    hide *;
    HoldsEnd(mem, done, u, room);
    if FindLine(u, 0).None? {
      PassEnds(t, u, |done|, room);
    } else {
      var m, line, rest := Split(u);
      var start, i, next := |done|, |done| + m, |done| + m + 2;
      FirstEvents(mem, start, regs, u, room, t, m, line, rest);
      SeenFirst(t, done, u, k, m, line, rest);
      PtrsFirst(t, start, u, PtrsOf(regs), k, m, line, rest);
      TakenHolds(mem, done, u, room, regs, t, m, line, rest);
      var o, behind, t' := OneLine(mem, start, i, regs), Behind(t, line, rest), AfterLine(t, line);
      var now, ev := Taken(t, done, line, rest), LineEvents(t, line, Post(t, behind));
      LineEventsAre(t, line, Post(t, behind));
      if k < |ev| {
        ClosesMeans(t, line);
        SimState(regs, t);
        OneBlank(mem, start, i, regs);
        BlankReads(CutAt(mem, i), i + 2, regs);
        DerefHolds(o.mem, now, room, regs.url);
        ThroughHolds(o.mem, now, room, regs.token);
        PtrsAre(regs);
      } else {
        LineSets(mem, start, i, line, regs, t);
        TakenBehind(t, done, line, rest, room);
        assert now[..next] + now[next..] == now;
        RunReads(o.mem, now[..next], o.regs, behind, room, t', k - |ev|);
      }
    }
  }

  lemma PtrsAre(regs: Regs)
    ensures PtrsOf(regs).url == regs.url && PtrsOf(regs).token == regs.token
  {}

  lemma BlankNext(t: Parser)
    requires t.state == HEADER
    ensures AfterLine(t, "").state == REQUESTLINE
  {}

  lemma ThroughHolds(mem: string, w: string, room: nat, p: Ptr)
    requires Holds(mem, 0, w, room)
    ensures Through(mem, p) == Through(w, p)
  {
    hide Holds, Deref;
    DerefHolds(mem, w, room, p);
  }

  lemma HoldsEnd(mem: string, done: string, u: string, room: nat)
    requires Holds(mem, 0, done + u, room)
    ensures Holds(mem, |done|, u, room) && |done| <= |mem|
  {
    forall j | 0 <= j < |u| ensures mem[|done| + j] == u[j] {
      assert mem[0 + (|done| + j)] == (done + u)[|done| + j];
    }
  }

  /** Where a pass leaves its pointers. */
  lemma {:induction false} RunLeads(mem: string, start: nat, regs: Regs, u: string, room: nat, t: Parser)
    requires start <= |mem| && Holds(mem, start, u, room) && Sim(regs, t) && Pass(t, u, start, room).Some?
    ensures var o, n := RunLines(mem, start, regs), |Pass(t, u, start, room).value.events|;
            o.Outcome? && PtrsOf(o.regs) == PtrsAt(t, start, u, PtrsOf(regs), n)
    decreases |u|
  {
    hide *;
    if FindLine(u, 0).None? {
      PassEnds(t, u, start, room);
      NothingSaid(mem, start, regs, u, room);
      PtrsEnd(t, start, u, PtrsOf(regs), 0);
    } else {
      var m, line, rest := Split(u);
      FirstEvents(mem, start, regs, u, room, t, m, line, rest);
      var o, behind, t' := OneLine(mem, start, start + m, regs), Behind(t, line, rest), AfterLine(t, line);
      LineEventsAre(t, line, Post(t, behind));
      PtrsFirst(t, start, u, PtrsOf(regs), |Pass(t, u, start, room).value.events|, m, line, rest);
      LineSets(mem, start, start + m, line, regs, t);
      RunLeads(o.mem, o.start, o.regs, behind, room, t');
      PrependIs(o.events, RunLines(o.mem, o.start, o.regs));
    }
  }

  lemma PtrsEnd(t: Parser, at: nat, u: string, q: Ptrs, k: nat)
    requires FindLine(u, 0).None?
    ensures PtrsAt(t, at, u, q, k) == q
  {}

  // ---------------------------------------------------------------- left-over pointers

  /** Until a line of the pass sets it, a pointer leads where it led before, and the text level has its old text. */
  lemma {:induction false} LeftStays(t: Parser, u: string, before: nat, room: nat, q: Ptrs, k: nat)
    requires Pass(t, u, before, room).Some?
    requires k < |Pass(t, u, before, room).value.events| && Pass(t, u, before, room).value.events[k].Dispatch?
    ensures var said := Pass(t, u, before, room).value.events;
            && (!BringsUrl(said[..k]) ==>
                  PtrsAt(t, before, u, q, k).url == q.url && t.url == Some(said[k].request.url))
            && (!BringsToken(said[..k]) ==>
                  PtrsAt(t, before, u, q, k).token == q.token && t.token == said[k].request.token)
    decreases |u|
  {
    hide *;
    if FindLine(u, 0).None? {
      PassEnds(t, u, before, room);
    } else {
      var m, line, rest := Split(u);
      PassFirst(t, u, m, line, rest, before, room);
      PtrsFirst(t, before, u, q, k, m, line, rest);
      var behind, t', next := Behind(t, line, rest), AfterLine(t, line), before + m + 2;
      var ev, later := LineEvents(t, line, Post(t, behind)), Pass(t', behind, next, room);
      ThenIs(ev, later);
      LineEventsAre(t, line, Post(t, behind));
      ClosesMeans(t, line);
      if k < |ev| {
        AllowedMeans(t, next, |rest| + room);
      } else {
        LeftStays(t', behind, next, room, Set(t, line, before, q), k - |ev|);
        LineBrings(t, line, Post(t, behind), |ev|);
        assert ev[..|ev|] == ev;
        BringsSum(ev, later.value.events, k);
        SetsNothing(t, line, before, q);
        if Closes(t, line) {
          BlankNext(t);
          UrlFirst(t', behind, next, room, k - |ev|);
        }
      }
    }
  }

  lemma SetsNothing(t: Parser, line: string, at: nat, q: Ptrs)
    ensures !SetsUrl(Line(t.state, line)) && !Closes(t, line) ==>
              Set(t, line, at, q).url == q.url && AfterLine(t, line).url == t.url
    ensures !SetsToken(Line(t.state, line)) ==>
              Set(t, line, at, q).token == q.token && AfterLine(t, line).token == t.token
  {
    hide ParseHeader;
  }

  // ---------------------------------------------------------------- calls

  /** One call, on any connection: what every one of its requests is handed through the pointers. */
  lemma CallReads(c: Conn, p: string, room: nat, t: Parser, data: string)
    requires Stands(c, p, room, t) && |data| <= room && 0 < |c.mem| && Pass(t, p + data, 0, room - |data|).Some?
    ensures c.readIdx + |data| <= |c.mem| && Call(c, data).Some?
    ensures var got, said := Call(c, data).value.1, Pass(t, p + data, 0, room - |data|).value.events;
            && |got| == |said| && Map(Mask, got) == Map(Mask, said)
            && forall k | 0 <= k < |said| && said[k].Dispatch? ::
                 var now, q := Seen(t, "", p + data, k), PtrsAt(t, 0, p + data, PtrsOf(c.regs), k);
                 && got[k].Dispatch?
                 && got[k].request.url == Deref(now, q.url) && got[k].request.token == Through(now, q.token)
  {
    hide *;
    StandsMeans(c, p, room, t);
    if p + data == "" {
      EmptyCall(c, p, room, t, data);
    } else {
      CallIs(c, p, room, t, data);
      var r := Received(c, data);
      RunRefines(r.mem, 0, r.regs, p + data, room - |data|, t);
      AgreesMeans(RunLines(r.mem, 0, r.regs), Pass(t, p + data, 0, room - |data|), |c.mem|, room - |data|);
      var got, said := Call(c, data).value.1, Pass(t, p + data, 0, room - |data|).value.events;
      assert "" + (p + data) == p + data;
      forall k | 0 <= k < |said| && said[k].Dispatch?
        ensures var now, q := Seen(t, "", p + data, k), PtrsAt(t, 0, p + data, PtrsOf(c.regs), k);
                && got[k].Dispatch?
                && got[k].request.url == Deref(now, q.url) && got[k].request.token == Through(now, q.token)
      {
        RunReads(r.mem, "", r.regs, p + data, room - |data|, t, k);
      }
    }
  }

  /** And where it leaves the two pointers, for the calls that follow. */
  lemma CallLeads(c: Conn, p: string, room: nat, t: Parser, data: string)
    requires Stands(c, p, room, t) && |data| <= room && 0 < |c.mem| && Pass(t, p + data, 0, room - |data|).Some?
    ensures c.readIdx + |data| <= |c.mem| && Call(c, data).Some?
    ensures var n := |Pass(t, p + data, 0, room - |data|).value.events|;
            PtrsOf(Call(c, data).value.0.regs) == PtrsAt(t, 0, p + data, PtrsOf(c.regs), n)
  {
    hide *;
    StandsMeans(c, p, room, t);
    if p + data == "" {
      EmptyCall(c, p, room, t, data);
      NoLineInNothing();
      PtrsEnd(t, 0, p + data, PtrsOf(c.regs), 0);
    } else {
      CallIs(c, p, room, t, data);
      var r := Received(c, data);
      RunLeads(r.mem, 0, r.regs, p + data, room - |data|, t);
      SettledRegs(RunLines(r.mem, 0, r.regs), r.readIdx);
    }
  }

  lemma NoLineInNothing()
    ensures FindLine("", 0).None?
  {}

  lemma SettledRegs(o: Outcome, readIdx: nat)
    requires o.Outcome? && readIdx <= |o.mem|
    ensures Settled(o.mem, o.start, readIdx, o.regs).regs == o.regs
  {}

  /** At event `k` the two pointers read what the text level says. */
  ghost predicate Intact(t: Parser, u: string, regs: Regs, said: seq<Event>, k: nat)
    requires k < |said| && said[k].Dispatch?
  {
    var now, q := Seen(t, "", u, k), PtrsAt(t, 0, u, PtrsOf(regs), k);
    Deref(now, q.url) == said[k].request.url && Through(now, q.token) == said[k].request.token
  }

  lemma IntactMeans(t: Parser, u: string, regs: Regs, said: seq<Event>, k: nat)
    requires k < |said| && said[k].Dispatch?
    ensures var now, q := Seen(t, "", u, k), PtrsAt(t, 0, u, PtrsOf(regs), k);
            Intact(t, u, regs, said, k) <==>
              Deref(now, q.url) == said[k].request.url && Through(now, q.token) == said[k].request.token
  {}

  lemma SameEvents(got: seq<Event>, said: seq<Event>)
    requires |got| == |said|
    ensures got == said <==> forall k | 0 <= k < |said| :: got[k] == said[k]
  {}

  /** Any lengths: a call hands on exactly what the text level says if and only if all pointers it uses are intact. */
  lemma PointersDecide(c: Conn, p: string, room: nat, t: Parser, data: string)
    requires Stands(c, p, room, t) && |data| <= room && 0 < |c.mem| && Pass(t, p + data, 0, room - |data|).Some?
    ensures c.readIdx + |data| <= |c.mem| && Call(c, data).Some?
    ensures var got, said := Call(c, data).value.1, Pass(t, p + data, 0, room - |data|).value.events;
            got == said <==> forall k | 0 <= k < |said| && said[k].Dispatch? :: Intact(t, p + data, c.regs, said, k)
  {
    hide *;
    CallReads(c, p, room, t, data);
    var u := p + data;
    var got, said := Call(c, data).value.1, Pass(t, u, 0, room - |data|).value.events;
    forall k | 0 <= k < |said|
      ensures got[k] == said[k] <==> (said[k].Dispatch? ==> Intact(t, u, c.regs, said, k))
    {
      SameKind(got, said, k);
      MaskMeans(got[k], said[k]);
      if said[k].Dispatch? {
        IntactMeans(t, u, c.regs, said, k);
      }
    }
    SameEvents(got, said);
  }

  /** At event `k` the pointers that no line of the call has set read what they read when they were set. */
  ghost predicate Spared(t: Parser, u: string, regs: Regs, said: seq<Event>, k: nat)
    requires k < |said|
  {
    var now := Seen(t, "", u, k);
    && (!BringsUrl(said[..k]) ==> t.url == Some(Deref(now, regs.url)))
    && (!BringsToken(said[..k]) ==> t.token == Through(now, regs.token))
  }

  /**
  With no negative length, a call hands on exactly the events of the text level if and only if, at each of its
  requests, the left-over pointers that request uses still read their old texts in the bytes of this call.
   */
  lemma LeftoversDecide(c: Conn, p: string, room: nat, t: Parser, data: string)
    requires Stands(c, p, room, t) && |data| <= room && 0 < |c.mem|
    requires Pass(t, p + data, 0, room - |data|).Some? && Forward(t, p + data)
    ensures c.readIdx + |data| <= |c.mem| && Call(c, data).Some?
    ensures var got, said := Call(c, data).value.1, Pass(t, p + data, 0, room - |data|).value.events;
            got == said <==>
              forall k | 0 <= k < |said| && said[k].Dispatch? :: Spared(t, p + data, c.regs, said, k)
  {
    hide *;
    CallReads(c, p, room, t, data);
    CallExact(c, p, room, t, data);
    var u := p + data;
    var got, said := Call(c, data).value.1, Pass(t, u, 0, room - |data|).value.events;
    forall k | 0 <= k < |said|
      ensures got[k] == said[k] <==> (said[k].Dispatch? ==> Spared(t, u, c.regs, said, k))
    {
      SameKind(got, said, k);
      MaskMeans(got[k], said[k]);
      if said[k].Dispatch? {
        LeftStays(t, u, 0, room - |data|, PtrsOf(c.regs), k);
        PtrsAre(c.regs);
        SparedMeans(t, u, c.regs, said, k);
      }
    }
    SameEvents(got, said);
  }

  lemma SparedMeans(t: Parser, u: string, regs: Regs, said: seq<Event>, k: nat)
    requires k < |said|
    ensures var now := Seen(t, "", u, k);
            Spared(t, u, regs, said, k) <==>
              && (!BringsUrl(said[..k]) ==> t.url == Some(Deref(now, regs.url)))
              && (!BringsToken(said[..k]) ==> t.token == Through(now, regs.token))
  {}

  lemma MaskMeans(x: Event, y: Event)
    requires Mask(x) == Mask(y)
    ensures !y.Dispatch? ==> x == y
    ensures y.Dispatch? ==>
              x.Dispatch? && (x == y <==> x.request.url == y.request.url && x.request.token == y.request.token)
  {}
}
