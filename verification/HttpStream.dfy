/** One pass of `process` over its buffer, against what the text level makes of the bytes the buffer holds. */
module HttpStream {
  import opened Strings
  import opened HttpText
  import opened HttpMemory
  import opened HttpParser
  import opened HttpPass

  /** The scan for a line stops where the first line of the bytes ends, or at a NUL, or runs over. */
  lemma {:induction false} ScanIs(mem: string, start: nat, u: string, room: nat, j: nat)
    requires Holds(mem, start, u, room) && j <= |u|
    ensures Scan(mem, start + j) ==
            match FindLine(u, j)
            case Some(m) => Found(start + m)
            case None => if room == 0 && NUL !in u[j..] then Overrun else NoLine
    decreases |u| - j
  {
    if j < |u| {
      assert mem[start + j] == u[j];
      assert j + 1 < |u| ==> mem[start + j + 1] == u[j + 1];
      assert u[j..] == [u[j]] + u[j + 1..];
      ScanIs(mem, start, u, room, j + 1);
    }
  }

  /** The first line of the bytes is the first line in the buffer. */
  lemma FirstFound(mem: string, start: nat, u: string, room: nat, m: nat, line: string, rest: string)
    requires Holds(mem, start, u, room) && Splits(u, m, line, rest)
    ensures CrlfAt(mem, start + m) && Scan(mem, start) == Found(start + m)
    ensures mem[start..start + m] == line && NUL !in line && Holds(mem, start + m + 2, rest, room)
    ensures |u| == m + 2 + |rest| && start + m + 2 <= |mem| == start + |u| + room
  {
    ScanIs(mem, start, u, room, 0);
    FindLineNoNul(u, 0);
    assert mem[start + m] == u[m] && mem[start + m + 1] == u[m + 1];
    forall j | 0 <= j < |rest| ensures mem[start + m + 2 + j] == rest[j] {
      assert mem[start + (m + 2 + j)] == u[m + 2 + j];
    }
  }

  lemma {:induction false} FindLineNoNul(u: string, from: nat)
    requires FindLine(u, from).Some?
    ensures NUL !in u[from..FindLine(u, from).value]
    decreases |u| - from
  {
    if !CrlfAt(u, from) {
      FindLineNoNul(u, from + 1);
      var m := FindLine(u, from).value;
      assert u[from..m] == [u[from]] + u[from + 1..m];
    }
  }

  lemma HoldsOutside(mem: string, mem': string, lo: nat, next: nat, rest: string, room: nat)
    requires Holds(mem, next, rest, room) && SameOutside(mem, mem', lo, next)
    ensures Holds(mem', next, rest, room)
  {}

  /** What a pass must give: the text level's events and registers, and the bytes it leaves, in place. */
  ghost predicate Agrees(o: Outcome, r: Option<Passed>, size: nat, room: nat) {
    match r
    case None => o == Fault
    case Some(x) =>
      && o.Outcome? && |o.mem| == size && Holds(o.mem, o.start, x.rest, room)
      && Sim(o.regs, x.parser) && Map(Mask, o.events) == Map(Mask, x.events)
  }

  lemma MapAppend(x: seq<Event>, y: seq<Event>)
    ensures Map(Mask, x + y) == Map(Mask, x) + Map(Mask, y)
  {}

  lemma OneThenRest(mem: string, start: nat, i: nat, regs: Regs)
    requires start <= i && CrlfAt(mem, i) && Scan(mem, start) == Found(i)
    ensures var o := OneLine(mem, start, i, regs);
            && (o.Fault? ==> RunLines(mem, start, regs) == Fault)
            && (o.Outcome? ==> RunLines(mem, start, regs) == Prepend(o.events, RunLines(o.mem, o.start, o.regs)))
  {}

  lemma AgreesCons(ev: seq<Event>, o: Outcome, said: seq<Event>, r: Option<Passed>, size: nat, room: nat)
    requires Agrees(o, r, size, room) && Map(Mask, ev) == Map(Mask, said)
    ensures Agrees(Prepend(ev, o), Then(said, r), size, room)
  {
    hide Holds, Sim, Mask, Map;
    if r.Some? {
      MapAppend(ev, o.events);
      MapAppend(said, r.value.events);
    }
  }

  lemma NoLineAgrees(mem: string, start: nat, regs: Regs, u: string, room: nat, t: Parser)
    requires start <= |mem| && Holds(mem, start, u, room) && Sim(regs, t) && FindLine(u, 0).None?
    ensures Agrees(RunLines(mem, start, regs), Pass(t, u, start, room), |mem|, room)
  {
    hide Sim, FindLine, Scan, Pass, Forward;
    ScanIs(mem, start, u, room, 0);
    assert u[0..] == u;
    PassEnds(t, u, start, room);
  }

  /** The first line of a pass, seen from the text: a fault, or what the rest of the pass starts from. */
  lemma FirstLine(mem: string, start: nat, regs: Regs, u: string, room: nat, t: Parser, m: nat, line: string,
                  rest: string)
    requires Holds(mem, start, u, room) && Splits(u, m, line, rest) && Sim(regs, t)
    ensures CrlfAt(mem, start + m)
    ensures var o := OneLine(mem, start, start + m, regs);
            if Allowed(t, line, start + m + 2, |rest| + room) then
              && o.Outcome? && |o.mem| == |mem| && o.start == start + m + 2 <= |mem|
              && Holds(o.mem, o.start, Behind(t, line, rest), room) && Sim(o.regs, AfterLine(t, line))
              && Map(Mask, o.events) == Map(Mask, LineEvents(t, line, Post(t, Behind(t, line, rest))))
              && RunLines(mem, start, regs) == Prepend(o.events, RunLines(o.mem, o.start, o.regs))
            else RunLines(mem, start, regs) == Fault
  {
    hide *;
    FirstFound(mem, start, u, room, m, line, rest);
    OneThenRest(mem, start, start + m, regs);
    SimState(regs, t);
    ClosesMeans(t, line);
    if Closes(t, line) {
      OneBlank(mem, start, start + m, regs);
      BlankRefines(mem, start + m, rest, room, regs, t);
    } else {
      LineRefines(mem, start, start + m, line, regs, t);
      LineKeeps(mem, start, start + m, line, regs, t);
      OtherLine(t, line, rest, start + m + 2, |rest| + room);
      HoldsOutside(mem, OneLine(mem, start, start + m, regs).mem, start, start + m + 2, rest, room);
    }
  }

  lemma OtherLine(t: Parser, line: string, rest: string, next: nat, behind: nat)
    requires !Closes(t, line)
    ensures Allowed(t, line, next, behind) && Behind(t, line, rest) == rest
    ensures forall post :: LineEvents(t, line, post) == [Line(t.state, line)]
  {}

  /** A pass over the buffer does what the text level says, for any bytes, bodies and pointers, faults included. */
  lemma {:induction false} RunRefines(mem: string, start: nat, regs: Regs, u: string, room: nat, t: Parser)
    requires start <= |mem| && Holds(mem, start, u, room) && Sim(regs, t)
    ensures Agrees(RunLines(mem, start, regs), Pass(t, u, start, room), |mem|, room)
    decreases |u|
  {
    hide *;
    if FindLine(u, 0).None? {
      NoLineAgrees(mem, start, regs, u, room, t);
    } else {
      var m, line, rest := Split(u);
      PassFirst(t, u, m, line, rest, start, room);
      FirstLine(mem, start, regs, u, room, t, m, line, rest);
      if Allowed(t, line, start + m + 2, |rest| + room) {
        var o, behind := OneLine(mem, start, start + m, regs), Behind(t, line, rest);
        RunRefines(o.mem, o.start, o.regs, behind, room, AfterLine(t, line));
        AgreesCons(o.events, RunLines(o.mem, o.start, o.regs), LineEvents(t, line, Post(t, behind)),
                   Pass(AfterLine(t, line), behind, o.start, room), |mem|, room);
      } else {
        FaultAgrees(|mem|, room);
      }
    }
  }

  lemma FaultAgrees(size: nat, room: nat)
    ensures Agrees(Fault, None, size, room)
  {}

  // ---------------------------------------------------------------- what is read through the pointers

  /** A request line was among what a pass said so far. */
  ghost predicate BringsUrl(said: seq<Event>) {
    exists e | e in said :: SetsUrl(e)
  }

  /** An Authorization line with a bearer text was. */
  ghost predicate BringsToken(said: seq<Event>) {
    exists e | e in said :: SetsToken(e)
  }

  /** What a line says brings what the line sets, its request included. */
  lemma LineBrings(t: Parser, line: string, post: Option<string>, k: nat)
    requires 0 < k <= |LineEvents(t, line, post)|
    ensures BringsUrl(LineEvents(t, line, post)[..k]) <==> SetsUrl(Line(t.state, line))
    ensures BringsToken(LineEvents(t, line, post)[..k]) <==> SetsToken(Line(t.state, line))
  {
    hide ParseHeader;
    assert LineEvents(t, line, post)[..k][0] == Line(t.state, line);
    assert forall e | e in LineEvents(t, line, post)[..k] :: e == Line(t.state, line) || e.Dispatch?;
  }

  lemma BringsSum(x: seq<Event>, y: seq<Event>, k: nat)
    requires |x| <= k <= |x + y|
    ensures BringsUrl((x + y)[..k]) <==> BringsUrl(x) || BringsUrl(y[..k - |x|])
    ensures BringsToken((x + y)[..k]) <==> BringsToken(x) || BringsToken(y[..k - |x|])
  {
    hide SetsUrl, SetsToken;
    assert (x + y)[..k] == x + y[..k - |x|];
  }

  lemma LineEventsAre(t: Parser, line: string, post: Option<string>)
    ensures var ev := LineEvents(t, line, post);
            && |ev| == (if Closes(t, line) then 2 else 1) && ev[0] == Line(t.state, line)
            && (Closes(t, line) && t.url.Some? ==>
                  ev[1] == Dispatch(Request(t.url.value, t.isPost, t.token, t.keepAlive, post)))
  {}

  /** How the events of a pass continue those of its first line. */
  lemma FirstEvents(mem: string, start: nat, regs: Regs, u: string, room: nat, t: Parser, m: nat, line: string,
                    rest: string)
    requires start <= |mem| && Holds(mem, start, u, room) && Splits(u, m, line, rest) && Sim(regs, t)
    requires Pass(t, u, start, room).Some?
    ensures start + m + 2 <= |mem| == start + m + 2 + |rest| + room
    ensures Allowed(t, line, start + m + 2, |rest| + room)
    ensures CrlfAt(mem, start + m) && mem[start..start + m] == line && NUL !in line
    ensures var o, behind := OneLine(mem, start, start + m, regs), Behind(t, line, rest);
            var later := Pass(AfterLine(t, line), behind, start + m + 2, room);
            && o.Outcome? && |o.mem| == |mem| && o.start == start + m + 2 && Holds(o.mem, o.start, behind, room)
            && Sim(o.regs, AfterLine(t, line)) && |o.events| == |LineEvents(t, line, Post(t, behind))|
            && later.Some? && RunLines(o.mem, o.start, o.regs).Outcome? && RunLines(mem, start, regs).Outcome?
            && RunLines(mem, start, regs) == Prepend(o.events, RunLines(o.mem, o.start, o.regs))
            && RunLines(mem, start, regs).events == o.events + RunLines(o.mem, o.start, o.regs).events
            && Pass(t, u, start, room).value.events == LineEvents(t, line, Post(t, behind)) + later.value.events
            && |RunLines(o.mem, o.start, o.regs).events| == |later.value.events|
            && Pass(t, u, start, room).value.parser == later.value.parser
  {
    hide *;
    PassFirst(t, u, m, line, rest, start, room);
    FirstLine(mem, start, regs, u, room, t, m, line, rest);
    FirstFound(mem, start, u, room, m, line, rest);
    var o, behind := OneLine(mem, start, start + m, regs), Behind(t, line, rest);
    ThenIs(LineEvents(t, line, Post(t, behind)), Pass(AfterLine(t, line), behind, o.start, room));
    RunRefines(o.mem, o.start, o.regs, behind, room, AfterLine(t, line));
    AgreesMeans(RunLines(o.mem, o.start, o.regs), Pass(AfterLine(t, line), behind, o.start, room), |mem|, room);
    PrependIs(o.events, RunLines(o.mem, o.start, o.regs));
  }

  lemma AgreesMeans(o: Outcome, r: Option<Passed>, size: nat, room: nat)
    requires Agrees(o, r, size, room) && r.Some?
    ensures o.Outcome? && |o.events| == |r.value.events| && Map(Mask, o.events) == Map(Mask, r.value.events)
    ensures |o.mem| == size && Holds(o.mem, o.start, r.value.rest, room) && Sim(o.regs, r.value.parser)
  {}

  lemma PrependIs(events: seq<Event>, o: Outcome)
    requires o.Outcome?
    ensures Prepend(events, o) == Outcome(o.mem, o.start, o.regs, events + o.events)
  {}

  /** An event of the same kind, with the same value fields. */
  lemma SameKind(x: seq<Event>, y: seq<Event>, k: nat)
    requires Map(Mask, x) == Map(Mask, y) && k < |x|
    ensures k < |y| && Mask(x[k]) == Mask(y[k]) && (x[k].Dispatch? <==> y[k].Dispatch?)
  {
    assert Map(Mask, x)[k] == Map(Mask, y)[k];
  }

  /**
  What the request at event `k` of a pass is handed through the two pointers: for lengths of zero or more the texts of
  the text level, when the pointer was exact at the start of the pass or a line of the pass set it.
   */
  lemma {:induction false} RunExact(mem: string, start: nat, regs: Regs, u: string, room: nat, t: Parser, k: nat)
    requires start <= |mem| && Holds(mem, start, u, room) && Sim(regs, t)
    requires Pass(t, u, start, room).Some? && Forward(t, u)
    requires k < |Pass(t, u, start, room).value.events| && Pass(t, u, start, room).value.events[k].Dispatch?
    ensures var o, said := RunLines(mem, start, regs), Pass(t, u, start, room).value.events;
            && o.Outcome? && |o.events| == |said| && o.events[k].Dispatch?
            && (BringsUrl(said[..k]) || Tracks(mem, start, regs.url, t.url) ==>
                  o.events[k].request.url == said[k].request.url)
            && (BringsToken(said[..k]) || Tracks(mem, start, regs.token, t.token) ==>
                  o.events[k].request.token == said[k].request.token)
    decreases |u|
  {
    hide *;
    if FindLine(u, 0).None? {
      PassEnds(t, u, start, room);
    } else {
      var m, line, rest := Split(u);
      PassFirst(t, u, m, line, rest, start, room);
      FirstEvents(mem, start, regs, u, room, t, m, line, rest);
      LineExact(mem, start, start + m, line, regs, t);
      var o, behind, t' := OneLine(mem, start, start + m, regs), Behind(t, line, rest), AfterLine(t, line);
      var ev, said := LineEvents(t, line, Post(t, behind)), Pass(t', behind, o.start, room).value.events;
      LineEventsAre(t, line, Post(t, behind));
      if k < |ev| {
        assert (ev + said)[..k] == ev[..k];
        LineBrings(t, line, Post(t, behind), k);
        ClosesMeans(t, line);
        SetsMeans(t, line);
        AllowedMeans(t, o.start, |rest| + room);
      } else {
        LineBrings(t, line, Post(t, behind), |ev|);
        assert ev[..|ev|] == ev;
        BringsSum(ev, said, k);
        RunExact(o.mem, o.start, o.regs, behind, room, t', k - |ev|);
      }
    }
  }

  /** Where a pass ends, its pointers are exact under the same conditions. */
  lemma {:induction false} RunPointers(mem: string, start: nat, regs: Regs, u: string, room: nat, t: Parser)
    requires start <= |mem| && Holds(mem, start, u, room) && Sim(regs, t)
    requires Pass(t, u, start, room).Some? && Forward(t, u)
    ensures var o, x := RunLines(mem, start, regs), Pass(t, u, start, room).value;
            && o.Outcome?
            && (BringsUrl(x.events) || Tracks(mem, start, regs.url, t.url) ==>
                  Tracks(o.mem, o.start, o.regs.url, x.parser.url))
            && (BringsToken(x.events) || Tracks(mem, start, regs.token, t.token) ==>
                  Tracks(o.mem, o.start, o.regs.token, x.parser.token))
    decreases |u|
  {
    hide *;
    if FindLine(u, 0).None? {
      PassEnds(t, u, start, room);
      NothingSaid(mem, start, regs, u, room);
    } else {
      var m, line, rest := Split(u);
      PassFirst(t, u, m, line, rest, start, room);
      FirstEvents(mem, start, regs, u, room, t, m, line, rest);
      LineExact(mem, start, start + m, line, regs, t);
      var o, behind, t' := OneLine(mem, start, start + m, regs), Behind(t, line, rest), AfterLine(t, line);
      var ev, said := LineEvents(t, line, Post(t, behind)), Pass(t', behind, o.start, room).value.events;
      LineEventsAre(t, line, Post(t, behind));
      LineBrings(t, line, Post(t, behind), |ev|);
      assert ev[..|ev|] == ev && (ev + said)[..|ev + said|] == ev + said && said[..|said|] == said;
      BringsSum(ev, said, |ev + said|);
      RunPointers(o.mem, o.start, o.regs, behind, room, t');
      PrependIs(o.events, RunLines(o.mem, o.start, o.regs));
    }
  }

  lemma NothingSaid(mem: string, start: nat, regs: Regs, u: string, room: nat)
    requires start <= |mem| && Holds(mem, start, u, room) && FindLine(u, 0).None? && (room > 0 || NUL in u)
    ensures RunLines(mem, start, regs) == Outcome(mem, start, regs, [])
    ensures !BringsUrl([]) && !BringsToken([])
  {
    hide FindLine, Scan;
    ScanIs(mem, start, u, room, 0);
    assert u[0..] == u;
  }
}
