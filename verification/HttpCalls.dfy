/**
Whole calls of `process` and whole streams (src/http/http_conn.cpp): what the parser makes of bytes that
arrive in any number of pieces, and when it does not.
 */
module HttpCalls {
  import opened Strings
  import opened HttpText
  import opened HttpMemory
  import opened HttpParser
  import opened HttpPass
  import opened HttpStream

  /** Between two calls: the bytes kept at the front, zeros behind them, and the registers. */
  ghost predicate Stands(c: Conn, p: string, room: nat, t: Parser) {
    Holds(c.mem, 0, p, room) && c.readIdx == |p| && Sim(c.regs, t)
  }

  lemma StandsMeans(c: Conn, p: string, room: nat, t: Parser)
    requires Stands(c, p, room, t)
    ensures Holds(c.mem, 0, p, room) && Sim(c.regs, t) && c.readIdx == |p| && |c.mem| == |p| + room
  {}

  lemma SettledStands(mem: string, start: nat, readIdx: nat, regs: Regs, rest: string, room: nat, t: Parser)
    requires Holds(mem, start, rest, room) && Sim(regs, t) && readIdx == start + |rest|
    ensures Stands(Settled(mem, start, readIdx, regs), rest, start + room, t)
    ensures |Settled(mem, start, readIdx, regs).mem| == |mem| && Settled(mem, start, readIdx, regs).regs == regs
  {
    hide Sim;
  }

  /** What a call must give, when the text level says `x` of the bytes it works on. */
  ghost predicate Gives(r: Option<(Conn, seq<Event>)>, x: Option<Passed>, size: nat) {
    match x
    case None => r.None?
    case Some(x) =>
      && r.Some? && |r.value.0.mem| == size && |x.rest| <= size
      && Stands(r.value.0, x.rest, size - |x.rest|, x.parser) && Map(Mask, r.value.1) == Map(Mask, x.events)
  }

  lemma EmptyCall(c: Conn, p: string, room: nat, t: Parser, data: string)
    requires Stands(c, p, room, t) && |data| <= room && p + data == "" && 0 < |c.mem|
    ensures room == |c.mem| && Received(c, data) == c && Call(c, data) == Some((c, []))
    ensures Pass(t, p + data, 0, room - |data|) == Some(Passed([], t, p)) && p == ""
  {
    assert p == data == "";
    hide Sim, RunLines;
  }

  lemma CallIs(c: Conn, p: string, room: nat, t: Parser, data: string)
    requires Stands(c, p, room, t) && |data| <= room && p + data != ""
    ensures c.readIdx + |data| <= |c.mem|
    ensures var r := Received(c, data);
            && Holds(r.mem, 0, p + data, room - |data|) && |r.mem| == |c.mem| && r.readIdx == |p + data|
            && r.regs == c.regs
            && var o := RunLines(r.mem, 0, r.regs);
               && (o.Fault? ==> Call(c, data).None?)
               && (o.Outcome? ==> Call(c, data) == Some((Settled(o.mem, o.start, r.readIdx, o.regs), o.events)))
  {
    hide Sim, RunLines, Settled;
    var r := Received(c, data);
    forall j | 0 <= j < |p + data| ensures r.mem[j] == (p + data)[j] {
      if j >= |p| { assert (p + data)[j] == data[j - |p|]; }
    }
  }

  lemma SettledGives(o: Outcome, x: Option<Passed>, size: nat, readIdx: nat, room: nat)
    requires Agrees(o, x, size, room) && readIdx + room == size
    ensures o.Outcome? ==> readIdx <= |o.mem|
    ensures Gives(if o.Fault? then None else Some((Settled(o.mem, o.start, readIdx, o.regs), o.events)), x, size)
  {
    hide Settled, Stands, Sim, Map;
    if x.Some? {
      HoldsSize(o.mem, o.start, x.value.rest, room);
      SettledStands(o.mem, o.start, readIdx, o.regs, x.value.rest, room, x.value.parser);
    }
  }

  /** One call does what the text level says of the bytes kept and the bytes that came, faults included. */
  lemma CallRefines(c: Conn, p: string, room: nat, t: Parser, data: string)
    requires Stands(c, p, room, t) && |data| <= room && 0 < |c.mem|
    ensures c.readIdx + |data| <= |c.mem| && Gives(Call(c, data), Pass(t, p + data, 0, room - |data|), |c.mem|)
  {
    hide *;
    StandsMeans(c, p, room, t);
    if p + data == "" {
      EmptyCall(c, p, room, t, data);
      NothingGiven(c, t);
    } else {
      CallIs(c, p, room, t, data);
      var r := Received(c, data);
      RunRefines(r.mem, 0, r.regs, p + data, room - |data|, t);
      SettledGives(RunLines(r.mem, 0, r.regs), Pass(t, p + data, 0, room - |data|), |c.mem|, r.readIdx, room - |data|);
    }
  }

  lemma NothingGiven(c: Conn, t: Parser)
    requires Stands(c, "", |c.mem|, t)
    ensures Gives(Some((c, [])), Some(Passed([], t, "")), |c.mem|)
  {}

  /** Between two calls a pointer is exact only if it does not lead into the buffer; then it stays so. */
  lemma ExactStays(c: Conn, data: string, q: Ptr, text: Option<string>)
    requires Tracks(c.mem, 0, q, text) && c.readIdx + |data| <= |c.mem|
    ensures Tracks(Received(c, data).mem, 0, q, text)
  {}

  /** Whatever a request is handed, its request line came first, unless the pass began among header lines. */
  lemma UrlFirst(t: Parser, u: string, before: nat, room: nat, k: nat)
    requires t.state == REQUESTLINE && Pass(t, u, before, room).Some?
    requires k < |Pass(t, u, before, room).value.events| && Pass(t, u, before, room).value.events[k].Dispatch?
    ensures BringsUrl(Pass(t, u, before, room).value.events[..k])
  {
    hide *;
    if FindLine(u, 0).None? {
      PassEnds(t, u, before, room);
    } else {
      var m, line, rest := Split(u);
      PassFirst(t, u, m, line, rest, before, room);
      var behind := Behind(t, line, rest);
      ClosesMeans(t, line);
      SetsMeans(t, line);
      LineEventsAre(t, line, Post(t, behind));
      ThenIs(LineEvents(t, line, Post(t, behind)), Pass(AfterLine(t, line), behind, before + m + 2, room));
      FirstBrings(Pass(t, u, before, room).value.events, t, line, k);
    }
  }

  lemma FirstBrings(said: seq<Event>, t: Parser, line: string, k: nat)
    requires SetsUrl(Line(t.state, line)) && k < |said| && said[0] == Line(t.state, line) && said[k].Dispatch?
    ensures BringsUrl(said[..k])
  {
    assert said[..k][0] == said[0];
  }

  /**
  Pointer stability, on any connection between two calls: a request whose request line comes in this call is handed
  its path, one behind an Authorization line of this call its bearer text, in full and with its body, as long as no
  length is negative. Before the call the pointers may be anything.
   */
  lemma CallExact(c: Conn, p: string, room: nat, t: Parser, data: string)
    requires Stands(c, p, room, t) && |data| <= room && 0 < |c.mem|
    requires Pass(t, p + data, 0, room - |data|).Some? && Forward(t, p + data)
    ensures c.readIdx + |data| <= |c.mem| && Call(c, data).Some?
    ensures var got, said := Call(c, data).value.1, Pass(t, p + data, 0, room - |data|).value.events;
            && |got| == |said| && Map(Mask, got) == Map(Mask, said)
            && forall k | 0 <= k < |said| && said[k].Dispatch? ::
                 && got[k].Dispatch?
                 && (t.state == REQUESTLINE || BringsUrl(said[..k]) || Tracks(c.mem, 0, c.regs.url, t.url) ==>
                       got[k].request.url == said[k].request.url)
                 && (BringsToken(said[..k]) || Tracks(c.mem, 0, c.regs.token, t.token) ==>
                       got[k].request.token == said[k].request.token)
  {
    hide *;
    StandsMeans(c, p, room, t);
    if p + data == "" {
      EmptyCall(c, p, room, t, data);
    } else {
      CallIs(c, p, room, t, data);
      var r := Received(c, data);
      RunRefines(r.mem, 0, r.regs, p + data, room - |data|, t);
      AgreesMeans(RunLines(r.mem, 0, r.regs), Pass(t, p + data, 0, room - |data|), |c.mem|, room - |data|);
      var got, said := Call(c, data).value.1, Pass(t, p + data, 0, room - |data|).value.events;
      forall k | 0 <= k < |said| && said[k].Dispatch?
        ensures got[k].Dispatch?
        ensures t.state == REQUESTLINE || BringsUrl(said[..k]) || Tracks(c.mem, 0, c.regs.url, t.url) ==>
                  got[k].request.url == said[k].request.url
        ensures BringsToken(said[..k]) || Tracks(c.mem, 0, c.regs.token, t.token) ==>
                  got[k].request.token == said[k].request.token
      {
        RunExact(r.mem, 0, r.regs, p + data, room - |data|, t, k);
        if t.state == REQUESTLINE { UrlFirst(t, p + data, 0, room - |data|, k); }
        if Tracks(c.mem, 0, c.regs.url, t.url) { ExactStays(c, data, c.regs.url, t.url); }
        if Tracks(c.mem, 0, c.regs.token, t.token) { ExactStays(c, data, c.regs.token, t.token); }
      }
    }
  }

  lemma GivesWhen(r: Option<(Conn, seq<Event>)>, x: Option<Passed>, size: nat)
    requires Gives(r, x, size)
    ensures r.Some? <==> x.Some?
  {}

  /** A call gets through exactly when its scan meets a NUL or a free byte, and every blank line is allowed. */
  lemma CallSucceeds(c: Conn, p: string, room: nat, t: Parser, data: string)
    requires Stands(c, p, room, t) && |data| <= room && 0 < |c.mem|
    ensures c.readIdx + |data| <= |c.mem|
    ensures Call(c, data).Some? <==> Sound(t, p + data, 0, room - |data|)
  {
    hide *;
    CallRefines(c, p, room, t, data);
    GivesWhen(Call(c, data), Pass(t, p + data, 0, room - |data|), |c.mem|);
    PassSound(t, p + data, 0, room - |data|);
  }

  /** Without bodies and NULs that is: a byte stays free and every blank line has its target. */
  lemma BodylessSucceeds(c: Conn, p: string, room: nat, t: Parser, data: string)
    requires Stands(c, p, room, t) && |data| <= room && 0 < |c.mem|
    requires NUL !in p + data && Bodyless(t, Lines(p + data))
    ensures c.readIdx + |data| <= |c.mem|
    ensures Call(c, data).Some? <==> |data| < room && Orderly(t, Lines(p + data))
  {
    hide *;
    CallRefines(c, p, room, t, data);
    GivesWhen(Call(c, data), Pass(t, p + data, 0, room - |data|), |c.mem|);
    PassBodyless(t, p + data, 0, room - |data|);
  }

  // ---------------------------------------------------------------- streams

  function Concat(chunks: seq<string>): string
    decreases |chunks|
  {
    if chunks == [] then "" else chunks[0] + Concat(chunks[1..])
  }

  /** Each chunk leaves a byte of the buffer free, next to the unfinished line it meets there. */
  predicate Fit(size: nat, p: string, chunks: seq<string>)
    decreases |chunks|
  {
    chunks == [] ||
    (NUL !in chunks[0] && |p| + |chunks[0]| < size && Fit(size, Rest(p + chunks[0]), chunks[1..]))
  }

  /** A run of calls, with no `init` between them. */
  function Calls(c: Conn, chunks: seq<string>): Option<(Conn, seq<Event>)>
    decreases |chunks|
  {
    if chunks == [] then Some((c, []))
    else if |c.mem| < c.readIdx + |chunks[0]| then None
    else
      match Call(c, chunks[0])
      case None => None
      case Some((c', events)) =>
        match Calls(c', chunks[1..])
        case None => None
        case Some((d, later)) => Some((d, events + later))
  }

  lemma CallsEmpty(c: Conn)
    ensures Calls(c, []) == Some((c, []))
  {}

  lemma CallsMore(c: Conn, chunks: seq<string>)
    requires chunks != [] && c.readIdx + |chunks[0]| <= |c.mem| && Call(c, chunks[0]).Some?
    requires Calls(Call(c, chunks[0]).value.0, chunks[1..]).Some?
    ensures var (d, events), later := Call(c, chunks[0]).value, Calls(Call(c, chunks[0]).value.0, chunks[1..]).value;
            Calls(c, chunks) == Some((later.0, events + later.1))
  {
    hide Call;
  }

  /** What a call or a run of calls must give for a text `s` without bodies. */
  ghost predicate Delivers(r: Option<(Conn, seq<Event>)>, size: nat, s: string, t: Parser) {
    && r.Some? && |r.value.0.mem| == size && |Rest(s)| <= size && NUL !in Rest(s)
    && Stands(r.value.0, Rest(s), size - |Rest(s)|, AfterLines(t, Lines(s)))
    && Map(Mask, r.value.1) == Map(Mask, Events(t, Lines(s)))
  }

  lemma DeliversMeans(r: Option<(Conn, seq<Event>)>, size: nat, s: string, t: Parser)
    requires Delivers(r, size, s, t)
    ensures r.Some? && |r.value.0.mem| == size && |Rest(s)| <= size && NUL !in Rest(s)
    ensures Stands(r.value.0, Rest(s), size - |Rest(s)|, AfterLines(t, Lines(s)))
  {}

  lemma GivesDelivers(r: Option<(Conn, seq<Event>)>, size: nat, s: string, t: Parser)
    requires Gives(r, Some(Passed(Events(t, Lines(s)), AfterLines(t, Lines(s)), Rest(s))), size) && NUL !in Rest(s)
    ensures Delivers(r, size, s, t)
  {}

  lemma {:induction false} RestNoNul(s: string)
    requires NUL !in s
    ensures NUL !in Rest(s)
    decreases |s|
  {
    hide FindCrlf;
    if FindCrlf(s, 0).Some? {
      RestNoNul(s[FindCrlf(s, 0).value + 2..]);
    }
  }

  lemma CallDelivers(c: Conn, p: string, room: nat, t: Parser, data: string)
    requires Stands(c, p, room, t) && NUL !in p + data && |data| < room && Orderly(t, Lines(p + data))
    ensures c.readIdx + |data| <= |c.mem| && Delivers(Call(c, data), |c.mem|, p + data, t)
  {
    hide *;
    StandsMeans(c, p, room, t);
    CallRefines(c, p, room, t, data);
    PassLines(t, p + data, 0, room - |data|);
    RestNoNul(p + data);
    GivesDelivers(Call(c, data), |c.mem|, p + data, t);
  }

  lemma CallsNil(c: Conn, p: string, room: nat, t: Parser, chunks: seq<string>)
    requires Stands(c, p, room, t) && NUL !in p && FindCrlf(p, 0).None? && chunks == []
    ensures Delivers(Calls(c, chunks), |c.mem|, p + Concat(chunks), t)
  {
    hide Sim, FindCrlf;
    assert p + Concat(chunks) == p;
  }

  lemma RestHasNoLine(s: string)
    ensures FindCrlf(Rest(s), 0).None?
    decreases |s|
  {}

  lemma OrderlyFirst(t: Parser, s: string, x: string)
    requires Orderly(t, Lines(s + x))
    ensures Orderly(t, Lines(s)) && Orderly(AfterLines(t, Lines(s)), Lines(Rest(s) + x))
  {
    hide *;
    SplitAppend(s, x);
    RunAppend(t, Lines(s), Lines(Rest(s) + x));
  }

  lemma FitFirst(size: nat, p: string, chunks: seq<string>)
    requires chunks != [] && Fit(size, p, chunks)
    ensures NUL !in chunks[0] && |p| + |chunks[0]| < size && Fit(size, Rest(p + chunks[0]), chunks[1..])
  {}

  lemma NoNulIn(p: string, data: string)
    requires NUL !in p && NUL !in data
    ensures NUL !in p + data
  {}

  lemma ConcatFirst(p: string, chunks: seq<string>)
    requires chunks != []
    ensures p + Concat(chunks) == p + chunks[0] + Concat(chunks[1..])
  {}

  lemma DeliversCons(c: Conn, chunks: seq<string>, s: string, t: Parser, x: string)
    requires chunks != [] && c.readIdx + |chunks[0]| <= |c.mem| && Delivers(Call(c, chunks[0]), |c.mem|, s, t)
    requires Delivers(Calls(Call(c, chunks[0]).value.0, chunks[1..]), |c.mem|, Rest(s) + x, AfterLines(t, Lines(s)))
    ensures Delivers(Calls(c, chunks), |c.mem|, s + x, t)
  {
    hide Call, Stands, Lines, Rest, Events, AfterLines, Map, Orderly;
    var (c', events) := Call(c, chunks[0]).value;
    MapAppend(events, Calls(c', chunks[1..]).value.1);
    SplitAppend(s, x);
    RunAppend(t, Lines(s), Lines(Rest(s) + x));
    MapAppend(Events(t, Lines(s)), Events(AfterLines(t, Lines(s)), Lines(Rest(s) + x)));
  }

  /** However the stream is cut into calls, they do what the text level says of the whole stream. */
  lemma {:induction false} StreamRefines(c: Conn, p: string, room: nat, t: Parser, chunks: seq<string>)
    requires Stands(c, p, room, t) && NUL !in p && FindCrlf(p, 0).None? && Fit(|c.mem|, p, chunks)
    requires Orderly(t, Lines(p + Concat(chunks)))
    ensures Delivers(Calls(c, chunks), |c.mem|, p + Concat(chunks), t)
    decreases |chunks|
  {
    hide *;
    if chunks == [] {
      CallsNil(c, p, room, t, chunks);
    } else {
      StandsMeans(c, p, room, t);
      FitFirst(|c.mem|, p, chunks);
      var s, later := p + chunks[0], chunks[1..];
      ConcatFirst(p, chunks);
      OrderlyFirst(t, s, Concat(later));
      NoNulIn(p, chunks[0]);
      CallDelivers(c, p, room, t, chunks[0]);
      DeliversMeans(Call(c, chunks[0]), |c.mem|, s, t);
      RestHasNoLine(s);
      StreamRefines(Call(c, chunks[0]).value.0, Rest(s), |c.mem| - |Rest(s)|, AfterLines(t, Lines(s)), later);
      DeliversCons(c, chunks, s, t, Concat(later));
    }
  }

  lemma {:induction false} HoldsOnce(a: string, b: string, s: string, room: nat)
    requires Holds(a, 0, s, room) && Holds(b, 0, s, room)
    ensures a == b
  {
    forall j | 0 <= j < |a| ensures a[j] == b[j] {
      if j < |s| { assert a[0 + j] == s[j] == b[0 + j]; }
    }
  }

  /** A connection `init` has just swept. */
  function Fresh(size: nat): (c: Conn)
    ensures Holds(c.mem, 0, "", size) && Sim(c.regs, START)
  {
    Conn(Zeros(size), 0, START_REGS)
  }

  lemma FreshStands(size: nat)
    ensures Stands(Fresh(size), "", size, START) && |Fresh(size).mem| == size
  {}

  /**
  Two ways of cutting one stream without bodies into calls give the same lines in the same states, the same requests
  up to path and token, and the same connection: the line that is still open, with zeros behind it, and the same
  registers up to the pointers.
   */
  lemma ChunkIndependence(size: nat, x: seq<string>, y: seq<string>)
    requires Concat(x) == Concat(y) && Fit(size, "", x) && Fit(size, "", y) && Orderly(START, Lines(Concat(x)))
    ensures var c, d, s := Calls(Fresh(size), x), Calls(Fresh(size), y), Concat(x);
            && c.Some? && d.Some?
            && Map(Mask, c.value.1) == Map(Mask, Events(START, Lines(s))) == Map(Mask, d.value.1)
            && c.value.0.mem == d.value.0.mem && |Rest(s)| <= size && Holds(c.value.0.mem, 0, Rest(s), size - |Rest(s)|)
            && c.value.0.readIdx == d.value.0.readIdx == |Rest(s)|
            && Sim(c.value.0.regs, AfterLines(START, Lines(s))) && Sim(d.value.0.regs, AfterLines(START, Lines(s)))
  {
    hide Calls, Fit, Orderly, Concat, Lines, Rest, AfterLines, Events, Map, Sim, Holds;
    var c := Fresh(size);
    assert "" + Concat(x) == Concat(x) && "" + Concat(y) == Concat(y);
    StreamRefines(c, "", size, START, x);
    StreamRefines(c, "", size, START, y);
    HoldsOnce(Calls(c, x).value.0.mem, Calls(c, y).value.0.mem, Rest(Concat(x)), size - |Rest(Concat(x))|);
  }
}
