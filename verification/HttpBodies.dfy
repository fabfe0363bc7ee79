/**
Requests that announce a body (src/http/http_conn.cpp:134-155). The body is handed on; the skip behind it adds a length
that was reset before, so reading goes on inside the body, and the NUL that ends the body ends the reading.
 */
module HttpBodies {
  import opened Strings
  import opened HttpText
  import opened HttpMemory
  import opened HttpParser
  import opened HttpPass
  import opened HttpStream
  import opened HttpCalls

  lemma BlankFirst(u: string, rest: string)
    requires u == "\r\n" + rest
    ensures Splits(u, 0, "", rest)
  {
    assert CrlfAt(u, 0);
    assert FindLine(u, 0) == Some(0);
  }

  lemma CloseEvents(t: Parser, post: Option<string>)
    requires t.state == HEADER && t.url.Some?
    ensures Requests(LineEvents(t, "", post)) == [Request(t.url.value, t.isPost, t.token, t.keepAlive, post)]
  {
    var e := LineEvents(t, "", post);
    assert e[1..] == [e[1]];
    assert Requests(e[1..]) == [e[1].request] + Requests([]);
  }

  /**
  Behind a blank line the pass goes on at the first byte of the body, for every length whose end is in the buffer:
  at the promised place exactly when the length is zero. What it then makes of the body is a pass like any other.
   */
  lemma BodyStays(mem: string, start: nat, regs: Regs, rest: string, room: nat, t: Parser)
    requires Holds(mem, start, "\r\n" + rest, room) && Sim(regs, t) && t.state == HEADER
    requires Allowed(t, "", start + 2, |rest| + room)
    ensures CrlfAt(mem, start)
    ensures var o, left := OneLine(mem, start, start, regs), Terminated(rest, t.contentLength);
            && o.Outcome? && Map(Mask, o.events) == Map(Mask, LineEvents(t, "", Post(t, left)))
            && RunLines(mem, start, regs) == Prepend(o.events, RunLines(o.mem, o.start, o.regs))
            && o.start == start + 2 && Holds(o.mem, o.start, left, room)
            && (o.start == start + 2 + t.contentLength <==> t.contentLength == 0)
            && Agrees(RunLines(o.mem, o.start, o.regs), Pass(AfterLine(t, ""), left, o.start, room), |mem|, room)
  {
    hide *;
    BlankFirst("\r\n" + rest, rest);
    FirstLine(mem, start, regs, "\r\n" + rest, room, t, 0, "", rest);
    BehindBlank(t, rest);
    var o := OneLine(mem, start, start, regs);
    RunRefines(o.mem, o.start, o.regs, Terminated(rest, t.contentLength), room, AfterLine(t, ""));
  }

  lemma BehindBlank(t: Parser, rest: string)
    requires t.state == HEADER
    ensures Behind(t, "", rest) == Terminated(rest, t.contentLength)
  {}

  lemma {:induction false} UpToNulIs(x: string, y: string)
    requires NUL !in x && (y == "" || y[0] == NUL)
    ensures UpToNul(x + y) == x
  {
    if x == "" {
      assert x + y == y;
    } else {
      assert x[0] in x && (x + y)[0] == x[0] && (x + y)[1..] == x[1..] + y;
      UpToNulIs(x[1..], y);
    }
  }

  lemma TerminatedBody(body: string, more: string)
    requires body != ""
    ensures Terminated(body + more, |body|) == if more == "" then body else body + [NUL] + more[1..]
  {
    if more == "" {
      assert body + more == body;
    }
  }

  /** A body that is all there is handed on as it is, whatever follows it; a shorter one as far as it came. */
  lemma PostIs(t: Parser, body: string, more: string)
    requires NUL !in body && t.contentLength > 0 &&
             (|body| == t.contentLength || (|body| < t.contentLength && more == ""))
    ensures Post(t, Terminated(body + more, t.contentLength)) == Some(body)
  {
    hide UpToNul, Terminated;
    if more == "" {
      assert body + more == body;
      ShortBody(body, t.contentLength);
      assert body + "" == body;
      UpToNulIs(body, "");
    } else {
      TerminatedBody(body, more);
      assert body + [NUL] + more[1..] == body + ([NUL] + more[1..]);
      UpToNulIs(body, [NUL] + more[1..]);
    }
  }

  /** Without a length nothing is handed on; with a negative one, all that stands behind the headers up to a NUL. */
  lemma PostOtherwise(t: Parser, x: string, y: string)
    requires NUL !in x && (y == "" || y[0] == NUL)
    ensures t.contentLength == 0 ==> Post(t, Terminated(x + y, t.contentLength)) == None
    ensures t.contentLength < 0 ==> Post(t, Terminated(x + y, t.contentLength)) == Some(x)
  {
    hide UpToNul;
    UpToNulIs(x, y);
  }

  lemma ShortBody(body: string, n: int)
    requires |body| <= n
    ensures Terminated(body, n) == body
  {}

  // ---------------------------------------------------------------- a NUL in the bytes

  lemma {:induction false} FindLineBeforeNul(x: string, y: string, from: nat)
    requires from <= |x|
    ensures FindLine(x + [NUL] + y, from) == FindLine(x, from)
    decreases |x| - from
  {
    var u := x + [NUL] + y;
    if from < |x| {
      assert u[from] == x[from];
      assert CrlfAt(u, from) <==> CrlfAt(x, from);
      FindLineBeforeNul(x, y, from + 1);
    } else {
      assert u[from] == NUL;
    }
  }

  lemma {:induction false} UpToNulBefore(x: string, y: string)
    ensures UpToNul(x + [NUL] + y) == UpToNul(x)
  {
    var u := x + [NUL] + y;
    if x == "" {
      assert u[0] == NUL;
    } else {
      assert u[0] == x[0] && u[1..] == x[1..] + [NUL] + y;
      UpToNulBefore(x[1..], y);
    }
  }

  /** Where a body ends inside `x`, inside `y`, or on the NUL between them. */
  lemma TerminatedBefore(x: string, y: string, n: int) returns (z: string)
    ensures |z| == |y| && Terminated(x + [NUL] + y, n) == Terminated(x, n) + [NUL] + z
  {
    var u := x + [NUL] + y;
    z := if |x| < n < |u| then y[n - |x| - 1 := NUL] else y;
    if n == |x| {
      assert u[|x| := NUL] == u;
    }
  }

  lemma SplitsBefore(x: string, y: string, m: nat, line: string, rest: string)
    requires Splits(x, m, line, rest)
    ensures Splits(x + [NUL] + y, m, line, rest + [NUL] + y)
  {
    FindLineBeforeNul(x, y, 0);
    var u := x + [NUL] + y;
    assert m + 2 <= |x| && u[..m] == x[..m] && u[m + 2..] == x[m + 2..] + [NUL] + y;
  }

  /** The same pass, with more bytes behind a NUL. */
  ghost predicate Ignores(long: Option<Passed>, short: Option<Passed>, n: nat) {
    && (long.Some? <==> short.Some?)
    && (long.Some? ==>
          && long.value.events == short.value.events && long.value.parser == short.value.parser
          && exists z: string :: |z| == n && long.value.rest == short.value.rest + [NUL] + z)
  }

  lemma IgnoresThen(events: seq<Event>, long: Option<Passed>, short: Option<Passed>, n: nat)
    requires Ignores(long, short, n)
    ensures Ignores(Then(events, long), Then(events, short), n)
  {}

  lemma IgnoresNone(n: nat)
    ensures Ignores(None, None, n)
  {}

  lemma IgnoresRest(p: Parser, x: string, y: string)
    ensures Ignores(Some(Passed([], p, x + [NUL] + y)), Some(Passed([], p, x)), |y|)
  {}

  lemma BehindBefore(p: Parser, line: string, x: string, y: string) returns (z: string)
    ensures |z| == |y| && Behind(p, line, x + [NUL] + y) == Behind(p, line, x) + [NUL] + z
    ensures Post(p, Behind(p, line, x + [NUL] + y)) == Post(p, Behind(p, line, x))
  {
    hide Terminated, UpToNul;
    if Closes(p, line) {
      z := TerminatedBefore(x, y, p.contentLength);
    } else {
      z := y;
    }
    UpToNulBefore(Behind(p, line, x), z);
  }

  /** What stands behind a NUL is never read: it changes no event and no register, and stays where it is. */
  lemma {:induction false} NothingBehindNul(p: Parser, x: string, y: string, before: nat, room: nat)
    ensures Ignores(Pass(p, x + [NUL] + y, before, room), Pass(p, x, before, 1 + |y| + room), |y|)
    decreases |x|
  {
    hide *;
    var u := x + [NUL] + y;
    FindLineBeforeNul(x, y, 0);
    if FindLine(x, 0).None? {
      PassEnds(p, u, before, room);
      PassEnds(p, x, before, 1 + |y| + room);
      NulThere(x, y);
      IgnoresRest(p, x, y);
    } else {
      var m, line, rest := Split(x);
      SplitsBefore(x, y, m, line, rest);
      PassFirst(p, x, m, line, rest, before, 1 + |y| + room);
      PassFirst(p, u, m, line, rest + [NUL] + y, before, room);
      assert |rest + [NUL] + y| + room == |rest| + (1 + |y| + room);
      if Allowed(p, line, before + m + 2, |rest| + (1 + |y| + room)) {
        var z := BehindBefore(p, line, rest, y);
        NothingBehindNul(AfterLine(p, line), Behind(p, line, rest), z, before + m + 2, room);
        IgnoresThen(LineEvents(p, line, Post(p, Behind(p, line, rest))),
                    Pass(AfterLine(p, line), Behind(p, line, rest) + [NUL] + z, before + m + 2, room),
                    Pass(AfterLine(p, line), Behind(p, line, rest), before + m + 2, 1 + |y| + room), |y|);
      } else {
        IgnoresNone(|y|);
      }
    }
  }

  lemma NulThere(x: string, y: string)
    ensures NUL in x + [NUL] + y
  {
    assert (x + [NUL] + y)[|x|] == NUL;
  }

  /** Every pass stops where no line is left. */
  lemma {:induction false} PassLeavesNoLine(p: Parser, u: string, before: nat, room: nat)
    requires Pass(p, u, before, room).Some?
    ensures FindLine(Pass(p, u, before, room).value.rest, 0).None?
    decreases |u|
  {
    hide *;
    if FindLine(u, 0).None? {
      PassEnds(p, u, before, room);
    } else {
      var m, line, rest := Split(u);
      PassFirst(p, u, m, line, rest, before, room);
      var later := Pass(AfterLine(p, line), Behind(p, line, rest), before + m + 2, room);
      ThenIs(LineEvents(p, line, Post(p, Behind(p, line, rest))), later);
      PassLeavesNoLine(AfterLine(p, line), Behind(p, line, rest), before + m + 2, room);
    }
  }

  /**
  Bytes behind a complete body, a pipelined request for one, are lost: the pass hands on what it would hand on
  without them, and it leaves a NUL at which every later scan stops.
   */
  lemma LostBehindBody(t: Parser, body: string, more: string, before: nat, room: nat)
    requires t.state == HEADER && t.contentLength == |body| > 0 && more != ""
    ensures var long := Pass(t, "\r\n" + (body + more), before, room);
            var short := Pass(t, "\r\n" + body, before, |more| + room);
            && (long.Some? <==> short.Some?)
            && (long.Some? ==>
                  && long.value.events == short.value.events && long.value.parser == short.value.parser
                  && NUL in long.value.rest && FindLine(long.value.rest, 0).None?)
  {
    hide *;
    var u, v := "\r\n" + (body + more), "\r\n" + body;
    BlankFirst(u, body + more);
    BlankFirst(v, body);
    PassFirst(t, u, 0, "", body + more, before, room);
    PassFirst(t, v, 0, "", body, before, |more| + room);
    BehindBlank(t, body + more);
    BehindBlank(t, body);
    TerminatedBody(body, more);
    ShortBody(body, |body|);
    SamePost(t, body, more);
    NothingBehindNul(AfterLine(t, ""), body, more[1..], before + 2, room);
    var long := Pass(AfterLine(t, ""), body + [NUL] + more[1..], before + 2, room);
    var short := Pass(AfterLine(t, ""), body, before + 2, |more| + room);
    var events := LineEvents(t, "", Post(t, body));
    IgnoresThen(events, long, short, |more| - 1);
    IgnoresMeans(Then(events, long), Then(events, short), |more| - 1);
    if Pass(t, u, before, room).Some? {
      PassLeavesNoLine(t, u, before, room);
    }
  }

  lemma SamePost(t: Parser, body: string, more: string)
    requires more != ""
    ensures Post(t, body + [NUL] + more[1..]) == Post(t, body)
  {
    hide UpToNul;
    UpToNulBefore(body, more[1..]);
  }

  lemma IgnoresMeans(long: Option<Passed>, short: Option<Passed>, n: nat)
    requires Ignores(long, short, n)
    ensures long.Some? <==> short.Some?
    ensures long.Some? ==>
              && long.value.events == short.value.events && long.value.parser == short.value.parser
              && NUL in long.value.rest
  {
    if long.Some? {
      var z: string :| |z| == n && long.value.rest == short.value.rest + [NUL] + z;
      NulThere(short.value.rest, z);
    }
  }

  /** A connection whose kept bytes hold a NUL before any line answers nothing more, whatever arrives, until `init`. */
  lemma {:induction false} DeafBehindNul(c: Conn, p: string, room: nat, t: Parser, chunks: seq<string>)
    requires Stands(c, p, room, t) && FindLine(p, 0).None? && NUL in p && |Concat(chunks)| <= room
    ensures Calls(c, chunks).Some? && Calls(c, chunks).value.1 == []
    decreases |chunks|
  {
    hide *;
    if chunks == [] {
      CallsEmpty(c);
    } else {
      StandsMeans(c, p, room, t);
      var data := chunks[0];
      ConcatFirst("", chunks);
      NoConcat(chunks);
      StillNoLine(p, data);
      CallRefines(c, p, room, t, data);
      PassEnds(t, p + data, 0, room - |data|);
      GivesNothing(Call(c, data), p + data, |c.mem|, t);
      var c' := Call(c, data).value.0;
      DeafBehindNul(c', p + data, |c.mem| - |p + data|, t, chunks[1..]);
      CallsMore(c, chunks);
    }
  }

  lemma NoConcat(chunks: seq<string>)
    requires chunks != []
    ensures |Concat(chunks)| == |chunks[0]| + |Concat(chunks[1..])|
  {}

  lemma StillNoLine(p: string, data: string)
    requires FindLine(p, 0).None? && NUL in p
    ensures FindLine(p + data, 0).None? && NUL in p + data && p + data != ""
  {
    var k :| 0 <= k < |p| && p[k] == NUL;
    assert p == p[..k] + [NUL] + p[k + 1..];
    FindLineBeforeNul(p[..k], p[k + 1..], 0);
    assert p + data == p[..k] + [NUL] + (p[k + 1..] + data);
    FindLineBeforeNul(p[..k], p[k + 1..] + data, 0);
    NulThere(p[..k], p[k + 1..] + data);
  }

  lemma GivesNothing(r: Option<(Conn, seq<Event>)>, rest: string, size: nat, t: Parser)
    requires Gives(r, Some(Passed([], t, rest)), size)
    ensures r.Some? && r.value.1 == [] && |r.value.0.mem| == size && |rest| <= size
    ensures Stands(r.value.0, rest, size - |rest|, t)
  {
    hide Stands;
    assert |Map(Mask, r.value.1)| == |r.value.1|;
  }
}
