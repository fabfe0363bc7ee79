/** `http_conn` as it is: one buffer, cut up in place, and fields the calls update (src/http/http_conn.cpp). */
module HttpConns {
  import opened Strings
  import opened HttpText
  import opened HttpMemory
  import opened HttpParser

  const READ_BUFFER_SIZE := 2048

  /** What the kernel says once every byte that has arrived is read. */
  datatype After = Drained | Closed | Failed

  /** `recv`: some bytes, or 0 when the peer is gone or there is no room, or -1 with EAGAIN, or -1. */
  datatype RecvResult = Bytes(n: nat) | Gone | Again | Broken

  class Socket {
    var incoming: string
    const after: After

    constructor (incoming: string, after: After)
      ensures this.incoming == incoming && this.after == after
    {
      this.incoming, this.after := incoming, after;
    }

    /** The kernel chooses how many of the bytes it has it hands over. */
    method Recv(buf: array<char>, off: nat, len: nat) returns (r: RecvResult)
      requires off + len <= buf.Length
      modifies this`incoming, buf
      ensures r.Bytes? <==> len > 0 && old(incoming) != ""
      ensures r.Bytes? ==> 0 < r.n <= len && r.n <= |old(incoming)| && incoming == old(incoming)[r.n..]
      ensures r.Bytes? ==> buf[..] == Over(old(buf[..]), off, old(incoming)[..r.n])
      ensures !r.Bytes? ==> incoming == old(incoming) && buf[..] == old(buf[..])
      ensures !r.Bytes? && len == 0 ==> r == Gone
      ensures !r.Bytes? && len > 0 ==> r == match after case Drained => Again case Closed => Gone case Failed => Broken
    {
      if len == 0 {
        return Gone;
      }
      if incoming == "" {
        match after {
          case Drained => return Again;
          case Closed => return Gone;
          case Failed => return Broken;
        }
      }
      var n: nat :| 0 < n <= len && n <= |incoming|;
      forall j | 0 <= j < n {
        buf[off + j] := incoming[j];
      }
      incoming := incoming[n..];
      r := Bytes(n);
    }
  }

  class HttpConn {
    const readBuf: array<char>
    var readIdx: nat
    var checkState: CheckState
    var url: Ptr
    var isPost: bool
    var contentLength: int
    var postData: Ptr
    var jwtToken: Ptr
    var keepAlive: bool
    ghost var log: seq<Event>

    ghost predicate Valid()
      reads this
    {
      readBuf.Length == READ_BUFFER_SIZE && readIdx <= READ_BUFFER_SIZE && postData == Null
    }

    ghost function Registers(): Regs
      reads this
    {
      Regs(checkState, url, isPost, contentLength, jwtToken, keepAlive)
    }

    ghost function State(): Conn
      reads this, readBuf
    {
      Conn(readBuf[..], readIdx, Registers())
    }

    constructor ()
      ensures Valid() && fresh(readBuf) && log == []
      ensures State() == Conn(Zeros(READ_BUFFER_SIZE), 0, START_REGS)
    {
      readBuf := new char[READ_BUFFER_SIZE](_ => NUL);
      readIdx, checkState, url, isPost := 0, REQUESTLINE, Null, false;
      contentLength, postData, jwtToken, keepAlive := 0, Null, Null, false;
      log := [];
      new;
      assert readBuf[..] == Zeros(READ_BUFFER_SIZE);
    }

    /** `init()`: everything the last request left behind is gone. */
    method Init()
      requires readBuf.Length == READ_BUFFER_SIZE
      modifies this, readBuf
      ensures Valid() && State() == Conn(Zeros(READ_BUFFER_SIZE), 0, START_REGS) && log == old(log)
    {
      checkState, isPost, contentLength, keepAlive := REQUESTLINE, false, 0, false;
      readIdx, url, postData, jwtToken := 0, Null, Null, Null;
      forall j | 0 <= j < READ_BUFFER_SIZE {
        readBuf[j] := NUL;
      }
      assert readBuf[..] == Zeros(READ_BUFFER_SIZE);
    }

    /** `read`: the reactor drains the socket. A buffer that gets full counts as a failure. */
    method Read(socket: Socket) returns (ok: bool)
      requires Valid()
      modifies this`readIdx, readBuf, socket`incoming
      ensures Valid()
      ensures ok <==> socket.after.Drained? && old(readIdx) + |old(socket.incoming)| < READ_BUFFER_SIZE
      ensures var n := Taken(old(readIdx), old(socket.incoming));
              && State() == Received(old(State()), old(socket.incoming)[..n])
              && socket.incoming == old(socket.incoming)[n..]
    {
      hide Received, HasRead, Over, Taken;
      ghost var c, all, n := State(), socket.incoming, 0;
      ReadNothing(c, all);
      if readIdx >= READ_BUFFER_SIZE {
        ReadAll(c, all, State(), socket.incoming, n);
        return false;
      }
      while true
        invariant Valid() && 0 <= n && HasRead(c, all, State(), socket.incoming, n)
        decreases |socket.incoming|
      {
        ghost var now, rest := State(), socket.incoming;
        HasReadMeans(c, all, now, rest, n);
        var r := socket.Recv(readBuf, readIdx, READ_BUFFER_SIZE - readIdx);
        match r {
          case Again =>
            break;
          case Broken =>
            ReadAll(c, all, now, rest, n);
            return false;
          case Gone =>
            ReadAll(c, all, now, rest, n);
            return false;
          case Bytes(k) =>
            readIdx := readIdx + k;
            ReadMore(c, all, now, rest, n, k, State(), socket.incoming);
            n := n + k;
        }
      }
      ReadAll(c, all, State(), socket.incoming, n);
      return true;
    }

    /** The first loop of `process`: it stops when the socket is drained or the buffer full, and gives up otherwise. */
    method Drain(socket: Socket) returns (parse: bool)
      requires Valid()
      modifies this`readIdx, readBuf, socket`incoming
      ensures Valid()
      ensures parse == Parses(old(readIdx), old(socket.incoming), socket.after)
      ensures var n := Taken(old(readIdx), old(socket.incoming));
              && State() == Received(old(State()), old(socket.incoming)[..n])
              && socket.incoming == old(socket.incoming)[n..]
    {
      hide Received, HasRead, Over, Taken;
      ghost var c, all, n := State(), socket.incoming, 0;
      ReadNothing(c, all);
      while true
        invariant Valid() && 0 <= n && HasRead(c, all, State(), socket.incoming, n)
        invariant readIdx < READ_BUFFER_SIZE || n == 0
        decreases |socket.incoming|
      {
        ghost var now, rest := State(), socket.incoming;
        HasReadMeans(c, all, now, rest, n);
        var r := socket.Recv(readBuf, readIdx, READ_BUFFER_SIZE - readIdx);
        match r {
          case Again =>
            break;
          case Broken =>
            ReadAll(c, all, now, rest, n);
            return false;
          case Gone =>
            ReadAll(c, all, now, rest, n);
            return false;
          case Bytes(k) =>
            readIdx := readIdx + k;
            ReadMore(c, all, now, rest, n, k, State(), socket.incoming);
            HasReadMeans(c, all, State(), socket.incoming, n + k);
            n := n + k;
            if readIdx >= READ_BUFFER_SIZE {
              break;
            }
        }
      }
      HasReadMeans(c, all, State(), socket.incoming, n);
      ReadAll(c, all, State(), socket.incoming, n);
      return true;
    }

    /** `get_line_from_buf`: cuts the line at its CRLF and moves the start behind it. */
    method GetLine(start: nat) returns (line: Option<nat>, next: nat)
      requires readBuf.Length == READ_BUFFER_SIZE && start <= READ_BUFFER_SIZE
      requires Scan(readBuf[..], start) != Overrun
      modifies readBuf
      ensures match Scan(old(readBuf[..]), start)
              case NoLine => line == None && next == start && readBuf[..] == old(readBuf[..])
              case Found(i) =>
                && line == Some(start) && next == i + 2 <= READ_BUFFER_SIZE
                && readBuf[..] == CutAt(old(readBuf[..]), i)
    {
      var i := start;
      ScanFinds(readBuf[..], start);
      while readBuf[i] != NUL
        invariant start <= i < READ_BUFFER_SIZE && readBuf[..] == old(readBuf[..])
        invariant Scan(readBuf[..], start) == Scan(readBuf[..], i)
        decreases READ_BUFFER_SIZE - i
      {
        if readBuf[i] == '\r' && readBuf[i + 1] == '\n' {
          readBuf[i] := NUL;
          readBuf[i + 1] := NUL;
          return Some(start), i + 2;
        }
        i := i + 1;
      }
      return None, start;
    }

    method ParseRequestLine(text: nat)
      requires text <= readBuf.Length
      modifies this`url, this`isPost, readBuf
      ensures var line := CStr(old(readBuf[..]), text);
              && readBuf[..] == Over(old(readBuf[..]), text, Blanked(line))
              && isPost == (old(isPost) || HasPrefix(line, "POST")) && url == UrlPtr(line, text)
    {
      hide FirstBlank, QueryAt, HasPrefix, CStr, Over, Put, RawPath;
      ghost var mem := readBuf[..];
      var line := CStr(readBuf[..], text);
      OverNothing(mem, text, line);
      if HasPrefix(line, "POST") {
        isPost := true;
      }
      var b := FirstBlank(line);
      if b == |line| {
        url := Null;
      } else {
        PutNul(text + b, mem, text, line);
        url := At(text + b + 1);
        var rest := line[b + 1..];
        var v := FirstBlank(rest);
        if v < |rest| {
          PutNul(text + b + 1 + v, mem, text, Put(line, b));
        } else {
          PutBeyond(Put(line, b), b + 1 + v);
        }
        var q := QueryAt(rest[..v]);
        if q < v {
          PutNul(text + b + 1 + q, mem, text, Put(Put(line, b), b + 1 + v));
        }
        if rest[..v][..q] == "/" {
          url := IndexHtml;
        }
        UrlIs(line, b, v, q, text);
      }
    }

    method PutNul(at: nat, ghost mem: string, ghost text: nat, ghost x: string)
      requires text + |x| <= |mem| && readBuf[..] == Over(mem, text, x) && text <= at < text + |x|
      modifies readBuf
      ensures readBuf[..] == Over(mem, text, Put(x, at - text))
    {
      readBuf[at] := NUL;
    }

    method ParseHeaders(text: nat)
      requires text <= readBuf.Length
      modifies this`contentLength, this`keepAlive, this`jwtToken
      ensures Registers() == HeaderRegs(CStr(readBuf[..], text), text, old(Registers()))
    {
      hide Atol, Blanks, CStr, HasPrefix;
      var line := CStr(readBuf[..], text);
      PrefixFits(line);
      if HasPrefix(line, "Content-Length:") {
        contentLength := Atol(line[15 + Blanks(line[15..])..]);
      } else if HasPrefix(line, "Connection:") {
        if HasPrefix(line[11 + Blanks(line[11..])..], "keep-alive") {
          keepAlive := true;
        }
      } else if HasPrefix(line, "Authorization:") {
        var at := 14 + Blanks(line[14..]);
        if HasPrefix(line[at..], "Bearer ") {
          jwtToken := At(text + at + 7);
        }
      }
    }

    /** `do_request`, as far as the parser is concerned: the request it is handed, read through the pointers. */
    method DoRequest()
      requires url != Null
      modifies this`log
      ensures log == old(log) + [Dispatch(Asked())]
    {
      log := log + [Dispatch(Asked())];
    }

    ghost function Asked(): Request
      reads this, readBuf
    {
      Request(Deref(readBuf[..], url), isPost, Text(jwtToken), keepAlive, Text(postData))
    }

    ghost function Text(p: Ptr): Option<string>
      reads readBuf
    {
      if p == Null then None else Some(Deref(readBuf[..], p))
    }

    /** The blank line: a body is terminated where it should end, the request handed on, the registers reset. */
    method BlankLine(next: nat) returns (start: nat)
      requires Valid() && checkState == HEADER && next <= READ_BUFFER_SIZE
      requires Dispatched(readBuf[..], next, Registers()).Outcome?
      modifies this, readBuf
      ensures Valid() && readIdx == old(readIdx)
      ensures var o := Dispatched(old(readBuf[..]), next, old(Registers()));
              && readBuf[..] == o.mem && start == o.start && Registers() == o.regs
              && o.events == [Line(HEADER, ""), o.events[1]] && log == old(log) + [o.events[1]]
    {
      hide CStr;
      start := next;
      if contentLength != 0 {
        postData := At(next);
        readBuf[next + contentLength] := NUL;
      }
      DoRequest();
      checkState, contentLength, url, isPost := REQUESTLINE, 0, Null, false;
      if postData != Null {
        start := start + contentLength;
        postData := Null;
      }
    }

    /** The body of the second loop of `process`, for a line that `GetLine` has cut. */
    method HandleLine(line: nat, next: nat, ghost mem: string, ghost i: nat)
      returns (start: nat, ghost events: seq<Event>)
      requires Valid() && line <= i && CrlfAt(mem, i) && NUL !in mem[line..i] && next == i + 2 <= READ_BUFFER_SIZE
      requires readBuf[..] == CutAt(mem, i) && OneLine(mem, line, i, Registers()).Outcome?
      modifies this, readBuf
      ensures Valid() && readIdx == old(readIdx)
      ensures OneLine(mem, line, i, old(Registers())) == Outcome(readBuf[..], start, Registers(), events)
      ensures log == old(log) + events
    {
      hide HasPrefix, Blanked, Over, CutAt, CStr, UrlPtr, HeaderRegs, Dispatched;
      CutCStr(mem, line, i);
      start := next;
      if checkState == REQUESTLINE {
        ParseRequestLine(line);
        checkState := HEADER;
        events := [Line(REQUESTLINE, mem[line..i])];
        log := log + events;
      } else if CStr(readBuf[..], line) == "" {
        events := OneLine(mem, line, i, Registers()).events;
        log := log + [Line(HEADER, "")];
        start := BlankLine(next);
      } else {
        ParseHeaders(line);
        events := [Line(HEADER, mem[line..i])];
        log := log + events;
      }
    }

    /** The end of `process`: what is left is moved to the front, the rest of the buffer zeroed. */
    method Settle(start: nat)
      requires Valid()
      modifies this`readIdx, readBuf
      ensures Valid() && State() == Settled(old(readBuf[..]), start, old(readIdx), Registers())
    {
      if start < readIdx {
        var left := readIdx - start;
        forall j | 0 <= j < left {
          readBuf[j] := readBuf[start + j];
        }
        readIdx := left;
      } else {
        readIdx := 0;
      }
      forall j | readIdx <= j < READ_BUFFER_SIZE {
        readBuf[j] := NUL;
      }
    }

    /** One call: read what the socket has, take every complete line, keep the rest. */
    method Process(socket: Socket) returns (ghost events: seq<Event>)
      requires Valid()
      requires var n := Taken(readIdx, socket.incoming);
               Parses(readIdx, socket.incoming, socket.after) ==> Call(State(), socket.incoming[..n]).Some?
      modifies this, readBuf, socket`incoming
      ensures Valid() && log == old(log) + events
      ensures var n, c, all := Taken(old(readIdx), old(socket.incoming)), old(State()), old(socket.incoming);
              && socket.incoming == all[n..]
              && if Parses(c.readIdx, all, socket.after) then Call(c, all[..n]) == Some((State(), events))
                 else State() == Received(c, all[..n]) && events == []
    {
      hide Received, Parses, Scan, Passing, Taken, OneLine, CutAt, Settled, CrlfAt;
      events := [];
      ghost var c, all, n := State(), socket.incoming, Taken(readIdx, socket.incoming);
      var parse := Drain(socket);
      ghost var r := State();
      if !parse {
        return;
      }
      CallAfterDrain(c, all[..n]);
      if readIdx == 0 {
        return;
      }
      var start := 0;
      while true
        invariant Valid() && start <= READ_BUFFER_SIZE && readIdx == r.readIdx && log == old(log) + events
        invariant Passing(r.mem, r.regs, events, readBuf[..], start, Registers()) && socket.incoming == all[n..]
        decreases READ_BUFFER_SIZE - start
      {
        ghost var mem, regs, was := readBuf[..], Registers(), start;
        PassingScan(r.mem, r.regs, events, mem, start, regs);
        var line, next := GetLine(start);
        if line == None {
          break;
        }
        ghost var ev;
        start, ev := HandleLine(line.value, next, mem, next - 2);
        PassingLine(r.mem, r.regs, events, mem, was, regs, next - 2);
        events := events + ev;
      }
      PassingEnd(c, all[..n], events, readBuf[..], start, Registers());
      Settle(start);
    }
  }

  /** How much of what arrives finds room. */
  function Taken(readIdx: nat, incoming: string): (n: nat)
    requires readIdx <= READ_BUFFER_SIZE
    ensures n <= |incoming| && readIdx + n <= READ_BUFFER_SIZE
  {
    if |incoming| <= READ_BUFFER_SIZE - readIdx then |incoming| else READ_BUFFER_SIZE - readIdx
  }

  /** Whether `process` gets past its first loop. */
  predicate Parses(readIdx: nat, incoming: string, after: After) {
    readIdx < READ_BUFFER_SIZE && (READ_BUFFER_SIZE <= readIdx + |incoming| || after.Drained?)
  }

  /** Bytes `read` took before and bytes `process` takes itself make one chunk. */
  lemma ReadThenProcess(c: Conn, x: string, y: string)
    requires c.readIdx + |x| + |y| <= |c.mem|
    ensures Call(Received(c, x), y) == Call(c, x + y)
  {
    hide RunLines, Settled;
    ReceivedMore(c, x, y);
    ReceivedNothing(Received(c, x + y));
  }

  lemma ReceivedNothing(c: Conn)
    requires c.readIdx <= |c.mem|
    ensures Received(c, "") == c
  {}

  lemma ReceivedMore(c: Conn, x: string, y: string)
    requires c.readIdx + |x| + |y| <= |c.mem|
    ensures Received(Received(c, x), y) == Received(c, x + y)
  {}

  /** After `n` bytes of what the socket had: they are in the buffer, the others are still to come. */
  ghost predicate HasRead(c: Conn, all: string, now: Conn, incoming: string, n: nat) {
    && n <= |all| && c.readIdx + n <= |c.mem|
    && now == Received(c, all[..n]) && incoming == all[n..]
  }

  lemma ReadNothing(c: Conn, all: string)
    requires c.readIdx <= |c.mem|
    ensures HasRead(c, all, c, all, 0)
  {}

  lemma HasReadMeans(c: Conn, all: string, now: Conn, incoming: string, n: nat)
    requires HasRead(c, all, now, incoming, n)
    ensures now.readIdx == c.readIdx + n <= |c.mem| == |now.mem| && |incoming| + n == |all| && now.regs == c.regs
  {}

  lemma ReadMore(c: Conn, all: string, now: Conn, incoming: string, n: nat, k: nat, now': Conn, incoming': string)
    requires HasRead(c, all, now, incoming, n) && k <= |incoming| && now.readIdx + k <= |now.mem|
    requires now' == Conn(Over(now.mem, now.readIdx, incoming[..k]), now.readIdx + k, now.regs) &&
             incoming' == incoming[k..]
    ensures HasRead(c, all, now', incoming', n + k)
  {
    hide Over;
    ReceivedMore(c, all[..n], incoming[..k]);
    assert all[..n] + incoming[..k] == all[..n + k];
    assert now' == Received(now, incoming[..k]);
  }

  /** Reading stops when everything is in, or nothing more finds room. */
  lemma ReadAll(c: Conn, all: string, now: Conn, incoming: string, n: nat)
    requires HasRead(c, all, now, incoming, n) && |c.mem| == READ_BUFFER_SIZE
    requires incoming == "" || now.readIdx == READ_BUFFER_SIZE
    ensures n == Taken(c.readIdx, all)
    ensures now == Received(c, all[..n]) && incoming == all[n..]
  {}

  lemma OverNothing(mem: string, text: nat, line: string)
    requires text <= |mem| && line == CStr(mem, text)
    ensures text + |line| <= |mem| && Over(mem, text, line) == mem
  {}

  lemma PutBeyond(x: string, k: nat)
    requires |x| <= k
    ensures Put(x, k) == x
  {}

  lemma PrefixFits(t: string)
    ensures HasPrefix(t, "Content-Length:") ==> 15 <= |t|
    ensures HasPrefix(t, "Connection:") ==> 11 <= |t|
    ensures HasPrefix(t, "Authorization:") ==> 14 <= |t|
  {}

  lemma UrlIs(line: string, b: nat, v: nat, q: nat, text: nat)
    requires b == FirstBlank(line) < |line| && v == FirstBlank(line[b + 1..]) && q == QueryAt(line[b + 1..][..v])
    ensures UrlPtr(line, text) == if line[b + 1..][..v][..q] == "/" then IndexHtml else At(text + b + 1)
    ensures var split := Put(Put(line, b), b + 1 + v); Blanked(line) == if q < v then Put(split, b + 1 + q) else split
  {
    hide FirstBlank, QueryAt, Put;
  }

  /** `process` has handed on `done` and is about to look for a line at `start`. */
  ghost predicate Passing(mem: string, regs: Regs, done: seq<Event>, now: string, start: nat, r: Regs) {
    && start <= |now| == |mem| && RunLines(mem, 0, regs).Outcome?
    && RunLines(mem, 0, regs) == Prepend(done, RunLines(now, start, r))
  }

  lemma PassingScan(mem: string, regs: Regs, done: seq<Event>, now: string, start: nat, r: Regs)
    requires Passing(mem, regs, done, now, start, r)
    ensures start <= |now| == |mem| && Scan(now, start) != Overrun
    ensures match Scan(now, start)
            case Found(i) =>
              && start <= i && CrlfAt(now, i) && i + 2 <= |now|
              && NUL !in now[start..i] && OneLine(now, start, i, r).Outcome?
            case NoLine => RunLines(now, start, r) == Outcome(now, start, r, [])
  {
    hide OneLine, Scan;
    ScanFinds(now, start);
  }

  lemma PassingLine(mem: string, regs: Regs, done: seq<Event>, now: string, start: nat, r: Regs, i: nat)
    requires Passing(mem, regs, done, now, start, r) && Scan(now, start) == Found(i)
    ensures start <= i && CrlfAt(now, i)
    ensures var o := OneLine(now, start, i, r);
            o.Outcome? && i < o.start && Passing(mem, regs, done + o.events, o.mem, o.start, o.regs)
  {
    hide OneLine, Scan;
    ScanFinds(now, start);
    var o := OneLine(now, start, i, r);
    var later := RunLines(o.mem, o.start, o.regs);
    assert done + (o.events + later.events) == done + o.events + later.events;
  }

  lemma PassingEnd(c: Conn, data: string, done: seq<Event>, now: string, start: nat, regs: Regs)
    requires c.readIdx + |data| <= |c.mem| && Received(c, data).readIdx != 0 && Scan(now, start) == NoLine
    requires Passing(Received(c, data).mem, Received(c, data).regs, done, now, start, regs)
    ensures |now| == |c.mem| && Call(c, data) == Some((Settled(now, start, Received(c, data).readIdx, regs), done))
  {
    hide Settled, Scan;
    assert done + [] == done;
  }

  lemma CallAfterDrain(c: Conn, data: string)
    requires c.readIdx + |data| <= |c.mem| && Call(c, data).Some?
    ensures var r := Received(c, data);
            && (r.readIdx == 0 ==> Call(c, data) == Some((r, [])))
            && (r.readIdx != 0 ==> Passing(r.mem, r.regs, [], r.mem, 0, r.regs))
  {}

  /** A cut line is a C string. */
  lemma CutCStr(mem: string, line: nat, i: nat)
    requires line <= i && CrlfAt(mem, i) && NUL !in mem[line..i]
    ensures CStr(CutAt(mem, i), line) == mem[line..i]
  {
    assert CutAt(mem, i)[line..i] == mem[line..i];
    StrLenIs(CutAt(mem, i), line, mem[line..i]);
  }
}
