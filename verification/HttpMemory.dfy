/**
The memory level of the request parser (src/http/http_conn.cpp): one buffer of fixed size, cut up in
place, and registers that point into it. `Fault` is a read or write outside the buffer, or a request
dispatched through a null pointer. The lemmas relate it to the text level.
 */
module HttpMemory {
  import opened Strings
  import opened HttpText

  /** `m_url` and `m_jwt_token`: null, into the buffer, or the literal "/index.html". */
  datatype Ptr = Null | At(off: nat) | IndexHtml

  datatype Regs = Regs(
    state: CheckState, url: Ptr, isPost: bool, contentLength: int, token: Ptr, keepAlive: bool)

  const START_REGS := Regs(REQUESTLINE, Null, false, 0, Null, false)

  /** The C string at an offset: up to the first NUL. */
  function StrLen(mem: string, off: nat): (n: nat)
    requires off <= |mem|
    ensures off + n <= |mem| && NUL !in mem[off..off + n]
    ensures off + n < |mem| ==> mem[off + n] == NUL
    decreases |mem| - off
  {
    if off == |mem| || mem[off] == NUL then 0 else 1 + StrLen(mem, off + 1)
  }

  function CStr(mem: string, off: nat): string {
    if off <= |mem| then mem[off..off + StrLen(mem, off)] else ""
  }

  function Deref(mem: string, p: Ptr): string {
    match p
    case Null => ""
    case At(off) => CStr(mem, off)
    case IndexHtml => "/index.html"
  }

  function Zeros(n: nat): string {
    seq(n, _ => NUL)
  }

  // ---------------------------------------------------------------- one line

  datatype Scanned = Found(at: nat) | NoLine | Overrun

  /** `get_line_from_buf`'s loop: a CRLF, or a NUL before it, or neither inside the buffer. */
  function Scan(mem: string, i: nat): Scanned
    decreases |mem| - i
  {
    if |mem| <= i then Overrun
    else if mem[i] == NUL then NoLine
    else if mem[i] == '\r' && i + 1 == |mem| then Overrun
    else if mem[i] == '\r' && mem[i + 1] == '\n' then Found(i)
    else Scan(mem, i + 1)
  }

  function CutAt(mem: string, i: nat): (r: string)
    requires i + 1 < |mem|
    ensures |r| == |mem|
  {
    mem[i := NUL][i + 1 := NUL]
  }

  /** A NUL at a position, if the text has that position. */
  function Put(s: string, k: nat): (r: string)
    ensures |r| == |s|
    ensures forall j | 0 <= j < |s| :: r[j] == if j == k then NUL else s[j]
  {
    if k < |s| then s[k := NUL] else s
  }

  /** A line after `parse_request_line` has put its NULs: at the two blanks and at the question mark. */
  function Blanked(line: string): (r: string)
    ensures |r| == |line|
  {
    var b := FirstBlank(line);
    if b == |line| then line
    else
      var rest := line[b + 1..];
      var v := FirstBlank(rest);
      var q := QueryAt(rest[..v]);
      var split := Put(Put(line, b), b + 1 + v);
      if q < v then Put(split, b + 1 + q) else split
  }

  /** Writes `s` over the buffer at `start`. */
  function Over(mem: string, start: nat, s: string): (r: string)
    requires start + |s| <= |mem|
    ensures |r| == |mem|
  {
    mem[..start] + s + mem[start + |s|..]
  }

  function UrlPtr(line: string, start: nat): Ptr {
    var b := FirstBlank(line);
    if b == |line| then Null
    else if RawPath(line) == "/" then IndexHtml
    else At(start + b + 1)
  }

  function HeaderRegs(line: string, start: nat, regs: Regs): Regs {
    match ParseHeader(line)
    case ContentLength(n) => regs.(contentLength := n)
    case KeepAlive => regs.(keepAlive := true)
    case Bearer(off) => regs.(token := At(start + off))
    case Other => regs
  }

  datatype Outcome = Outcome(mem: string, start: nat, regs: Regs, events: seq<Event>) | Fault

  /** The body of `process`'s second loop, for the line from `start` to the CRLF at `i`. */
  function OneLine(mem: string, start: nat, i: nat, regs: Regs): (o: Outcome)
    requires start <= i && CrlfAt(mem, i)
    ensures o.Outcome? ==> |o.mem| == |mem| && o.start == i + 2
  {
    var line, next := mem[start..i], i + 2;
    var cut := CutAt(mem, i);
    match regs.state
    case REQUESTLINE =>
      Outcome(Over(cut, start, Blanked(line)), next,
              regs.(state := HEADER, isPost := regs.isPost || HasPrefix(line, "POST"), url := UrlPtr(line, start)),
              [Line(REQUESTLINE, line)])
    case HEADER =>
      if line == "" then Dispatched(cut, next, regs)
      else Outcome(cut, next, HeaderRegs(line, start, regs), [Line(HEADER, line)])
  }

  /** The blank line: the body is terminated where it should end, and the request handed on. */
  function Dispatched(cut: string, next: nat, regs: Regs): (o: Outcome)
    ensures o.Outcome? ==> |o.mem| == |cut| && o.start == next
  {
    var end := next + regs.contentLength;
    if regs.url == Null then Fault
    else if regs.contentLength != 0 && !(0 <= end < |cut|) then Fault
    else
      var mem := if regs.contentLength != 0 then cut[end := NUL] else cut;
      var request := Request(Deref(mem, regs.url), regs.isPost,
                             if regs.token == Null then None else Some(Deref(mem, regs.token)), regs.keepAlive,
                             if regs.contentLength != 0 then Some(CStr(mem, next)) else None);
      Outcome(mem, next, regs.(state := REQUESTLINE, contentLength := 0, url := Null, isPost := false),
              [Line(HEADER, ""), Dispatch(request)])
  }

  function Prepend(events: seq<Event>, o: Outcome): Outcome {
    match o
    case Fault => Fault
    case Outcome(mem, start, regs, later) => Outcome(mem, start, regs, events + later)
  }

  /** `process`'s second loop. */
  function RunLines(mem: string, start: nat, regs: Regs): (o: Outcome)
    requires start <= |mem|
    ensures o.Outcome? ==> |o.mem| == |mem| && start <= o.start <= |mem|
    decreases |mem| - start
  {
    match Scan(mem, start)
    case Overrun => Fault
    case NoLine => Outcome(mem, start, regs, [])
    case Found(i) =>
      ScanFinds(mem, start);
      match OneLine(mem, start, i, regs)
      case Fault => Fault
      case Outcome(m, next, r, events) => Prepend(events, RunLines(m, next, r))
  }

  lemma {:induction false} ScanFinds(mem: string, start: nat)
    requires start <= |mem|
    ensures var s := Scan(mem, start);
            && (s.Found? ==> start <= s.at && CrlfAt(mem, s.at) && NUL !in mem[start..s.at])
            && (s.NoLine? ==> exists k :: start <= k < |mem| && mem[k] == NUL)
    decreases |mem| - start
  {
    if start < |mem| && mem[start] != NUL {
      ScanFinds(mem, start + 1);
      var s := Scan(mem, start + 1);
      if Scan(mem, start).Found? && Scan(mem, start) == s {
        assert mem[start..s.at] == [mem[start]] + mem[start + 1..s.at];
      }
    }
  }

  // ---------------------------------------------------------------- one call, many calls

  /** A connection between two calls: the buffer, how much of it is filled, the registers. */
  datatype Conn = Conn(mem: string, readIdx: nat, regs: Regs)

  /** The bytes received, appended. */
  function Received(c: Conn, data: string): Conn
    requires c.readIdx + |data| <= |c.mem|
  {
    c.(mem := Over(c.mem, c.readIdx, data), readIdx := c.readIdx + |data|)
  }

  /** The end of `process`: what is left moves to the front, the rest of the buffer is zeroed. */
  function Settled(mem: string, start: nat, readIdx: nat, regs: Regs): Conn
    requires readIdx <= |mem|
  {
    if start < readIdx then Conn(mem[start..readIdx] + Zeros(|mem| - (readIdx - start)), readIdx - start, regs)
    else Conn(Zeros(|mem|), 0, regs)
  }

  /** One call of `process` that finds `data` in the socket and then nothing more. */
  function Call(c: Conn, data: string): Option<(Conn, seq<Event>)>
    requires c.readIdx + |data| <= |c.mem|
  {
    var r := Received(c, data);
    if r.readIdx == 0 then Some((r, []))
    else
      match RunLines(r.mem, 0, r.regs)
      case Fault => None
      case Outcome(mem, start, regs, events) => Some((Settled(mem, start, r.readIdx, regs), events))
  }
}
