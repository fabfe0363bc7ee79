/**
Several requests in one call of `process` (src/http/http_conn.cpp:140): each `do_request` writes over the reply before
it, so at most one message comes of a call, and an unreadable file takes even that one's body away.
 */
module HttpReplies {
  import opened Strings
  import opened HttpText
  import opened HttpWriters
  import opened HttpResponses
  import opened HttpMemory
  import Jwt

  /** No reply is too long for its buffers. */
  ghost predicate AllFit(w: World, requests: seq<Request>) {
    forall r | r in requests :: Respond(w, r) != Overflow
  }

  /** The books once every request has been through `do_request`. */
  function Answered(w: World, s: Sender, requests: seq<Request>): Sender
    requires AllFit(w, requests)
    decreases |requests|
  {
    if requests == [] then s
    else
      assert requests[0] in requests;
      Answered(w, Booked(s, Respond(w, requests[0]), requests[0].keepAlive), requests[1..])
  }

  /** What the books stand for: nothing, or the reply to one request, and whether its open file was given up. */
  datatype Standing = Nothing | Last(request: Request, lost: bool)

  function Next(w: World, st: Standing, r: Request): Standing {
    if Sends(Respond(w, r)) then Last(r, false)
    else
      match st
      case Nothing => Nothing
      case Last(q, _) => Last(q, true)
  }

  function LastOf(w: World, st: Standing, requests: seq<Request>): Standing
    decreases |requests|
  {
    if requests == [] then st else LastOf(w, Next(w, st, requests[0]), requests[1..])
  }

  function Printed(reply: Reply, keepAlive: bool): string
    requires Sends(reply)
  {
    HeadFor(reply, keepAlive) + if reply.Buffered? then reply.text else ""
  }

  function FileOf(reply: Reply): string
    requires Sends(reply)
  {
    if reply.FromFile? then reply.content else ""
  }

  ghost predicate InBooks(w: World, s: Sender, st: Standing, before: string) {
    s.wire == before &&
    match st
    case Nothing => s.toSend == 0
    case Last(r, lost) =>
      var reply := Respond(w, r);
      && Sends(reply) && s.have == 0 && s.header == Printed(reply, r.keepAlive)
      && s.toSend == |s.header| + |FileOf(reply)|
      && (reply.FromFile? ==> s.file == if lost then None else Some(reply.content))
  }

  lemma BookedIs(w: World, s: Sender, st: Standing, before: string, r: Request)
    requires InBooks(w, s, st, before) && Respond(w, r) != Overflow
    ensures Sends(Respond(w, r)) || Respond(w, r) == Silent
    ensures InBooks(w, Booked(s, Respond(w, r), r.keepAlive), Next(w, st, r), before)
  {
    hide Respond, HeadFor;
  }

  /** However many requests a call hands on, the books end with the last one that wrote a reply. */
  lemma {:induction false} AnsweredIs(w: World, s: Sender, st: Standing, before: string, requests: seq<Request>)
    requires InBooks(w, s, st, before) && AllFit(w, requests)
    ensures InBooks(w, Answered(w, s, requests), LastOf(w, st, requests), before)
    decreases |requests|
  {
    hide InBooks, Respond, Booked, Next;
    if requests != [] {
      assert requests[0] in requests;
      BookedIs(w, s, st, before, requests[0]);
      var b := Booked(s, Respond(w, requests[0]), requests[0].keepAlive);
      AnsweredIs(w, b, Next(w, st, requests[0]), before, requests[1..]);
    }
  }

  lemma {:induction false} LastAppend(w: World, st: Standing, x: seq<Request>, y: seq<Request>)
    ensures LastOf(w, st, x + y) == LastOf(w, LastOf(w, st, x), y)
    decreases |x|
  {
    hide Next;
    if x == [] {
      assert x + y == y;
    } else {
      assert (x + y)[1..] == x[1..] + y;
      LastAppend(w, Next(w, st, x[0]), x[1..], y);
    }
  }

  lemma {:induction false} SilentLast(w: World, st: Standing, y: seq<Request>)
    requires forall r | r in y :: !Sends(Respond(w, r))
    ensures LastOf(w, st, y) == if y == [] || st.Nothing? then st else Last(st.request, true)
    decreases |y|
  {
    hide Respond;
    if y != [] {
      assert y[0] in y && forall r | r in y[1..] :: r in y;
      SilentLast(w, Next(w, st, y[0]), y[1..]);
    }
  }

  /** Which reply survives: the last one that is no silence; silences behind it cost it its open file. */
  lemma LastIs(w: World, x: seq<Request>, r: Request, y: seq<Request>)
    requires Sends(Respond(w, r)) && forall q | q in y :: !Sends(Respond(w, q))
    ensures LastOf(w, Nothing, x + [r] + y) == Last(r, y != [])
  {
    hide Respond;
    LastAppend(w, Nothing, x + [r], y);
    LastAppend(w, Nothing, x, [r]);
    var st := LastOf(w, Nothing, x);
    assert LastOf(w, st, [r]) == LastOf(w, Next(w, st, r), []);
    SilentLast(w, Last(r, false), y);
  }

  // ---------------------------------------------------------------- what the peer gets

  /** The reply is still all there: its text is in the buffer, or its file is open or empty. */
  predicate Whole(w: World, st: Standing) {
    st.Last? && Sends(Respond(w, st.request)) && (!st.lost || FileOf(Respond(w, st.request)) == "")
  }

  /**
  From the books `b` on, over the calls of `write` in `scripts`: what is out is a prefix of the message of `r`, all of
  it once nothing is left to send, and a reader finds that message in front of whatever comes later.
   */
  ghost predicate Gets(w: World, r: Request, b: Sender, scripts: seq<seq<Answer>>, before: string, later: string) {
    var end, reply := Writes(b, scripts), Respond(w, r);
    Sends(reply) &&
    var stream := HeadFor(reply, r.keepAlive) + BodyOf(reply);
    && before <= end.sender.wire <= before + stream
    && (end.sender.toSend == 0 <==> end.sender.wire == before + stream)
    && (end.sender.toSend == 0 ==> end.ok == b.keepAlive)
    && ReadMessage(stream + later) == Some((MessageOf(reply, r.keepAlive), later))
  }

  /** A whole reply arrives like any other: it is the message of its request, whatever was replied before. */
  lemma WholeArrives(w: World, s: Sender, st: Standing, before: string, keepAlive: bool, scripts: seq<seq<Answer>>,
                     later: string)
    requires st.Last? && InBooks(w, s, st, before) && Whole(w, st)
    ensures Gets(w, st.request, s.(keepAlive := keepAlive), scripts, before, later)
  {
    hide InBooks, Whole, Respond, HeadFor, ReadMessage, MessageOf, Writes, Sending;
    var r, reply := st.request, Respond(w, st.request);
    WholeSends(w, s, st, before);
    var b := s.(keepAlive := keepAlive);
    SendingStill(s, keepAlive, FileOf(reply), before);
    Delivery(b, scripts, s.header, FileOf(reply), before);
    assert before + (s.header + FileOf(reply)) == before + s.header + FileOf(reply);
    ReplyReadsBack(w, r, later);
  }

  lemma WholeSends(w: World, s: Sender, st: Standing, before: string)
    requires st.Last? && InBooks(w, s, st, before) && Whole(w, st)
    ensures var reply := Respond(w, st.request);
            && Sends(reply) && Sending(s, s.header, FileOf(reply), before) && 0 < s.toSend
            && s.header + FileOf(reply) == HeadFor(reply, st.request.keepAlive) + BodyOf(reply)
  {
    hide Respond, HeadLines;
  }

  /** The header of a reply whose file was given up: it goes out, and then the sending fails. */
  ghost predicate Headless(s: Sender, head: string, before: string) {
    && s.header == head && s.file == None && s.have <= |head| && s.wire == before + head[..s.have]
    && |head| - s.have < s.toSend
  }

  lemma MovedInHead(s: Sender, most: nat) returns (n: nat)
    requires s.have < |s.header|
    ensures 1 <= n <= |s.header| - s.have
    ensures Moved(s, most) ==
            s.(have := s.have + n, toSend := s.toSend - n, wire := s.wire + s.header[s.have..s.have + n])
  {
    n := Min(most + 1, |s.header| - s.have);
    assert s.header[s.have..][..n] == s.header[s.have..s.have + n];
  }

  lemma MoreOfHead(head: string, before: string, have: nat, n: nat)
    requires have + n <= |head|
    ensures before + head[..have] + head[have..have + n] == before + head[..have + n]
  {
    assert head[..have + n] == head[..have] + head[have..have + n];
  }

  lemma HeadlessMoves(s: Sender, head: string, before: string, most: nat)
    requires Headless(s, head, before) && s.have < |head|
    ensures Headless(Moved(s, most), head, before) && Moved(s, most).toSend > 0
  {
    hide Moved;
    var n := MovedInHead(s, most);
    MoreOfHead(head, before, s.have, n);
  }

  lemma {:induction false} LoopHeadless(s: Sender, script: seq<Answer>, head: string, before: string)
    requires Headless(s, head, before)
    ensures var w := Loop(s, script); Headless(w.sender, head, before)
    decreases |script|
  {
    hide Moved, Offered;
    if script != [] && script[0].Takes? && s.have < |head| {
      HeadlessMoves(s, head, before, script[0].most);
      LoopHeadless(Moved(s, script[0].most), script[1..], head, before);
    }
  }

  /** Over any calls of `write` the peer gets no more than the header, and the response is never complete. */
  lemma {:induction false} NeverComplete(s: Sender, scripts: seq<seq<Answer>>, head: string, before: string)
    requires Headless(s, head, before)
    ensures var w := Writes(s, scripts); Headless(w.sender, head, before) && w.sender.toSend > 0
    decreases |scripts|
  {
    hide Loop;
    if scripts != [] {
      LoopHeadless(s, scripts[0], head, before);
      var w := WriteCall(s, scripts[0]);
      if w.ok {
        NeverComplete(w.sender, scripts[1..], head, before);
      }
    }
  }

  lemma LostIsHeadless(w: World, s: Sender, st: Standing, before: string)
    requires InBooks(w, s, st, before) && st.Last? && !Whole(w, st)
    ensures Headless(s, s.header, before)
  {
    hide Respond, HeadFor;
  }

  /**
  What comes of a call, whatever requests it hands on: the reply that survives arrives, in full and readable, and can
  arrive exactly when no unreadable file behind it took its own.
   */
  lemma LastReplyArrives(w: World, s: Sender, x: seq<Request>, r: Request, y: seq<Request>, keepAlive: bool)
    requires s.toSend == 0 && AllFit(w, x + [r] + y)
    requires Sends(Respond(w, r)) && forall q | q in y :: !Sends(Respond(w, q))
    ensures var b := Answered(w, s, x + [r] + y).(keepAlive := keepAlive);
            (exists scripts :: Writes(b, scripts).sender.toSend == 0) <==>
              y == [] || FileOf(Respond(w, r)) == ""
    ensures var b := Answered(w, s, x + [r] + y).(keepAlive := keepAlive);
            y == [] || FileOf(Respond(w, r)) == "" ==> forall scripts, later :: Gets(w, r, b, scripts, s.wire, later)
  {
    hide *;
    var all := x + [r] + y;
    NothingBooked(w, s);
    AnsweredIs(w, s, Nothing, s.wire, all);
    LastIs(w, x, r, y);
    var a, st := Answered(w, s, all), Last(r, y != []);
    var b := a.(keepAlive := keepAlive);
    WholeWhen(w, r, y != []);
    if Whole(w, st) {
      forall scripts, later ensures Gets(w, r, b, scripts, s.wire, later) {
        WholeArrives(w, a, st, s.wire, keepAlive, scripts, later);
      }
      WholeSends(w, a, st, s.wire);
      SendingStill(a, keepAlive, FileOf(Respond(w, r)), s.wire);
      CanComplete(b, a.header, FileOf(Respond(w, r)), s.wire);
    } else {
      LostIsHeadless(w, a, st, s.wire);
      HeadlessStill(a, keepAlive, a.header, s.wire);
      forall scripts ensures Writes(b, scripts).sender.toSend != 0 {
        NeverComplete(b, scripts, a.header, s.wire);
      }
    }
  }

  lemma NothingBooked(w: World, s: Sender)
    requires s.toSend == 0
    ensures InBooks(w, s, Nothing, s.wire)
  {}

  lemma WholeWhen(w: World, r: Request, lost: bool)
    requires Sends(Respond(w, r))
    ensures Whole(w, Last(r, lost)) <==> !lost || FileOf(Respond(w, r)) == ""
  {}

  lemma HeadlessStill(s: Sender, keepAlive: bool, head: string, before: string)
    requires Headless(s, head, before)
    ensures Headless(s.(keepAlive := keepAlive), head, before)
  {}

  lemma CanComplete(s: Sender, head: string, body: string, before: string)
    requires Sending(s, head, body, before) && 0 < s.toSend
    ensures exists scripts :: Writes(s, scripts).sender.toSend == 0
  {
    hide Sending, Loop;
    var script := seq(s.toSend, _ => Takes(0));
    Completes(s, script, head, body, before);
    assert WriteCall(s, script).sender.toSend == 0;
    assert Writes(s, [script]).sender.toSend == 0;
  }

  // ---------------------------------------------------------------- requests without an answer

  /** The one way to get no reply at all: a file that `stat` finds and `open` refuses. */
  lemma SilentWhen(w: World, r: Request)
    ensures Respond(w, r) == Silent <==>
            && !(r.isPost && r.url == "/login") && r.url != "/api/hello"
            && |"./resources" + r.url| < 256 && w.lookup("./resources" + r.url) == Unreadable
  {
    hide Credentials, CStr, Head, ContentType, Jwt.Verify, Jwt.Generate, HeadFor;
  }

  ghost predicate AllSend(w: World, requests: seq<Request>) {
    forall r | r in requests :: Sends(Respond(w, r))
  }

  function StreamOf(w: World, r: Request): string
    requires Sends(Respond(w, r))
  {
    HeadFor(Respond(w, r), r.keepAlive) + BodyOf(Respond(w, r))
  }

  /** The messages a client that sent these requests waits for, in order. */
  ghost function Streams(w: World, requests: seq<Request>): string
    requires AllSend(w, requests)
    decreases |requests|
  {
    if requests == [] then ""
    else
      assert requests[0] in requests;
      StreamOf(w, requests[0]) + Streams(w, requests[1..])
  }

  /** Over some calls of `write` that leave nothing to send, the peer gets a message for every request. */
  ghost predicate AllArrive(w: World, b: Sender, requests: seq<Request>, before: string) {
    AllSend(w, requests) &&
    exists scripts ::
      Writes(b, scripts).sender.toSend == 0 && Writes(b, scripts).sender.wire == before + Streams(w, requests)
  }

  lemma {:induction false} StreamsLast(w: World, x: seq<Request>, r: Request)
    requires AllSend(w, x + [r]) && Sends(Respond(w, r))
    ensures |Streams(w, x + [r])| >= |StreamOf(w, r)|
    ensures x != [] ==> |Streams(w, x + [r])| > |StreamOf(w, r)|
    ensures x == [] ==> Streams(w, x + [r]) == StreamOf(w, r)
    decreases |x|
  {
    hide Respond, StreamOf;
    var all := x + [r];
    assert all[0] in all;
    if x == [] {
      assert all[1..] == [];
      assert StreamOf(w, r) + "" == StreamOf(w, r);
    } else {
      assert all[1..] == x[1..] + [r];
      assert forall q | q in x[1..] + [r] :: q in all;
      StreamsLast(w, x[1..], r);
      StreamNotEmpty(w, all[0]);
    }
  }

  lemma StreamNotEmpty(w: World, r: Request)
    requires Sends(Respond(w, r))
    ensures StreamOf(w, r) != ""
  {
    hide Respond, HeadLines, Unlines;
  }

  lemma GetsStream(w: World, r: Request, b: Sender, scripts: seq<seq<Answer>>, before: string, later: string)
    requires Gets(w, r, b, scripts, before, later)
    ensures Sends(Respond(w, r))
    ensures var end := Writes(b, scripts).sender; end.toSend == 0 <==> end.wire == before + StreamOf(w, r)
  {
    hide Respond, HeadFor, ReadMessage, MessageOf, Writes;
  }

  /**
  Every request of a call can be answered exactly when there is none, or there is one and it is not met with silence:
  of several, all but one reply are gone before `write` runs.
   */
  lemma EachAnswered(w: World, s: Sender, requests: seq<Request>, keepAlive: bool)
    requires s.toSend == 0 && AllFit(w, requests)
    ensures AllArrive(w, Answered(w, s, requests).(keepAlive := keepAlive), requests, s.wire) <==>
              requests == [] || (|requests| == 1 && Respond(w, requests[0]) != Silent)
  {
    hide Respond, Gets, Writes, StreamOf, Streams;
    var b := Answered(w, s, requests).(keepAlive := keepAlive);
    if requests == [] {
      NoneArrive(w, s, keepAlive);
    } else if AllSend(w, requests) {
      var n := |requests| - 1;
      var x, r := requests[..n], requests[n];
      assert r in requests && requests == x + [r] + [] == x + [r];
      LastReplyArrives(w, s, x, r, [], keepAlive);
      StreamsLast(w, x, r);
      forall scripts
        ensures var end := Writes(b, scripts).sender; end.toSend == 0 <==> end.wire == s.wire + StreamOf(w, r)
      {
        assert Gets(w, r, b, scripts, s.wire, "");
        GetsStream(w, r, b, scripts, s.wire, "");
      }
    } else if |requests| == 1 {
      assert requests == [requests[0]];
    }
  }

  lemma NoneArrive(w: World, s: Sender, keepAlive: bool)
    requires s.toSend == 0
    ensures AllFit(w, []) && AllArrive(w, Answered(w, s, []).(keepAlive := keepAlive), [], s.wire)
  {
    var b := Answered(w, s, []).(keepAlive := keepAlive);
    assert s.wire + "" == s.wire;
    assert Writes(b, []).sender.toSend == 0;
  }
}
