/** `http_conn::write`: a header and a file go out through any pattern of short sends (src/http/http_conn.cpp). */
module HttpWriters {
  import opened Strings

  /** What the kernel answers next: it takes at least one and at most `most + 1` of the bytes offered, or none. */
  datatype Answer = Takes(most: nat) | Again | Breaks

  /** A response on its way: `file` is what `m_file_fd` is open on, `wire` what the peer has been sent. */
  datatype Sender = Sender(
    header: string, file: Option<string>, have: nat, toSend: int, keepAlive: bool, wire: string)

  function Min(a: int, b: int): (m: int)
    ensures m <= a && m <= b && (m == a || m == b)
  {
    if a < b then a else b
  }

  /** The bytes one `send` or `sendfile` may move; none when the descriptor is closed. */
  function Offered(s: Sender): string {
    if s.have < |s.header| then s.header[s.have..]
    else
      match s.file
      case None => ""
      case Some(f) =>
        var off := s.have - |s.header|;
        if off < |f| && 0 < s.toSend then f[off..off + Min(s.toSend, |f| - off)] else ""
  }

  /** One successful send. */
  function Moved(s: Sender, most: nat): Sender {
    var n := Min(most + 1, |Offered(s)|);
    s.(have := s.have + n, toSend := s.toSend - n, wire := s.wire + Offered(s)[..n])
  }

  datatype Written = Written(sender: Sender, ok: bool, script: seq<Answer>)

  /** The loop of `write`. A `sendfile` on a closed descriptor is an error. */
  function Loop(s: Sender, script: seq<Answer>): Written
    decreases |script|
  {
    if script == [] || script[0] == Again then Written(s, true, if script == [] then [] else script[1..])
    else if script[0] == Breaks || (|s.header| <= s.have && s.file == None) then
      Written(s.(file := None), false, script[1..])
    else
      var m := Moved(s, script[0].most);
      if m.toSend <= 0 then Written(m.(file := None), s.keepAlive, script[1..]) else Loop(m, script[1..])
  }

  function WriteCall(s: Sender, script: seq<Answer>): Written {
    if s.toSend == 0 then Written(s, true, script) else Loop(s, script)
  }

  /** `write` is called again, each time with what the kernel answers then, until it fails or there is nothing left. */
  function Writes(s: Sender, scripts: seq<seq<Answer>>): Written
    decreases |scripts|
  {
    if scripts == [] then Written(s, true, [])
    else
      var w := WriteCall(s, scripts[0]);
      if !w.ok || w.sender.toSend == 0 then w else Writes(w.sender, scripts[1..])
  }

  // ---------------------------------------------------------------- delivery

  /**
  `head` and `body` are being sent behind what the wire already carried: what is out is a prefix of them, the
  books balance, and while the body is still due its file is open and large enough.
   */
  ghost predicate Sending(s: Sender, head: string, body: string, before: string) {
    && s.header == head && s.have <= |head| + |body|
    && s.wire == before + (head + body)[..s.have]
    && s.have + s.toSend == |head| + |body|
    && (0 < s.toSend && body != "" ==> s.file == Some(body))
  }

  /** Nothing else is offered than what comes next. */
  lemma OffersNext(s: Sender, head: string, body: string, before: string)
    requires Sending(s, head, body, before) && 0 < s.toSend
    ensures |s.header| <= s.have ==> s.file == Some(body) && s.have - |s.header| < |body|
    ensures 0 < |Offered(s)| <= s.toSend && Offered(s) == (head + body)[s.have..s.have + |Offered(s)|]
  {}

  lemma MovesOn(s: Sender, head: string, body: string, before: string, most: nat)
    requires Sending(s, head, body, before) && 0 < s.toSend
    ensures Sending(Moved(s, most), head, body, before)
    ensures s.have < Moved(s, most).have && 0 <= Moved(s, most).toSend < s.toSend
  {
    hide Offered;
    OffersNext(s, head, body, before);
    var n := Min(most + 1, |Offered(s)|);
    Extends(before, head + body, s.have, n, Offered(s));
  }

  lemma Extends(before: string, all: string, have: nat, n: nat, next: string)
    requires have + n <= have + |next| <= |all| && next == all[have..have + |next|]
    ensures before + all[..have] + next[..n] == before + all[..have + n]
  {}

  /** What every call of `write` keeps, and what its result tells: an error, a full socket, a complete response. */
  lemma {:induction false} LoopDelivers(s: Sender, script: seq<Answer>, head: string, body: string, before: string)
    requires Sending(s, head, body, before) && 0 < s.toSend
    ensures var w := Loop(s, script);
            && s.have <= w.sender.have && s.wire <= w.sender.wire && w.sender.keepAlive == s.keepAlive
            && (w.sender.toSend == 0 ==>
                  w.sender.wire == before + head + body && w.sender.file == None && w.ok == s.keepAlive)
            && (w.sender.toSend != 0 && w.ok ==> Sending(w.sender, head, body, before) && 0 < w.sender.toSend)
            && (w.sender.toSend != 0 && !w.ok ==> w.sender.file == None)
            && w.sender.wire <= before + head + body
            && w.sender.have + w.sender.toSend == |head| + |body|
            && 0 <= w.sender.toSend && |w.sender.wire| == |before| + w.sender.have
    decreases |script|
  {
    hide Moved, Offered, Sending;
    OffersNext(s, head, body, before);
    SendingMeans(s, head, body, before);
    if script == [] || !script[0].Takes? {
    } else {
      var m := Moved(s, script[0].most);
      MovesOn(s, head, body, before, script[0].most);
      SendingMeans(m, head, body, before);
      WireGrows(s, script[0].most);
      if m.toSend > 0 {
        LoopDelivers(m, script[1..], head, body, before);
      }
    }
  }

  lemma SendingMeans(s: Sender, head: string, body: string, before: string)
    requires Sending(s, head, body, before)
    ensures s.wire <= before + head + body && s.have + s.toSend == |head| + |body| && s.header == head
    ensures |s.wire| == |before| + s.have
    ensures s.toSend == 0 ==> s.wire == before + head + body
  {}

  lemma WireGrows(s: Sender, most: nat)
    ensures s.wire <= Moved(s, most).wire && s.have <= Moved(s, most).have && Moved(s, most).keepAlive == s.keepAlive
  {}

  /**
  Response delivery, over any number of calls and any answers of the kernel: the peer has a prefix of header and
  body at all times; nothing is left to send exactly when it has all of them; the connection goes on after that
  exactly when it is kept alive.
   */
  lemma {:induction false} Delivery(s: Sender, scripts: seq<seq<Answer>>, head: string, body: string, before: string)
    requires Sending(s, head, body, before) && 0 < s.toSend
    ensures var w := Writes(s, scripts);
            && before <= w.sender.wire <= before + head + body
            && w.sender.have + w.sender.toSend == |head| + |body|
            && (w.sender.toSend == 0 <==> w.sender.wire == before + head + body)
            && (w.sender.toSend == 0 ==> w.ok == s.keepAlive && w.sender.file == None)
            && (w.sender.toSend != 0 && w.ok ==> Sending(w.sender, head, body, before))
    decreases |scripts|
  {
    hide Loop, Moved, Offered;
    SendingMeans(s, head, body, before);
    if scripts != [] {
      LoopDelivers(s, scripts[0], head, body, before);
      var w := WriteCall(s, scripts[0]);
      if w.ok && w.sender.toSend != 0 {
        Delivery(w.sender, scripts[1..], head, body, before);
      }
    }
  }

  /** Every answer that takes something brings the end nearer: as many of them as bytes are left are enough. */
  lemma {:induction false} Completes(s: Sender, script: seq<Answer>, head: string, body: string, before: string)
    requires Sending(s, head, body, before) && 0 < s.toSend <= |script|
    requires forall a | a in script[..s.toSend] :: a.Takes?
    ensures Loop(s, script).sender.toSend == 0
    decreases |script|
  {
    hide Moved, Offered;
    OffersNext(s, head, body, before);
    assert script[0] in script[..s.toSend];
    var m := Moved(s, script[0].most);
    MovesOn(s, head, body, before, script[0].most);
    if m.toSend > 0 {
      assert forall a | a in script[1..][..m.toSend] :: a in script[..s.toSend];
      Completes(m, script[1..], head, body, before);
    }
  }
}
