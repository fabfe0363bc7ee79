/**
The sending half of `http_conn`, as it is: `do_request` fills the write buffer, `write` empties it
(src/http/http_conn.cpp).
 */
module HttpSenders {
  import opened Strings
  import opened HttpText
  import opened HttpMemory
  import opened HttpWriters
  import opened HttpResponses
  import Jwt

  /** The socket from the sending side: what the peer has been sent, and how the kernel will answer. */
  class Wire {
    var sent: string
    var script: seq<Answer>

    constructor (script: seq<Answer>)
      ensures sent == "" && this.script == script
    {
      this.sent, this.script := "", script;
    }

    /** `send` and `sendfile`, on the bytes they are offered: -1 with EAGAIN, -1, or the number of bytes taken. */
    method Take(offer: string, open: bool) returns (n: nat, failed: bool, again: bool)
      modifies this
      ensures script == if old(script) == [] then [] else old(script)[1..]
      ensures again <==> old(script) == [] || old(script)[0] == Again
      ensures failed <==> again || old(script)[0] == Breaks || !open
      ensures !failed ==> n == Min(old(script)[0].most + 1, |offer|)
      ensures failed ==> n == 0
      ensures sent == old(sent) + offer[..n]
    {
      again := script == [] || script[0] == Again;
      failed := again || script[0] == Breaks || !open;
      n := 0;
      if !failed {
        n := Min(script[0].most + 1, |offer|);
        sent := sent + offer[..n];
      }
      if script != [] {
        script := script[1..];
      }
    }
  }

  class HttpSender {
    const writeBuf: array<char>
    var writeIdx: nat
    var bytesToSend: int
    var bytesHaveSend: nat
    var fileFd: Option<string>
    var keepAlive: bool

    ghost predicate Valid()
      reads this
    {
      writeIdx <= writeBuf.Length
    }

    ghost function State(wire: Wire): Sender
      requires Valid()
      reads this, writeBuf, wire
    {
      Sender(writeBuf[..writeIdx], fileFd, bytesHaveSend, bytesToSend, keepAlive, wire.sent)
    }

    constructor ()
      ensures Valid() && fresh(writeBuf)
    {
      writeBuf := new char[WRITE_BUFFER_SIZE](_ => '\0');
      writeIdx, bytesToSend, bytesHaveSend, fileFd, keepAlive := 0, 0, 0, None, false;
    }

    /** `sprintf` and `strcpy` into the write buffer: the text, and a NUL behind it. */
    method Print(at: nat, text: string)
      requires at + |text| < writeBuf.Length
      modifies writeBuf
      ensures writeBuf[..at + |text|] == old(writeBuf[..at]) + text
    {
      forall j | 0 <= j <= |text| {
        writeBuf[at + j] := if j < |text| then text[j] else NUL;
      }
    }

    /** A header that declares the length of a text, and the text right behind it. */
    method PrintReply(status: string, contentType: string, text: string, wire: Wire)
      requires Valid() && |Head(status, keepAlive, contentType, |text|)| + |text| < writeBuf.Length
      modifies this`writeIdx, this`bytesToSend, writeBuf
      ensures Valid()
      ensures var out := Head(status, keepAlive, contentType, |text|) + text;
              State(wire) == Sender(out, fileFd, bytesHaveSend, |out|, keepAlive, wire.sent)
    {
      hide Head;
      var head := Head(status, keepAlive, contentType, |text|);
      Print(0, head);
      writeIdx := |head|;
      Print(writeIdx, text);
      writeIdx := writeIdx + |text|;
      bytesToSend := writeIdx;
    }

    /** The header of a file, which stays where it is. */
    method OpenFile(path: string, content: string, wire: Wire)
      requires Valid() && |Head("200 OK", keepAlive, ContentType(path), |content|)| < writeBuf.Length
      modifies this`fileFd, this`writeIdx, this`bytesToSend, writeBuf
      ensures Valid()
      ensures var head := Head("200 OK", keepAlive, ContentType(path), |content|);
              State(wire) == Sender(head, Some(content), bytesHaveSend, |head| + |content|, keepAlive, wire.sent)
    {
      hide Head, ContentType;
      fileFd := Some(content);
      var head := Head("200 OK", keepAlive, ContentType(path), |content|);
      Print(0, head);
      writeIdx := |head|;
      bytesToSend := writeIdx + |content|;
    }

    method DoRequest(w: World, r: Request, wire: Wire)
      requires Valid() && writeBuf.Length == WRITE_BUFFER_SIZE && Respond(w, r) != Overflow
      modifies this, writeBuf
      ensures Valid() && wire.sent == old(wire.sent)
      ensures State(wire) == Booked(old(State(wire)), Respond(w, r), r.keepAlive)
    {
      hide Head, Credentials, CStr, ContentType, Jwt.Verify, Jwt.Generate;
      bytesHaveSend, keepAlive := 0, r.keepAlive;
      if r.isPost && r.url == "/login" {
        var (name, pwd) := if r.post.Some? then Credentials(r.post.value) else ("", "");
        if w.login(name, pwd) {
          var token := Jwt.Generate(w.mac, name);
          PrintReply("200 OK", JSON, CStr(w.welcome(name, token), 0), wire);
        } else {
          PrintReply("200 OK", JSON, CStr(w.loginFailed, 0), wire);
        }
        return;
      }
      if r.url == "/api/hello" {
        if r.token == None {
          PrintReply("401 Unauthorized", JSON, CStr(w.noToken, 0), wire);
        } else {
          var user := Jwt.Verify(w.mac, r.token.value);
          if user == None {
            PrintReply("401 Unauthorized", JSON, CStr(w.badToken, 0), wire);
          } else {
            PrintReply("200 OK", JSON, CStr(w.hello(user.value), 0), wire);
          }
        }
        return;
      }
      var path := "./resources" + r.url;
      match w.lookup(path) {
        case Missing =>
          PrintReply("404 Not Found", HTML, CStr(w.notFound, 0), wire);
        case Unreadable =>
          fileFd := None;
        case File(content) =>
          OpenFile(path, content, wire);
      }
    }

    method Write(wire: Wire) returns (ok: bool)
      requires Valid()
      modifies this`bytesToSend, this`bytesHaveSend, this`fileFd, wire
      ensures Valid() && WriteCall(old(State(wire)), old(wire.script)) == Written(State(wire), ok, wire.script)
    {
      hide Loop, Moved, Offered;
      if bytesToSend == 0 {
        return true;
      }
      ghost var s0, script0 := State(wire), wire.script;
      while true
        invariant Valid() && keepAlive == s0.keepAlive && Loop(State(wire), wire.script) == Loop(s0, script0)
        decreases |wire.script|
      {
        ghost var s, script := State(wire), wire.script;
        LoopStep(s, script);
        var n, failed, again;
        if bytesHaveSend < writeIdx {
          n, failed, again := wire.Take(writeBuf[bytesHaveSend..writeIdx], true);
        } else {
          var offer := FileOffer(s);
          n, failed, again := wire.Take(offer, fileFd.Some?);
        }
        if failed {
          if again {
            return true;
          }
          fileFd := None;
          return false;
        }
        bytesHaveSend := bytesHaveSend + n;
        bytesToSend := bytesToSend - n;
        if bytesToSend <= 0 {
          fileFd := None;
          return keepAlive;
        }
      }
    }

    /** What `sendfile` is asked for: from the offset the books give, as much as is left to send. */
    method FileOffer(ghost s: Sender) returns (offer: string)
      requires Valid() && writeIdx <= bytesHaveSend
      requires s.have == bytesHaveSend && |s.header| == writeIdx && s.file == fileFd &&
               s.toSend == bytesToSend
      ensures offer == Offered(s)
    {
      offer := "";
      if fileFd.Some? {
        var offset := bytesHaveSend - writeIdx;
        if offset < |fileFd.value| && 0 < bytesToSend {
          offer := fileFd.value[offset..offset + Min(bytesToSend, |fileFd.value| - offset)];
        }
      }
    }
  }

  /** One turn of the loop. */
  lemma LoopStep(s: Sender, script: seq<Answer>)
    ensures s.have < |s.header| ==> Offered(s) == s.header[s.have..]
    ensures script == [] || script[0] == Again ==>
              Loop(s, script) == Written(s, true, if script == [] then [] else script[1..])
    ensures script != [] && script[0] != Again && (script[0] == Breaks || (|s.header| <= s.have && s.file == None)) ==>
              Loop(s, script) == Written(s.(file := None), false, script[1..])
    ensures script != [] && script[0].Takes? && !(|s.header| <= s.have && s.file == None) ==>
              var m := Moved(s, script[0].most);
              var n := Min(script[0].most + 1, |Offered(s)|);
              && m == s.(have := s.have + n, toSend := s.toSend - n, wire := s.wire + Offered(s)[..n])
              && (m.toSend <= 0 ==> Loop(s, script) == Written(m.(file := None), s.keepAlive, script[1..]))
              && (m.toSend > 0 ==> Loop(s, script) == Loop(m, script[1..]))
  {}

}
