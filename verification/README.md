# Verification model of the epoll web server

This project models the parts of the server that carry state, arithmetic or concurrency, and proves what they
promise. `dafny verify dfyconfig.toml` checks all of it.

* **Request parser** (`HttpText`, `HttpHeaders`, `HttpPass`, `HttpMemory`, `HttpParser`, `HttpStream`, `HttpCalls`,
  `HttpReads`, `HttpBodies`, `HttpStale`, `HttpConn`). Three levels. The text level says what a stream means, line by
  line (`HttpText`), what the header lines of a request come to (`HttpHeaders`), and what one pass makes of any bytes,
  NULs and bodies included (`HttpPass`). `HttpMemory` is the 2048-byte buffer that is cut up in place, with `m_url` and `m_jwt_token` as offsets into it and every access outside the buffer a fault. `HttpConn`
  is the class with the array and the loops, proved equal to the memory level. Between the first two: a pass does what
  the text level says for any bytes, any body lengths and any pointers, and fails exactly when it says so
  (`RunRefines`, `CallSucceeds`); however a stream without bodies is cut into calls, the same lines in the same states
  come out, and the same requests up to path and token (`ChunkIndependence`). What is read through the two pointers:
  on any connection, a path whose request line comes in the same call is exact, and so is a token whose Authorization
  line does, bodies included, unless a length is negative (`CallExact`); for any bytes, lengths and left-over pointers
  `CallReads` gives path and token of every request, `PointersDecide` says exactly when a call hands on what the text
  says, and `LeftoversDecide` that without negative lengths only the pointers of earlier calls can spoil it; `StaleUrl`
  says what becomes of a path over any number of calls.
* **Response writer** (`HttpWriter`, `HttpResponse`, `HttpRoutes`, `HttpReplies`, `HttpSender`). `do_request`'s branches,
  the header they write, and `write`'s loop over any answers of the kernel. `HttpRoutes` says, route by route, which
  status, type and body a request gets. What arrives is always a prefix of one message, and
  once nothing is left to send, a reader that follows RFC 9112 gets exactly that message back. When a call hands on
  several requests, `HttpReplies` says which reply survives and when it can still arrive. `EndToEnd` joins parser and
  writer: from the bytes of a call whose last request asks for a file to a message whose body is the file, and from the
  bytes of a login to the text the password check decides for. `HttpExamples` has an input for each way it goes wrong.
* **Timer** (`TimerSpec`, `ListTimer`). Heap nodes in a ring with a sentinel and an array of positions, proved against
  sequences of entries; those refine a map from descriptor to deadline. The look at the head alone is enough exactly
  when no due entry stands behind one that is not, which one common timeout and a clock that never goes back secure.
* **Monitors** (`CondVars`, `ThreadPool`, `BlockQueue`, `SqlConnPool`). Step machines over threads that are ready,
  asleep or woken, with spurious wakeups and threads that barge in; classes whose critical sections take those steps.
* **Tokens** (`Base64Url`, `Jwt`). Both counter-driven codec loops against a reading of 24-bit groups; issue and
  verification for any MAC, with what an accepted token vouches for stated over its three parts.
* **Hand-off and login cache** (`Oneshot`, `SubReactor`, `LoginCache`). Who owns a connection at every moment of every
  run; how old an answer from the cache can be.

Strings are sequences of characters that stand for bytes. Class and field names follow the source in Dafny's spelling
(`m_read_buf` is `readBuf`). Where the source would read or write outside a buffer, or dereference null, the model has
an outcome of its own (`Fault`, `Overflow`); `HttpCalls.CallSucceeds` says when the first is not reached, and that the
second is not is a precondition of the lemmas about replies.

Places where the code does less than its comments or its shape suggest; each has a lemma:

* The comment at src/http/http_conn.cpp:150 skips the body of a POST. The length it adds was set to zero four lines
  earlier, so reading goes on at the first byte of the body, for every length (`HttpBodies.BodyStays`). The NUL that
  ends the body stays in the buffer: a request behind the body is lost (`HttpBodies.LostBehindBody`), and so is
  everything that arrives before `init` (`HttpBodies.DeafBehindNul`).
* A negative Content-Length puts that NUL into the request itself (`HttpParser.UrlSurvives`, `HttpStale.UrlOfOneCall`,
  `HttpExamples.NegativeLength`).
* `m_url` points into a buffer that is shifted at the end of each call (`HttpStale.StaleUrl`, `HttpExamples.StalePath`).
* So does `m_jwt_token`, which only `init` resets: a request without an Authorization line, after a call that had one,
  is handed whatever stands there now (`HttpReads.LeftoversDecide`, `HttpExamples.LeftoverToken`).
* Several requests in one call get one response, that of the last (`HttpReplies.EachAnswered`); if `open` fails for a
  later one, that response loses its file (`HttpReplies.LastReplyArrives`, `HttpExamples.LostFile`). A file that `stat` finds and `open` refuses gets no response at all
  (`HttpReplies.SilentWhen`).
* `pop` looks at `isClose_` only after a wait, so a pop that starts on a closed, empty queue sleeps
  (`BlockQueues.PopOnClosedSleeps`), and `clear` leaves producers asleep next to free slots
  (`BlockQueues.ClearStrandsProducer`).

## Model

| member | source | states |
|---|---|---|
| HttpText.TargetMeans | src/http/http_conn.cpp:184-207 | the target is the text between the first two blanks, the path what stands before its first question mark, and "/" means /index.html |
| HttpText.BearerMeans | src/http/http_conn.cpp:228-234 | an Authorization line gives the bearer text, whatever its blanks and the case of its words |
| HttpText.KeepAliveMeans | src/http/http_conn.cpp:218-225 | a Connection line keeps the connection if and only if its value starts with keep-alive |
| HttpText.LinesSplit | src/http/http_conn.cpp:58-69 | splitting at CRLF loses no byte and leaves no CRLF in a line or in the rest |
| HttpText.SplitAppend | src/http/http_conn.cpp:122-176 | splitting a front and carrying its rest over gives the lines of the whole |
| HttpHeaders.StaysIs | src/http/http_conn.cpp:218-225 | a header line keeps the connection if and only if it is a Connection line whose value starts with keep-alive |
| HttpHeaders.TokenIs | src/http/http_conn.cpp:228-234 | a header line names a token if and only if it is an Authorization line with the word Bearer, and then that text |
| HttpHeaders.LengthReads | src/http/http_conn.cpp:211-216 | a Content-Length line is read as `atol` reads spaces, a sign, digits and anything behind them, cut to an int |
| HttpHeaders.HeadersSet | src/http/http_conn.cpp:210-235 | after any header lines the connection is kept if and only if it was before or one of them asks for it; length and token stay without a line about them |
| HttpHeaders.LastLineSets | src/http/http_conn.cpp:210-235 | the last line that declares a length sets it, the last that names a token sets that |
| HttpHeaders.LengthDeclared | src/http/http_conn.cpp:211-216 | after lines of which the last Content-Length line says n, the length is n |
| HttpHeaders.RequestOf | src/http/http_conn.cpp:129-160 | a request without a body, from its lines: what is handed on, and the registers it leaves |
| HttpMemory.ScanFinds | src/http/http_conn.cpp:58-69 | the scan stops at a CRLF with no NUL before it, or at a NUL |
| HttpParser.BlankedAt | src/http/http_conn.cpp:185-202 | the NULs of `parse_request_line` stand at the first blank, the second blank and the question mark, nowhere else |
| HttpParser.BlankedPath | src/http/http_conn.cpp:185-202 | after them the path is a C string at its offset |
| HttpParser.LineKeeps | src/http/http_conn.cpp:124-160 | a line leaves the buffer before it and behind it as it was |
| HttpParser.TracksStays | src/http/http_conn.cpp:184-234 | what a pointer set earlier reads is out of reach of later lines |
| HttpParser.LineRefines | src/http/http_conn.cpp:129-160 | a line that closes no request gives the same event and the same state and value registers |
| HttpParser.BlankRefines | src/http/http_conn.cpp:134-155 | a blank line faults exactly when the request has no target or its body no end in the buffer; else the same request up to path and token, the body's NUL in place |
| HttpParser.DispatchReads | src/http/http_conn.cpp:135-140 | a path or token read through an exact pointer is handed on as the text level has it, cut off where the body's NUL falls into it |
| HttpParser.UrlSurvives | src/http/http_conn.cpp:135-140 | a request keeps its path if and only if its length is not negative or the NUL misses the path |
| HttpParser.LineExact | src/http/http_conn.cpp:124-160 | pointer by pointer: one that was exact before a line, or that the line sets, is exact after it, and a request gets its exact text through it, for lengths of zero or more |
| HttpPass.PassSound | src/http/http_conn.cpp:122-161 | the text-level pass gets through if and only if the scan meets a NUL or a free byte and every blank line has a target and its body an end in the buffer |
| HttpPass.PassLines | src/http/http_conn.cpp:122-161 | for text without NULs and bodies the pass is the reading line by line |
| HttpPass.PassBodyless | src/http/http_conn.cpp:122-161 | without bodies it gets through if and only if a byte stays free and every blank line has its target |
| HttpStream.ScanIs | src/http/http_conn.cpp:58-69 | the in-place scan finds the first line of the bytes, or a NUL, or runs over |
| HttpStream.RunRefines | src/http/http_conn.cpp:122-161 | for any bytes, bodies and pointers: one pass faults if and only if the text level fails, and else gives its events up to path and token, its registers, and its leftover in place |
| HttpStream.RunExact | src/http/http_conn.cpp:122-161 | any request of a pass without negative lengths: its path is exact if its request line is in the pass, its token if an Authorization line came before it, whatever pointers were left over |
| HttpStream.RunPointers | src/http/http_conn.cpp:122-161 | under the same conditions the pointers are exact where the pass ends |
| HttpCalls.CallRefines | src/http/http_conn.cpp:91-177 | one call does to the bytes kept and the new ones what the text level says, faults included, and what it leaves moves to the front |
| HttpCalls.CallExact | src/http/http_conn.cpp:91-235 | pointer stability, on any connection between two calls: a request whose request line comes in this call gets exactly its path and its body, and its bearer text if an Authorization line came in this call |
| HttpCalls.CallSucceeds | src/http/http_conn.cpp:91-177 | a call gets through if and only if its bytes are sound, a condition on what was kept and what came |
| HttpCalls.BodylessSucceeds | src/http/http_conn.cpp:91-177 | without bodies that is: a byte of the buffer stays free and every blank line has its target |
| HttpCalls.StreamRefines | src/http/http_conn.cpp:91-177 | a run of calls does what the text level says of the whole stream, up to path and token |
| HttpCalls.ChunkIndependence | src/http/http_conn.cpp:91-177 | two ways of cutting one stream give the same lines and states, the same requests up to path and token, the same buffer, fill and value registers |
| HttpReads.RunReads | src/http/http_conn.cpp:122-161 | any bytes, lengths and pointers: every request is handed the C strings that stand where its two pointers lead, in the bytes as they are when it comes out |
| HttpReads.CallReads | src/http/http_conn.cpp:91-177 | the same for one call on any connection |
| HttpReads.CallLeads | src/http/http_conn.cpp:163-176 | where a call leaves the two pointers for the next |
| HttpReads.LeftStays | src/http/http_conn.cpp:184-234 | until a line of the pass sets it, a pointer leads where it led before, and the text level has its old text |
| HttpReads.PointersDecide | src/http/http_conn.cpp:91-177 | any lengths: a call hands on exactly what the text says if and only if every pointer a request uses reads its text in those bytes |
| HttpReads.LeftoversDecide | src/http/http_conn.cpp:140-302 | with no negative length a call hands on exactly what the text says if and only if each left-over pointer a request uses still reads its old text in the bytes of this call |
| HttpBodies.BodyStays | src/http/http_conn.cpp:135-154 | for every length with its end in the buffer the pass goes on at the first byte of the body, at the promised place if and only if the length is zero; what follows is a pass over the body |
| HttpBodies.PostIs | src/http/http_conn.cpp:135-138 | a body that is all there is handed on as it is, whatever follows it, a shorter one as far as it came |
| HttpBodies.PostOtherwise | src/http/http_conn.cpp:135-138 | without a length no body is handed on, with a negative one all that follows up to a NUL |
| HttpBodies.NothingBehindNul | src/http/http_conn.cpp:58-69 | bytes behind a NUL change no event and no register |
| HttpBodies.LostBehindBody | src/http/http_conn.cpp:135-154 | a request behind a complete body is lost: the pass is the pass without it, and leaves a NUL before any line |
| HttpBodies.DeafBehindNul | src/http/http_conn.cpp:58-69 | from then on calls hand nothing on, whatever arrives |
| HttpStale.RunHeld | src/http/http_conn.cpp:122-161 | a pointer left over from an earlier call reads the piece of this call's bytes where it points, up to the end of the cut line |
| HttpStale.StaleCall | src/http/http_conn.cpp:91-177 | a request whose request line came earlier is served for that piece, cut off where the body's NUL falls into it |
| HttpStale.KeepingCall | src/http/http_conn.cpp:91-177 | a call that closes no request leaves `m_url` alone |
| HttpStale.StaleUrl | src/http/http_conn.cpp:91-177 | request line and any headers over any number of calls, blank line in a later one: served for its path if and only if that is "/" or the later call's bytes spell it in place |
| HttpStale.UrlOfOneCall | src/http/http_conn.cpp:91-177 | request line and blank line in one call, on any connection between two requests: served for its path if and only if no negative length puts its NUL into it |
| HttpConns.Socket.Recv | src/http/http_conn.cpp:98-107 | the kernel hands over a front part of what it has, or says why not |
| HttpConns.HttpConn.constructor | src/http/http_conn.cpp:11-55 | a fresh connection has an empty, zeroed buffer and reset registers |
| HttpConns.HttpConn.Init | src/http/http_conn.cpp:28-55 | `init` forgets the registers and wipes the buffer |
| HttpConns.HttpConn.Read | src/http/http_conn.cpp:419-451 | `read` takes all that finds room, and succeeds if and only if the socket was drained with a byte to spare |
| HttpConns.HttpConn.Drain | src/http/http_conn.cpp:96-115 | the first loop takes all that finds room, and goes on when drained or full |
| HttpConns.HttpConn.GetLine | src/http/http_conn.cpp:58-69 | the loop cuts the line the scan finds, and nothing else |
| HttpConns.HttpConn.ParseRequestLine | src/http/http_conn.cpp:179-208 | the array and the fields are those of the memory level |
| HttpConns.HttpConn.ParseHeaders | src/http/http_conn.cpp:210-235 | the fields are those of the memory level |
| HttpConns.HttpConn.BlankLine | src/http/http_conn.cpp:134-154 | the body's NUL, the request, the reset, and no skip |
| HttpConns.HttpConn.HandleLine | src/http/http_conn.cpp:129-160 | one turn of the second loop is one line of the memory level |
| HttpConns.HttpConn.Settle | src/http/http_conn.cpp:163-176 | the leftover is at the front, zeros behind it |
| HttpConns.HttpConn.Process | src/http/http_conn.cpp:91-177 | a call of `process` is a call of the memory level on what the socket had, or only its first loop |
| HttpConns.ReadThenProcess | src/main.cpp:98-100 | bytes taken by `read` before and by `process` itself make one chunk |
| HttpWriters.OffersNext | src/http/http_conn.cpp:385-395 | `send` and `sendfile` are offered the next bytes, and `sendfile` only an open file at the right offset |
| HttpWriters.MovesOn | src/http/http_conn.cpp:407-409 | a successful send keeps the books, sent plus left is constant, and less is left |
| HttpWriters.LoopDelivers | src/http/http_conn.cpp:378-417 | one call of `write`: the wire grows by a prefix, and its result tells complete, full or broken |
| HttpWriters.Delivery | src/http/http_conn.cpp:378-417 | any run of calls: always a prefix of header and file, nothing left if and only if all has arrived |
| HttpWriters.Completes | src/http/http_conn.cpp:385-416 | as many accepting answers as bytes are left finish the response |
| HttpResponses.CredentialsMeans | src/http/http_conn.cpp:244-250 | a form with name and password gives both |
| HttpResponses.LengthMeans | src/http/http_conn.cpp:211-216 | a length declared as the server declares lengths is read as that length |
| HttpResponses.DecReadsBack | src/http/http_conn.cpp:270-276 | a printed length is a number that reads back |
| HttpResponses.HeadReadsBack | src/http/http_conn.cpp:270-276 | header lines come back out of a head, and what follows it |
| HttpResponses.HeadFrames | src/http/http_conn.cpp:269-374 | header, body and anything later read back as that message and that rest under section 6.2 of RFC 9112 |
| HttpResponses.BookedSends | src/http/http_conn.cpp:238-374 | every branch opens books that match what it will send |
| HttpResponses.Framing | src/http/http_conn.cpp:237-417 | every responding branch, any answers of the kernel: a prefix of one message, complete if and only if nothing is left, and it parses back |
| HttpRoutes.ContentTypeMeans | src/http/http_conn.cpp:71-89 | the type is decided by what stands behind the last dot |
| HttpRoutes.HelloAnswers | src/http/http_conn.cpp:287-325 | /api/hello: 200 and the greeting of a user its token vouches for, 401 and a refusal of its own without a token or with a bad one |
| HttpRoutes.GreetedIffVouched | src/http/http_conn.cpp:287-325 | the status line is 200 OK if and only if the token is there and vouches for a user, else 401 Unauthorized |
| HttpRoutes.LoginAnswers | src/http/http_conn.cpp:240-282 | a login by form: 200 either way, the check decides between the two texts |
| HttpRoutes.EmptyLogin | src/http/http_conn.cpp:250-256 | a login without a body is checked with an empty name and an empty password |
| HttpRoutes.FileAnswers | src/http/http_conn.cpp:327-374 | any other path: 404, nothing at all, or 200 with the file and its type; and what is too long |
| HttpReplies.AnsweredIs | src/http/http_conn.cpp:237-376 | whatever requests a call hands on, the books end with the last one that wrote a reply |
| HttpReplies.LastReplyArrives | src/http/http_conn.cpp:237-417 | the surviving reply can arrive if and only if no unreadable file behind it took its own; then it arrives as one readable message |
| HttpReplies.NeverComplete | src/http/http_conn.cpp:385-405 | a reply that lost its file never gets past its header |
| HttpReplies.SilentWhen | src/http/http_conn.cpp:359-361 | no reply is written if and only if the path is no API route and its file is found but cannot be opened |
| HttpReplies.EachAnswered | src/http/http_conn.cpp:122-161 | over some calls of `write` the peer gets a message for every request of a call if and only if there is none, or one that is not met with silence |
| HttpResponses.TokenOpensHello | src/http/http_conn.cpp:259-311 | a token the login made greets its user, up to a double quote |
| HttpSenders.Wire.Take | src/http/http_conn.cpp:388-399 | the kernel takes at least one offered byte, or fails |
| HttpSenders.HttpSender.PrintReply | src/http/http_conn.cpp:270-281 | header and text stand side by side in the write buffer and are all there is to send |
| HttpSenders.HttpSender.OpenFile | src/http/http_conn.cpp:360-374 | the buffer holds the header alone, the file is open and counted in |
| HttpSenders.HttpSender.DoRequest | src/http/http_conn.cpp:237-376 | the buffer, file and books of the reply the request gets |
| HttpSenders.HttpSender.Write | src/http/http_conn.cpp:378-417 | the loop is the loop of the delivery lemmas |
| EndToEnd.HandsOn | src/http/http_conn.cpp:91-177 | on any connection between two requests a call hands on exactly the requests its bytes hold, bodies included: up to their tokens, and these too when no earlier call left one |
| EndToEnd.LastRequest | src/http/http_conn.cpp:124-160 | the last complete request of a stream asks for the path of its own request line |
| EndToEnd.LastDecides | src/http/http_conn.cpp:237-417 | of several requests the peer gets the response to the last |
| EndToEnd.ServesFile | src/http/http_conn.cpp:91-417 | any connection between two requests, any bytes, bodies included, the last request for a file, "/" included: the peer reads one message whose body is the file |
| EndToEnd.ServesLine | src/http/http_conn.cpp:91-417 | without bodies, from the lines: the last complete request line decides which file that is |
| EndToEnd.Login | src/http/http_conn.cpp:91-417 | a login in one call, from its header lines: name and password of its form are checked, the peer reads under 200 the text that decides for, and the connection is kept, in the message and by `write`, if and only if a Connection line asks for it |
| HttpExamples.NegativeLength | src/http/http_conn.cpp:135-140 | "GET /a H" with a length of -28 is served for the empty path |
| HttpExamples.StalePath | src/http/http_conn.cpp:163-176 | "GET /a H" in one call, "Host: x" and the blank line in the next: served for ": x" |
| HttpExamples.LeftoverToken | src/http/http_conn.cpp:296-302 | a request for /api/hello with no Authorization line, after a call that had one, is handed the empty string for a token |
| HttpExamples.LostFile | src/http/http_conn.cpp:359-361 | a file that can be read, then one that cannot be opened, in one call: the response to the first never completes |
| Base64Url.TableIsTable | src/utils/jwt_util.cpp:84-87 | the alphabet, position by position |
| Base64Url.EncoderMasks | src/utils/jwt_util.cpp:97-100 | the four masks read a 24-bit group from the left |
| Base64Url.DecoderMasks | src/utils/jwt_util.cpp:144-146 | the three masks put it back together |
| Base64Url.OctetsOfSextets | src/utils/jwt_util.cpp:89-158 | decoding inverts encoding on values, both tails included |
| Base64Url.SextetsOfOctets | src/utils/jwt_util.cpp:89-158 | encoding inverts decoding if and only if the tail is canonical (section 3.5 of RFC 4648) |
| Base64Url.RoundTrip | src/utils/jwt_util.cpp:89-158 | decoding the text of any bytes gives the bytes |
| Base64Url.UrlTextIsUrl | src/utils/jwt_util.cpp:113-118 | an encoded text has only characters of the URL alphabet |
| Base64Url.ReencodingIsCanonical | src/utils/jwt_util.cpp:89-158 | re-encoding a string gives it back if and only if it is URL alphabet, not of length 1 mod 4, with zero trailing bits |
| Base64Url.Base64UrlEncode | src/utils/jwt_util.cpp:89-119 | the counter loop, the tail and the substitutions give the text of the bytes |
| Base64Url.Base64UrlDecode | src/utils/jwt_util.cpp:125-158 | padding, substitutions and the counter loop give the bytes of the longest accepted prefix, for any string |
| Jwt.VerifyMeans | src/utils/jwt_util.cpp:30-67 | a token is data, a last dot and a signature: accepted if and only if the data has a dot, the signature is its own, and it names a user |
| Jwt.AcceptedIsSigned | src/utils/jwt_util.cpp:30-51 | an accepted token carries the signature of what stands before it |
| Jwt.UserInPayload | src/utils/jwt_util.cpp:14-66 | the name found in a payload is the name put in, up to its first quote |
| Jwt.UserInNames | src/utils/jwt_util.cpp:56-65 | the name found is the text between the first `"user":"` and the next quote, if and only if there is one |
| Jwt.VerifyAccepts | src/utils/jwt_util.cpp:30-67 | a token is accepted, for a user, if and only if it has three parts, the last is the MAC under the key of all before it, and the middle one names the user |
| Jwt.AcceptedDecodes | src/utils/jwt_util.cpp:43-51 | the last part of an accepted token decodes to the MAC of everything before the last dot |
| Jwt.StolenSignature | src/utils/jwt_util.cpp:43-51 | a signature accepted behind one text is refused behind another with a different MAC |
| Jwt.TokenParts | src/utils/jwt_util.cpp:12-28 | the parts of a new token decode to the fixed header, the payload with the name, and the MAC of both |
| Jwt.TokenRoundTrip | src/utils/jwt_util.cpp:12-67 | verifying a generated token yields the name up to its first quote, and the name itself if and only if it has none |
| TimerSpec.DueMeans | src/timer/lru_timer.cpp:37 | with truncation toward zero, due means less than a millisecond is left |
| TimerSpec.HeadOnlyComplete | src/timer/lru_timer.cpp:30-49 | on a sorted list the fired prefix was due at each look and every survivor has a millisecond or more |
| TimerSpec.HeadOnlyExact | src/timer/lru_timer.cpp:33-39 | the look at the head leaves no due entry if and only if no due entry stands behind one that is not |
| TimerSpec.TwoTimeoutsHideDueEntry | src/timer/lru_timer.cpp:14-49 | two different timeouts: a due entry stays |
| TimerSpec.AddedIsUpdate | src/timer/lru_timer.cpp:14-28 | `add` is an update of the map from id to deadline |
| TimerSpec.TickedIsFilter | src/timer/lru_timer.cpp:30-49 | on a sorted list `tick` removes exactly the due ids from the map |
| TimerSpec.RunKeepsInv | src/timer/lru_timer.cpp:14-49 | every run with one timeout keeps the list sorted, ids unique, deadlines those of the last add |
| TimerSpec.TimerRefinesMap | src/timer/lru_timer.cpp:14-49 | every run agrees with the run of a plain map, and nobody fires within the timeout less a millisecond of its last add |
| TimerSpec.EveryAddFires | src/timer/lru_timer.cpp:14-49 | over any run an added id is listed if and only if the callback of its last `add` has not been made; every callback is for an `add` and later than it |
| TimerSpec.SleepIsExact | src/timer/lru_timer.cpp:51-59 | -1 if and only if nothing is left; after the sleep the head is due, a millisecond earlier it is not |
| ListTimers.Splice | src/timer/lru_timer.cpp:22 | splicing moves one node to the end and keeps the others in order |
| ListTimers.ListTimer.constructor | src/timer/lru_timer.cpp:3-7 | an empty ring, every slot at its end |
| ListTimers.ListTimer.Add | src/timer/lru_timer.cpp:14-28 | a live id moves its own node to the tail with a new deadline, a new id gets a new node, all other nodes stay in order, the slot points to the tail |
| ListTimers.ListTimer.FireHead | src/timer/lru_timer.cpp:34-47 | the head fires if and only if it is due at this look, and then its node leaves list and slot, the others staying |
| ListTimers.ListTimer.Tick | src/timer/lru_timer.cpp:30-49 | a prefix fires, each entry due at its own look, the next not; the nodes that remain are the rest, in order |
| ListTimers.ListTimer.GetNextTick | src/timer/lru_timer.cpp:51-59 | a tick, and the sleep for the list it leaves |
| ThreadPools.RunKeepsInv | src/threadpool/threadpool.cpp:9-67 | every step of every interleaving keeps order, one holder per ticket, no lost wakeup |
| ThreadPools.QueuedWorkProceeds | src/threadpool/threadpool.cpp:16-51 | a worker sleeps unsignalled only while signalled workers and pending notifications cover the queue; queued work can proceed |
| ThreadPools.HistoryIsCalls | src/threadpool/threadpool.cpp:42-67 | over any run: what is accepted is what `addTask` was given, the flags are set if and only if the destructor set them, one notification for each task |
| ThreadPools.AtMostOnce | src/threadpool/threadpool.cpp:29-36 | tasks are taken in the order in which `addTask` was given them, each at most once |
| ThreadPools.ShutdownStep | src/threadpool/threadpool.cpp:55-67 | after `notify_all` every step brings the end nearer |
| ThreadPools.ShutdownCompletes | src/threadpool/threadpool.cpp:20-67 | after any run with a `notify_all` in it nobody waits, a run has a bounded length, only the end has no next step, and there every task `addTask` was given ran exactly once |
| ThreadPools.NoWorkersNoWork | src/threadpool/threadpool.cpp:5-9 | a pool of no workers runs nothing |
| ThreadPools.ThreadPool.WorkerSection | src/threadpool/threadpool.cpp:14-32 | the critical section takes the front task, the one its ticket stands for, or leaves, or sleeps |
| ThreadPools.ThreadPool.AddTask | src/threadpool/threadpool.cpp:43-49 | the task goes to the end of the queue unless the pool is stopped |
| ThreadPools.ThreadPool.SetStop | src/threadpool/threadpool.cpp:56-59 | the flag is set, the queue stays |
| BlockQueues.BoundedFifoNeverStuck | src/log/block_queue.h:66-146 | any run without Close and clear: bounded, first in first out, sleepers covered, never a stuck producer and a stuck consumer |
| BlockQueues.CallsProceed | src/log/block_queue.h:117-146 | every call inside such a run: woken, it has a step of its own; asleep, it is rightly so or each item or free slot has a woken call that steps towards it |
| BlockQueues.RunCarries | src/log/block_queue.h:117-126 | over any run a producer inside its wait carries the item it called `push` with |
| BlockQueues.NextStep | src/log/block_queue.h:72-146 | the next step of any run: the item its caller pushed enters the back if and only if there is room, the front one leaves if and only if there is one and no wait ends on a closed queue |
| BlockQueues.WhoWakes | src/log/block_queue.h:66-146 | one thread at most is woken by push, pop and flush, everybody by Close; who sleeps afterwards |
| BlockQueues.ClearAndProducers | src/log/block_queue.h:72-75 | `clear` keeps producers covered if and only if none sleeps or enough are woken |
| BlockQueues.ClearStrandsProducer | src/log/block_queue.h:72-126 | a run in which `clear` leaves a producer asleep beside an empty queue |
| BlockQueues.PopOnClosedSleeps | src/log/block_queue.h:132-140 | a pop that starts on a closed queue sleeps if and only if it is empty |
| BlockQueues.ClosedPopSpendsSignal | src/log/block_queue.h:135-139 | a pop that gives up after Close spends a signal: when the others stay covered |
| BlockQueues.BlockQueue.PushSectionOf | src/log/block_queue.h:117-126 | the section appends or sleeps, as the machine's step |
| BlockQueues.BlockQueue.PopSectionOf | src/log/block_queue.h:132-146 | the section takes the front, gives up, or sleeps, as the machine's step |
| SqlConnPools.RunKeepsInv | src/mysql/sql_connection_pool.cpp:36-64 | every step keeps the partition and the waiters covered |
| SqlConnPools.ConservedNeverStuck | src/mysql/sql_connection_pool.cpp:36-64 | idle, held and closed connections partition the opened ones, however many a thread holds; a stuck waiter means every connection is held or closed |
| SqlConnPools.FirstInFirstOut | src/mysql/sql_connection_pool.cpp:36-55 | until the pool is closed connections go out in the order in which they were opened and came back |
| SqlConnPools.SqlConnPool.GetSection | src/mysql/sql_connection_pool.cpp:36-48 | the section takes the front connection or sleeps |
| SqlConnPools.SqlConnPool.FreeConnection | src/mysql/sql_connection_pool.cpp:50-55 | the connection goes to the end of the queue and one sleeper is woken |
| SqlConnPools.SqlConnPool.Close | src/mysql/sql_connection_pool.cpp:57-64 | the loop closes every idle connection, in order |
| Oneshot.StepOwns | src/main.cpp:78-254 | every step keeps at most one owner, exactly one while the connection lives, and only live ones armed |
| Oneshot.StepBooks | src/main.cpp:98-143 | every step keeps `bytes_to_send` positive exactly where a response is under way, and the calls in order |
| Oneshot.OneOwner | src/main.cpp:82-254 | every run: one owner per live connection, armed for the right thing, `process`, `write` and `init` only with the `bytes_to_send` they are meant for |
| Oneshot.QuietIsArmed | src/main.cpp:98-142 | when reactor and pool have nothing to do, every live connection is armed |
| Oneshot.LiveIsArmedOrMoves | src/main.cpp:82-254 | over any run a live connection is armed, or reactor or pool have a step to take, as long as there is a worker |
| Oneshot.DeadStaysDead | src/main.cpp:82-138 | a closed or expired connection is never armed again |
| Oneshot.StepLeaves | src/main.cpp:82-138 | a connection lives from its accept until a hangup, a failed `read`, a failed `write` or its timer |
| Oneshot.GoneIffGivenUp | src/main.cpp:82-138 | over any run a connection is gone if and only if one of these gave it up |
| Oneshot.StepQueues | src/main.cpp:98-117 | a task enters the queue's back exactly when its connection's `read` succeeded, and leaves the front to a worker |
| Oneshot.StepSends | src/main.cpp:99-131 | what is left to send is what `process` or `write` said last |
| Oneshot.StepArms | src/main.cpp:99-143 | which connections are armed after a step, and for what |
| SubReactors.SubReactor.AcceptOne | src/main.cpp:246-254 | initialised first, registered then |
| SubReactors.SubReactor.HandleEvents | src/main.cpp:78-145 | the loop over the events takes the machine's steps: the connections that were read are queued in order, those with a fatal event are gone |
| SubReactors.SubReactor.HandleEvent | src/main.cpp:82-143 | one turn of it: queue, live and armed connections and what is left to send afterwards |
| SubReactors.SubReactor.Task | src/main.cpp:99-113 | the pool's lambda takes the machine's two steps: the worker is free and the connection armed for what it has to send |
| LoginCaches.StepKeepsInv | src/http/http_conn.cpp:474-533 | every step keeps each cached password, each query result and each answer traceable to a recent table |
| LoginCaches.BoundedStaleness | src/http/http_conn.cpp:474-533 | any run: a login is answered as the table would have answered within the last 1800 seconds plus the delay between query and SETEX |
| LoginCaches.UnchangingIsExact | src/http/http_conn.cpp:474-533 | with an unchanging table cached and uncached answers agree |
| LoginCaches.StepAnswers | src/http/http_conn.cpp:474-533 | a hit is answered at once by the cached password, right or wrong; any other login once its row is there |
| LoginCaches.EachAskAnswered | src/http/http_conn.cpp:474-533 | over any run every login asked for is answered once or still in progress, for the one who asked |
| LoginCaches.OldPasswordOpens | src/http/http_conn.cpp:476-518 | the bound is reached: the old password works if and only if at most 1800 seconds have passed |
| LoginCaches.LoginCache.VerifyLogin | src/http/http_conn.cpp:453-536 | the method's answer and cache are those of the steps: the cached password decides a hit, the table anything else |

## Left out

- `HttpCalls.ChunkIndependence`: streams with bodies are not covered, and it fails for them, because a body is handed on only as far as its own call brought it (`HttpBodies.PostIs`); path and token are not covered, because they depend on the cut (`HttpStale.StaleUrl`).
- `HttpCalls.StreamRefines`: the same limits, for the same reasons.
- `HttpStream.RunRefines`: leaves path and token of a request open, because the text level has no pointers; `HttpReads.RunReads` says what they are, for the same inputs.
- `HttpCalls.CallRefines`: likewise, with `HttpReads.CallReads`.
- `HttpCalls.CallExact`: with a negative length, or through a pointer that an earlier call left, a request need not get its text; `HttpReads.CallReads` says what it gets.
- `HttpParser.BlankRefines`: leaves path and token open; `HttpParser.DispatchReads` says what they are.
- `EndToEnd.ServesFile`: negative lengths, and replies that overflow their buffers, are excluded; a request whose request line came in an earlier call is left to `HttpStale.StaleUrl`.
- `EndToEnd.Login`: a fresh connection, one call.
- Unread bytes that `init` wipes.
- `m_query_string`: set and never read. `m_file_fd` before the first `init`: the source's constructor does not set it, the model starts with no open file.
- `HttpConns.HttpConn.Process`: asks for a call that does not fault, because the source has no behaviour beyond one; `HttpCalls.CallSucceeds` says exactly when that is.
- `HttpConns.HttpConn` and `HttpSenders.HttpSender` are the two halves of one class in the source; `do_request`'s arguments stand for the fields they share.
- `HttpResponses.Framing`: a reply that overflows a fixed buffer or an int is the outcome `Overflow`; the lemmas of `HttpRoutes` say when, and nothing more is said about it.
- What the program does after an access outside the buffer: a fault ends the model.
- `ListTimers.ListTimer.Add`: asks for an id below 65536, as the assertion in the source does.
- A directory that `stat` accepts and `sendfile` refuses; a file whose size changes while it is sent.
- Texts of JSON and HTML bodies, SQL text, log lines: parameters or absent.
- OpenSSL, MySQL, Redis, sockets, epoll, `stat` and `open`: functions, maps, or answers the kernel may give. MySQL errors in a login are not modelled, Redis failures are.
- A user name that changes the meaning of the SQL text it is put into.
- Stale timers and reused descriptors: a connection carries the number of its accept, and claims end with its close or expiry.
- The other sub-reactors and the round robin between them: copies with connections of their own.
- `BlockQueue::pop` with a timeout, `front`, `back`, `size`: add nothing to the progress claims.
- Fairness: the progress lemmas say that a next step exists and that runs are bounded, not that a scheduler takes it.
- `Log`, `Config`, the singletons, signals and the main function's start and end.
