/**
The hand-off between a sub-reactor and the pool (src/main.cpp:62-147, 246-254): with EPOLLONESHOT an event disarms
its descriptor, so that a connection has one owner at a time. One sub-reactor with its connections and the pool;
connections carry the number of their accept, not their descriptor.
 */
module Oneshot {
  import opened Strings

  type Id = nat

  datatype Interest = In | Out

  datatype Event = Readable | Writable | Hangup

  /** The calls that must not meet the wrong `bytes_to_send`: its value before, and after. */
  datatype Call =
    | Processed(id: Id, before: nat, after: nat)
    | Wrote(id: Id, before: nat, after: nat)
    | Inited(id: Id, before: nat)

  /** A worker's task: the connection, and whether `process` has returned. */
  datatype Job = Job(id: Id, done: bool)

  datatype State = State(
    arriving: set<Id>,                // accepted, not yet added to epoll
    armed: map<Id, Interest>,         // registered and armed
    batch: seq<(Id, Event)>,          // what epoll_wait returned and the reactor has not handled
    queue: seq<Id>,                   // tasks in the pool
    workers: seq<Option<Job>>,
    live: set<Id>,                    // accepted, neither closed nor expired
    toSend: map<Id, nat>,             // bytes_to_send of every connection there has been
    log: seq<Call>)

  /** How the socket answers one event: `read`'s result, what `write` leaves to send, `write`'s result. */
  datatype Outcome = Outcome(readOk: bool, left: nat, writeOk: bool)

  datatype Action =
    | Accept(id: Id)                  // init(fd)
    | Register(id: Id)                // EPOLL_CTL_ADD
    | Wait(events: seq<(Id, Event)>)  // epoll_wait
    | Handle(outcome: Outcome)        // one turn of the loop over the events
    | Take(worker: nat)
    | Process(worker: nat, response: nat)
    | Rearm(worker: nat)              // EPOLL_CTL_MOD by the worker
    | Expire(id: Id)                  // the timer closes the connection

  // ---------------------------------------------------------------- steps

  function Closed(s: State, id: Id): State {
    s.(live := s.live - {id}, armed := s.armed - {id})
  }

  /** EPOLL_CTL_MOD: on a descriptor that is gone it fails, and nothing happens. */
  function Armed(s: State, id: Id, interest: Interest): State {
    if id in s.live then s.(armed := s.armed[id := interest]) else s
  }

  function ToSend(s: State, id: Id): nat {
    if id in s.toSend then s.toSend[id] else 0
  }

  /** The body of the reactor's loop, once the event is off the batch. */
  function Handled(s: State, id: Id, event: Event, o: Outcome): State {
    match event
    case Hangup => Closed(s, id)
    case Readable => if o.readOk then s.(queue := s.queue + [id]) else Closed(s, id)
    case Writable =>
      var w := s.(toSend := s.toSend[id := o.left], log := s.log + [Wrote(id, ToSend(s, id), o.left)]);
      if !o.writeOk then Closed(w, id)
      else if o.left == 0 then Armed(w.(toSend := w.toSend[id := 0], log := w.log + [Inited(id, 0)]), id, In)
      else Armed(w, id, Out)
  }

  function Interesting(n: nat): Interest {
    if n > 0 then Out else In
  }

  ghost predicate Legal(s: State, a: Action) {
    match a
    case Accept(id) => id !in s.toSend
    case Register(id) => id in s.arriving
    case Wait(events) => s.batch == [] && Fires(s.armed, events)
    case Handle(o) => s.batch != [] && (s.batch[0].1 == Writable ==> o.left <= ToSend(s, s.batch[0].0))
    case Take(w) => w < |s.workers| && s.workers[w] == None && s.queue != []
    case Process(w, _) => w < |s.workers| && s.workers[w].Some? && !s.workers[w].value.done
    case Rearm(w) => w < |s.workers| && s.workers[w].Some? && s.workers[w].value.done
    case Expire(id) => true
  }

  /** Each armed connection fires at most once, with an event it is armed for, or because the peer hung up. */
  ghost predicate Fires(armed: map<Id, Interest>, events: seq<(Id, Event)>) {
    && (forall i | 0 <= i < |events| :: events[i].0 in armed && Matches(armed[events[i].0], events[i].1))
    && (forall i, j | 0 <= i < j < |events| :: events[i].0 != events[j].0)
  }

  predicate Matches(interest: Interest, event: Event) {
    event == Hangup || (interest == In && event == Readable) || (interest == Out && event == Writable)
  }

  function Ids(events: seq<(Id, Event)>): seq<Id> {
    if events == [] then [] else [events[0].0] + Ids(events[1..])
  }

  function Apply(s: State, a: Action): State {
    match a
    case Accept(id) => s.(arriving := s.arriving + {id}, live := s.live + {id}, toSend := s.toSend[id := 0])
    case Register(id) => Armed(s.(arriving := s.arriving - {id}), id, In)
    case Wait(events) => s.(batch := events, armed := s.armed - (set id | id in Ids(events)))
    case Handle(o) =>
      if s.batch == [] then s else Handled(s.(batch := s.batch[1..]), s.batch[0].0, s.batch[0].1, o)
    case Take(w) =>
      if |s.workers| <= w || s.queue == [] then s
      else s.(queue := s.queue[1..], workers := s.workers[w := Some(Job(s.queue[0], false))])
    case Process(w, n) =>
      if |s.workers| <= w || s.workers[w] == None then s
      else
        var id := s.workers[w].value.id;
        s.(workers := s.workers[w := Some(Job(id, true))], toSend := s.toSend[id := n],
           log := s.log + [Processed(id, ToSend(s, id), n)])
    case Rearm(w) =>
      if |s.workers| <= w || s.workers[w] == None then s
      else
        var id := s.workers[w].value.id;
        Armed(s.(workers := s.workers[w := None]), id, Interesting(ToSend(s, id)))
    case Expire(id) => Closed(s, id)
  }

  ghost predicate Run(s: State, actions: seq<Action>)
    decreases |actions|
  {
    actions == [] || (Legal(s, actions[0]) && Run(Apply(s, actions[0]), actions[1..]))
  }

  function Exec(s: State, actions: seq<Action>): State
    decreases |actions|
  {
    if actions == [] then s else Exec(Apply(s, actions[0]), actions[1..])
  }

  function Start(workers: nat): State {
    State({}, map[], [], [], seq(workers, _ => None), {}, map[], [])
  }

  // ---------------------------------------------------------------- ownership

  function One(b: bool): nat {
    if b then 1 else 0
  }

  function InBatch(events: seq<(Id, Event)>, id: Id): nat {
    if events == [] then 0 else One(events[0].0 == id) + InBatch(events[1..], id)
  }

  function InQueue(queue: seq<Id>, id: Id): nat {
    if queue == [] then 0 else One(queue[0] == id) + InQueue(queue[1..], id)
  }

  function Works(job: Option<Job>, id: Id): nat {
    One(job.Some? && job.value.id == id)
  }

  function InWorkers(workers: seq<Option<Job>>, id: Id): nat {
    if workers == [] then 0 else Works(workers[0], id) + InWorkers(workers[1..], id)
  }

  /** How many places hold a connection. */
  function Owners(s: State, id: Id): nat {
    One(id in s.arriving) + One(id in s.armed) + InBatch(s.batch, id) + InQueue(s.queue, id) + InWorkers(s.workers, id)
  }

  /** Nobody is held twice, a live connection is held, and only live ones are armed. */
  ghost predicate Owned(s: State) {
    && (forall id :: Owners(s, id) <= 1)
    && (forall id | id in s.live :: Owners(s, id) == 1)
    && (forall id | Owners(s, id) > 0 :: id in s.toSend)
    && s.live <= s.toSend.Keys && s.armed.Keys <= s.live
  }

  /** `bytes_to_send` is positive exactly where a response is under way. */
  ghost predicate Books(s: State) {
    && (forall id | id in s.arriving :: ToSend(s, id) == 0)
    && (forall id | id in s.armed :: s.armed[id] == Interesting(ToSend(s, id)))
    && (forall e | e in s.batch :: Matches(Interesting(ToSend(s, e.0)), e.1))
    && (forall id | id in s.queue :: ToSend(s, id) == 0)
    && (forall j | Some(j) in s.workers && !j.done :: ToSend(s, j.id) == 0)
  }

  /** `process` only with nothing to send, `write` only with something, `init` only after `write` sent the last. */
  ghost predicate Orderly(log: seq<Call>) {
    forall i | 0 <= i < |log| :: Follows(log, i)
  }

  predicate Follows(log: seq<Call>, i: nat)
    requires i < |log|
  {
    match log[i]
    case Processed(_, before, _) => before == 0
    case Wrote(_, before, _) => before > 0
    case Inited(id, before) => before == 0 && i > 0 && log[i - 1].Wrote? && log[i - 1].id == id && log[i - 1].after == 0
  }

  ghost predicate Inv(s: State) {
    Owned(s) && Books(s) && Orderly(s.log)
  }

  // ---------------------------------------------------------------- counting

  lemma {:induction false} WorkersUpdate(workers: seq<Option<Job>>, w: nat, x: Option<Job>, id: Id)
    requires w < |workers|
    ensures InWorkers(workers[w := x], id) == InWorkers(workers, id) - Works(workers[w], id) + Works(x, id)
  {
    hide Works;
    var u := workers[w := x];
    if w == 0 {
      assert u[1..] == workers[1..];
    } else {
      assert u[0] == workers[0] && u[1..] == workers[1..][w - 1 := x];
      WorkersUpdate(workers[1..], w - 1, x, id);
    }
  }

  lemma {:induction false} QueueAppend(queue: seq<Id>, x: Id, id: Id)
    ensures InQueue(queue + [x], id) == InQueue(queue, id) + One(x == id)
  {
    var u := queue + [x];
    if queue == [] {
      assert u[1..] == [];
    } else {
      assert u[0] == queue[0] && u[1..] == queue[1..] + [x];
      QueueAppend(queue[1..], x, id);
    }
  }

  lemma {:induction false} BatchCounts(events: seq<(Id, Event)>, id: Id)
    requires forall i, j | 0 <= i < j < |events| :: events[i].0 != events[j].0
    ensures InBatch(events, id) == One(id in Ids(events))
  {
    if events != [] {
      BatchCounts(events[1..], id);
      IdsAre(events[1..]);
    }
  }

  lemma {:induction false} IdsAre(events: seq<(Id, Event)>)
    ensures |Ids(events)| == |events| && forall i | 0 <= i < |events| :: Ids(events)[i] == events[i].0
  {
    if events != [] {
      IdsAre(events[1..]);
    }
  }

  // ---------------------------------------------------------------- a connection between two places

  /** Counted as in `s`, with `d` more owners of `id`. */
  ghost predicate Shifted(s: State, t: State, id: Id, d: int) {
    forall x :: Owners(t, x) == Owners(s, x) + if x == id then d else 0
  }

  /** As `Owned`, with one connection just taken from its place. */
  ghost predicate OwnedBut(s: State, id: Id) {
    && (forall x :: Owners(s, x) <= One(x != id))
    && (forall x | x in s.live && x != id :: Owners(s, x) == 1)
    && (forall x | Owners(s, x) > 0 :: x in s.toSend)
    && s.live <= s.toSend.Keys && s.armed.Keys <= s.live && id in s.toSend
  }

  lemma PlacedOwns(s: State, t: State, id: Id)
    requires OwnedBut(s, id) && Shifted(s, t, id, 1)
    requires t.live == s.live && t.toSend == s.toSend && t.armed.Keys <= s.live
    ensures Owned(t)
  {}

  lemma TakenOwns(s: State, t: State, id: Id)
    requires Owned(s) && Shifted(s, t, id, -1)
    requires t.live == s.live && t.toSend == s.toSend && t.armed == s.armed
    ensures OwnedBut(t, id)
  {}

  lemma ArmedOwns(s: State, id: Id, interest: Interest)
    requires OwnedBut(s, id)
    ensures Owned(Armed(s, id, interest))
  {}

  lemma ClosedOwns(s: State, id: Id)
    requires OwnedBut(s, id) || Owned(s)
    ensures Owned(Closed(s, id))
  {
    var c := Closed(s, id);
    assert c.armed.Keys == s.armed.Keys - {id};
    forall x ensures Owners(c, x) <= Owners(s, x) && (x != id ==> Owners(c, x) == Owners(s, x)) {
      assert x in c.armed <==> x in s.armed && x != id;
    }
  }

  lemma QueuedOwns(s: State, id: Id)
    requires OwnedBut(s, id)
    ensures Owned(s.(queue := s.queue + [id]))
  {
    var t := s.(queue := s.queue + [id]);
    forall x ensures Owners(t, x) == Owners(s, x) + if x == id then 1 else 0 {
      QueueAppend(s.queue, id, x);
    }
    PlacedOwns(s, t, id);
  }

  lemma UnbatchedOwns(s: State)
    requires Owned(s) && s.batch != []
    ensures OwnedBut(s.(batch := s.batch[1..]), s.batch[0].0)
  {
    TakenOwns(s, s.(batch := s.batch[1..]), s.batch[0].0);
  }

  lemma UnboundOwns(s: State, w: nat)
    requires Owned(s) && w < |s.workers| && s.workers[w].Some?
    ensures OwnedBut(s.(workers := s.workers[w := None]), s.workers[w].value.id)
  {
    var id, t := s.workers[w].value.id, s.(workers := s.workers[w := None]);
    forall x ensures Owners(t, x) == Owners(s, x) + if x == id then -1 else 0 {
      WorkersUpdate(s.workers, w, None, x);
    }
    TakenOwns(s, t, id);
  }

  lemma ArrivedOwns(s: State, id: Id)
    requires Owned(s) && id in s.arriving
    ensures OwnedBut(s.(arriving := s.arriving - {id}), id)
  {
    TakenOwns(s, s.(arriving := s.arriving - {id}), id);
  }

  /** What a connection has to send is not a matter of who owns it. */
  lemma BooksAside(s: State, id: Id, n: nat, log: seq<Call>)
    requires id in s.toSend
    ensures Owned(s) ==> Owned(s.(toSend := s.toSend[id := n], log := log))
    ensures OwnedBut(s, id) ==> OwnedBut(s.(toSend := s.toSend[id := n], log := log), id)
  {
    var t := s.(toSend := s.toSend[id := n], log := log);
    assert t.toSend.Keys == s.toSend.Keys;
    assert forall x :: Owners(t, x) == Owners(s, x);
  }

  // ---------------------------------------------------------------- every step keeps one owner

  lemma HandleOwns(s: State, id: Id, event: Event, o: Outcome)
    requires OwnedBut(s, id)
    ensures Owned(Handled(s, id, event, o))
  {
    hide OwnedBut, Owned, Owners, Armed, Closed;
    HasBooks(s, id);
    match event
    case Hangup => ClosedOwns(s, id);
    case Readable =>
      if o.readOk {
        QueuedOwns(s, id);
      } else {
        ClosedOwns(s, id);
      }
    case Writable =>
      var log := s.log + [Wrote(id, ToSend(s, id), o.left)];
      var w := s.(toSend := s.toSend[id := o.left], log := log);
      BooksAside(s, id, o.left, log);
      if !o.writeOk {
        ClosedOwns(w, id);
      } else if o.left == 0 {
        var log' := log + [Inited(id, 0)];
        BooksAside(w, id, 0, log');
        ArmedOwns(w.(toSend := w.toSend[id := 0], log := log'), id, In);
      } else {
        ArmedOwns(w, id, Out);
      }
  }

  lemma HasBooks(s: State, id: Id)
    requires OwnedBut(s, id)
    ensures id in s.toSend
  {}

  lemma AcceptOwns(s: State, id: Id)
    requires Owned(s) && id !in s.toSend
    ensures Owned(Apply(s, Accept(id)))
  {
    var t := Apply(s, Accept(id));
    assert t.toSend.Keys == s.toSend.Keys + {id};
    assert Owners(s, id) == 0;
    assert forall x :: Owners(t, x) == Owners(s, x) + if x == id then 1 else 0;
  }

  lemma WaitOwns(s: State, events: seq<(Id, Event)>)
    requires Owned(s) && Legal(s, Wait(events))
    ensures Owned(Apply(s, Wait(events)))
  {
    var t, ids := Apply(s, Wait(events)), Ids(events);
    IdsAre(events);
    assert forall id | id in ids :: id in s.armed;
    forall x ensures Owners(t, x) == Owners(s, x) {
      BatchCounts(events, x);
      assert x in t.armed <==> x in s.armed && x !in ids;
    }
    assert t.armed.Keys <= s.armed.Keys;
  }

  lemma TakeOwns(s: State, w: nat)
    requires Owned(s) && Legal(s, Take(w))
    ensures Owned(Apply(s, Take(w)))
  {
    var t := Apply(s, Take(w));
    forall x ensures Owners(t, x) == Owners(s, x) {
      WorkersUpdate(s.workers, w, Some(Job(s.queue[0], false)), x);
    }
  }

  lemma ProcessOwns(s: State, w: nat, n: nat)
    requires Owned(s) && Legal(s, Process(w, n))
    ensures Owned(Apply(s, Process(w, n)))
  {
    var id := s.workers[w].value.id;
    var t := s.(workers := s.workers[w := Some(Job(id, true))]);
    forall x ensures Owners(t, x) == Owners(s, x) {
      WorkersUpdate(s.workers, w, Some(Job(id, true)), x);
    }
    WorkersUpdate(s.workers, w, None, id);
    assert Owners(s, id) > 0;
    BooksAside(t, id, n, s.log + [Processed(id, ToSend(s, id), n)]);
  }

  lemma StepOwns(s: State, a: Action)
    requires Owned(s) && Legal(s, a)
    ensures Owned(Apply(s, a))
  {
    hide Owned, OwnedBut, Owners, Handled, Armed, Closed;
    match a
    case Accept(id) => AcceptOwns(s, id);
    case Register(id) =>
      ArrivedOwns(s, id);
      ArmedOwns(s.(arriving := s.arriving - {id}), id, In);
    case Wait(events) => WaitOwns(s, events);
    case Handle(o) =>
      UnbatchedOwns(s);
      HandleOwns(s.(batch := s.batch[1..]), s.batch[0].0, s.batch[0].1, o);
    case Take(w) => TakeOwns(s, w);
    case Process(w, n) => ProcessOwns(s, w, n);
    case Rearm(w) =>
      UnboundOwns(s, w);
      var id := s.workers[w].value.id;
      ArmedOwns(s.(workers := s.workers[w := None]), id, Interesting(ToSend(s, id)));
    case Expire(id) => ClosedOwns(s, id);
  }

  // ---------------------------------------------------------------- every step keeps the books

  /** Whoever owns the connection alone may change its books. */
  lemma OthersBooks(s: State, t: State, id: Id)
    requires Books(s) && OwnedBut(s, id)
    requires t.arriving == s.arriving && t.batch == s.batch && t.queue == s.queue && t.workers == s.workers &&
             t.armed == s.armed
    requires forall x | x != id :: ToSend(t, x) == ToSend(s, x)
    ensures Books(t)
  {
    assert Owners(s, id) == 0;
    forall e | e in s.batch ensures e.0 != id {
      InBatchHas(s.batch, e);
    }
    forall x | x in s.queue ensures x != id {
      InQueueHas(s.queue, x);
    }
    forall j | Some(j) in s.workers ensures j.id != id {
      InWorkersHas(s.workers, j);
    }
  }

  lemma {:induction false} InBatchHas(events: seq<(Id, Event)>, e: (Id, Event))
    requires e in events
    ensures InBatch(events, e.0) > 0
  {
    if events[0] != e {
      InBatchHas(events[1..], e);
    }
  }

  lemma {:induction false} InQueueHas(queue: seq<Id>, id: Id)
    requires id in queue
    ensures InQueue(queue, id) > 0
  {
    if queue[0] != id {
      InQueueHas(queue[1..], id);
    }
  }

  lemma {:induction false} InWorkersHas(workers: seq<Option<Job>>, j: Job)
    requires Some(j) in workers
    ensures InWorkers(workers, j.id) > 0
  {
    if workers[0] != Some(j) {
      InWorkersHas(workers[1..], j);
    }
  }

  lemma BooksClosed(s: State, id: Id)
    requires Books(s)
    ensures Books(Closed(s, id))
  {}

  lemma BooksArmed(s: State, id: Id)
    requires Books(s)
    ensures Books(Armed(s, id, Interesting(ToSend(s, id))))
  {}

  lemma OrderlyAppend(log: seq<Call>, c: Call)
    requires Orderly(log) && !c.Inited? && (c.Processed? ==> c.before == 0) && (c.Wrote? ==> c.before > 0)
    ensures Orderly(log + [c])
  {
    var all := log + [c];
    forall i | 0 <= i < |all| ensures Follows(all, i) {
      assert i < |log| ==> Follows(log, i);
    }
  }

  lemma OrderlyInit(log: seq<Call>, id: Id, before: nat)
    requires Orderly(log) && before > 0
    ensures Orderly(log + [Wrote(id, before, 0)] + [Inited(id, 0)])
  {
    OrderlyAppend(log, Wrote(id, before, 0));
    var more := log + [Wrote(id, before, 0)];
    var all := more + [Inited(id, 0)];
    forall i | 0 <= i < |all| ensures Follows(all, i) {
      assert i < |more| ==> Follows(more, i);
    }
  }

  lemma HandleBooks(s: State, id: Id, event: Event, o: Outcome)
    requires OwnedBut(s, id) && Books(s) && Orderly(s.log) && Matches(Interesting(ToSend(s, id)), event)
    ensures Books(Handled(s, id, event, o)) && Orderly(Handled(s, id, event, o).log)
  {
    hide OwnedBut, Orderly, Books;
    match event
    case Hangup => BooksClosed(s, id);
    case Readable =>
      BooksClosed(s, id);
      BooksQueued(s, id);
    case Writable =>
      var log := s.log + [Wrote(id, ToSend(s, id), o.left)];
      var w := s.(toSend := s.toSend[id := o.left], log := log);
      OrderlyAppend(s.log, Wrote(id, ToSend(s, id), o.left));
      OthersBooks(s, w, id);
      BooksClosed(w, id);
      BooksArmed(w, id);
      if o.left == 0 {
        OrderlyInit(s.log, id, ToSend(s, id));
        var v := w.(toSend := w.toSend[id := 0], log := log + [Inited(id, 0)]);
        OthersBooks(s, v, id);
        BooksArmed(v, id);
      }
  }

  lemma BooksQueued(s: State, id: Id)
    requires Books(s) && ToSend(s, id) == 0
    ensures Books(s.(queue := s.queue + [id]))
  {}

  lemma WaitBooks(s: State, events: seq<(Id, Event)>)
    requires Books(s) && Legal(s, Wait(events))
    ensures Books(Apply(s, Wait(events)))
  {
    hide Ids;
  }

  lemma TakeBooks(s: State, w: nat)
    requires Books(s) && Legal(s, Take(w))
    ensures Books(Apply(s, Take(w)))
  {
    var t := Apply(s, Take(w));
    assert s.queue[0] in s.queue && forall id | id in t.queue :: id in s.queue;
    forall j | Some(j) in t.workers && !j.done ensures ToSend(t, j.id) == 0 {
      var k :| 0 <= k < |t.workers| && t.workers[k] == Some(j);
      assert k != w ==> s.workers[k] == Some(j);
    }
  }

  lemma ProcessBooks(s: State, w: nat, n: nat)
    requires Owned(s) && Books(s) && Orderly(s.log) && Legal(s, Process(w, n))
    ensures Books(Apply(s, Process(w, n))) && Orderly(Apply(s, Process(w, n)).log)
  {
    hide Owned, OwnedBut, Orderly;
    var id := s.workers[w].value.id;
    assert Some(s.workers[w].value) in s.workers;
    OrderlyAppend(s.log, Processed(id, ToSend(s, id), n));
    var u := s.(workers := s.workers[w := None]);
    UnboundOwns(s, w);
    WorkersLess(s, w);
    var v := u.(toSend := s.toSend[id := n]);
    OthersBooks(u, v, id);
    var t := Apply(s, Process(w, n));
    forall j | Some(j) in t.workers && !j.done ensures Some(j) in v.workers {
      var k :| 0 <= k < |t.workers| && t.workers[k] == Some(j);
      assert v.workers[k] == Some(j);
    }
  }

  lemma WorkersLess(s: State, w: nat)
    requires Books(s) && w < |s.workers|
    ensures Books(s.(workers := s.workers[w := None]))
  {}

  lemma StepBooks(s: State, a: Action)
    requires Inv(s) && Legal(s, a)
    ensures Books(Apply(s, a)) && Orderly(Apply(s, a).log)
  {
    hide Owned, OwnedBut, Orderly, Handled, Armed, Closed, Books;
    match a
    case Accept(id) => AcceptBooks(s, id);
    case Register(id) => RegisterBooks(s, id);
    case Wait(events) => WaitBooks(s, events);
    case Handle(o) =>
      UnbatchedOwns(s);
      UnbatchedBooks(s);
      HandleBooks(s.(batch := s.batch[1..]), s.batch[0].0, s.batch[0].1, o);
    case Take(w) => TakeBooks(s, w);
    case Process(w, n) => ProcessBooks(s, w, n);
    case Rearm(w) =>
      WorkersLess(s, w);
      BooksArmed(s.(workers := s.workers[w := None]), s.workers[w].value.id);
      var id := s.workers[w].value.id;
      ArmedLog(s.(workers := s.workers[w := None]), id, Interesting(ToSend(s, id)));
    case Expire(id) =>
      BooksClosed(s, id);
      ClosedLog(s, id);
  }

  lemma ArmedLog(s: State, id: Id, interest: Interest)
    ensures Armed(s, id, interest).log == s.log
  {}

  lemma ClosedLog(s: State, id: Id)
    ensures Closed(s, id).log == s.log
  {}

  lemma AcceptBooks(s: State, id: Id)
    requires Books(s) && id !in s.toSend
    ensures Books(Apply(s, Accept(id))) && Apply(s, Accept(id)).log == s.log
  {
    assert forall x :: ToSend(Apply(s, Accept(id)), x) == ToSend(s, x);
  }

  lemma RegisterBooks(s: State, id: Id)
    requires Books(s) && id in s.arriving
    ensures Books(Apply(s, Register(id))) && Apply(s, Register(id)).log == s.log
  {
    BooksArmed(s.(arriving := s.arriving - {id}), id);
  }

  lemma UnbatchedBooks(s: State)
    requires Books(s) && s.batch != []
    ensures Books(s.(batch := s.batch[1..])) && Matches(Interesting(ToSend(s, s.batch[0].0)), s.batch[0].1)
    ensures ToSend(s.(batch := s.batch[1..]), s.batch[0].0) == ToSend(s, s.batch[0].0)
  {}

  lemma StepKeepsInv(s: State, a: Action)
    requires Inv(s) && Legal(s, a)
    ensures Inv(Apply(s, a))
  {
    hide Owned, Books, Orderly, Apply, Legal;
    StepOwns(s, a);
    StepBooks(s, a);
  }

  lemma StartInv(workers: nat)
    ensures Inv(Start(workers))
  {
    var s := Start(workers);
    forall x ensures InWorkers(s.workers, x) == 0 {
      IdleWorkers(s.workers, x);
    }
  }

  lemma {:induction false} IdleWorkers(workers: seq<Option<Job>>, id: Id)
    requires forall w | w in workers :: w == None
    ensures InWorkers(workers, id) == 0
  {
    if workers != [] {
      assert workers[0] in workers && forall w | w in workers[1..] :: w in workers;
      IdleWorkers(workers[1..], id);
    }
  }

  lemma {:induction false} RunKeepsInv(s: State, actions: seq<Action>)
    requires Inv(s) && Run(s, actions)
    ensures Inv(Exec(s, actions))
    decreases |actions|
  {
    hide Inv, Apply, Legal;
    if actions != [] {
      StepKeepsInv(s, actions[0]);
      RunKeepsInv(Apply(s, actions[0]), actions[1..]);
    }
  }

  /**
  Ownership, over any run of accepts, events, tasks and expiries: a connection that is neither closed nor expired
  has exactly one owner, an armed one waits for the right thing, and `process`, `write` and `init` are only called
  with the `bytes_to_send` they are meant for.
   */
  lemma OneOwner(workers: nat, actions: seq<Action>)
    requires Run(Start(workers), actions)
    ensures var s := Exec(Start(workers), actions);
            && (forall id | id in s.live :: Owners(s, id) == 1)
            && (forall id | id in s.armed :: id in s.live && s.armed[id] == Interesting(ToSend(s, id)))
            && Orderly(s.log)
  {
    hide Run, Exec, Owners, Orderly;
    StartInv(workers);
    RunKeepsInv(Start(workers), actions);
  }

  /** When reactor and pool have nothing to do, every live connection is armed: none is forgotten. */
  lemma QuietIsArmed(workers: nat, actions: seq<Action>)
    requires Run(Start(workers), actions)
    ensures var s := Exec(Start(workers), actions);
            s.arriving == {} && s.batch == [] && s.queue == [] && (forall w | w in s.workers :: w == None) ==>
              s.armed.Keys == s.live
  {
    hide Run, Exec;
    StartInv(workers);
    RunKeepsInv(Start(workers), actions);
    var s := Exec(Start(workers), actions);
    if s.arriving == {} && s.batch == [] && s.queue == [] && forall w | w in s.workers :: w == None {
      forall id | id in s.live ensures id in s.armed {
        IdleWorkers(s.workers, id);
        assert Owners(s, id) == 1;
      }
    }
  }

  lemma StepKeepsDead(s: State, a: Action, id: Id)
    requires Legal(s, a) && id in s.toSend && id !in s.live
    ensures id in Apply(s, a).toSend && id !in Apply(s, a).live
  {
    hide Ids;
  }

  /** A connection that was closed, or timed out in the middle of its task, is never armed again. */
  lemma {:induction false} DeadStaysDead(s: State, actions: seq<Action>, id: Id)
    requires Inv(s) && Run(s, actions) && id in s.toSend && id !in s.live
    ensures id !in Exec(s, actions).live && id !in Exec(s, actions).armed
    decreases |actions|
  {
    hide Apply, Legal, Books, Orderly;
    if actions != [] {
      StepKeepsInv(s, actions[0]);
      StepKeepsDead(s, actions[0], id);
      DeadStaysDead(Apply(s, actions[0]), actions[1..], id);
    }
  }

  // ---------------------------------------------------------------- what an event leads to

  /** The reactor gives a connection up: the peer hung up, `read` failed, or `write` failed. */
  predicate Fatal(event: Event, o: Outcome) {
    event == Hangup || (event == Readable && !o.readOk) || (event == Writable && !o.writeOk)
  }

  /** The step gives `id` up: a fatal event, or the timer. */
  ghost predicate GivesUp(s: State, a: Action, id: Id) {
    a == Expire(id) || (a.Handle? && s.batch != [] && s.batch[0].0 == id && Fatal(s.batch[0].1, a.outcome))
  }

  /** The step hands `id` to the pool: `read` took what there was. */
  ghost predicate HandsOver(s: State, a: Action, id: Id) {
    a.Handle? && s.batch != [] && s.batch[0] == (id, Readable) && a.outcome.readOk
  }

  /** A connection comes to life by an accept, and leaves by being given up, by nothing else. */
  lemma StepLeaves(s: State, a: Action, id: Id)
    requires Legal(s, a)
    ensures id in Apply(s, a).live <==> a == Accept(id) || (id in s.live && !GivesUp(s, a, id))
  {
    hide Ids;
  }

  /** A task enters the queue's back when its connection's bytes were read, and leaves the front to a worker. */
  lemma StepQueues(s: State, a: Action)
    requires Legal(s, a)
    ensures a.Take? ==> s.queue == [Apply(s, a).workers[a.worker].value.id] + Apply(s, a).queue
    ensures !a.Take? ==>
              Apply(s, a).queue == s.queue + if a.Handle? && HandsOver(s, a, s.batch[0].0) then [s.batch[0].0] else []
  {
    hide Ids;
    if a.Take? {
      assert s.queue == [s.queue[0]] + s.queue[1..];
    }
  }

  /** What is left to send is what `process` or `write` said last. */
  lemma StepSends(s: State, a: Action, id: Id)
    requires Legal(s, a)
    ensures ToSend(Apply(s, a), id) ==
            if a == Accept(id) then 0
            else if a.Process? && s.workers[a.worker].value.id == id then a.response
            else if a.Handle? && s.batch[0] == (id, Writable) then a.outcome.left
            else ToSend(s, id)
  {
    hide Ids;
  }

  /** The step arms `id`: it was registered, its response is under way, or its task is done. */
  ghost predicate Arms(s: State, a: Action, id: Id) {
    || a == Register(id)
    || (a.Handle? && s.batch != [] && s.batch[0] == (id, Writable) && a.outcome.writeOk)
    || (a.Rearm? && a.worker < |s.workers| && s.workers[a.worker].Some? && s.workers[a.worker].value.id == id)
  }

  /** Armed after a step: armed by it, or before with no event taken and not given up; for what there is to send. */
  lemma StepArms(s: State, a: Action, id: Id)
    requires Inv(s) && Legal(s, a)
    ensures id in Apply(s, a).armed <==>
              || (Arms(s, a, id) && id in s.live)
              || (id in s.armed && !GivesUp(s, a, id) && !(a.Wait? && exists e | e in a.events :: e.0 == id))
    ensures id in Apply(s, a).armed ==> Apply(s, a).armed[id] == if ToSend(Apply(s, a), id) > 0 then Out else In
  {
    StepKeepsInv(s, a);
    InterestIs(Apply(s, a), id);
    ArmedAfter(s, a, id);
  }

  lemma InterestIs(s: State, id: Id)
    requires Inv(s)
    ensures id in s.armed ==> s.armed[id] == if ToSend(s, id) > 0 then Out else In
  {
    hide Owned, Orderly;
  }

  lemma ArmedAfter(s: State, a: Action, id: Id)
    requires Inv(s) && Legal(s, a)
    ensures id in Apply(s, a).armed <==>
              || (Arms(s, a, id) && id in s.live)
              || (id in s.armed && !GivesUp(s, a, id) && !(a.Wait? && exists e | e in a.events :: e.0 == id))
  {
    hide Books, Orderly, Owned, Owners, Inv;
    if a.Wait? {
      IdsAre(a.events);
      if id in Ids(a.events) {
        var i :| 0 <= i < |Ids(a.events)| && Ids(a.events)[i] == id;
        assert a.events[i] in a.events;
      }
      if e :| e in a.events && e.0 == id {
        var i :| 0 <= i < |a.events| && a.events[i] == e;
        assert Ids(a.events)[i] == id;
      }
    }
  }

  /** In the course of a run some step gives `id` up. */
  ghost predicate GivenUp(s: State, actions: seq<Action>, id: Id)
    decreases |actions|
  {
    actions != [] && (GivesUp(s, actions[0], id) || GivenUp(Apply(s, actions[0]), actions[1..], id))
  }

  /** A connection is gone at the end of a run if and only if some step of the run gave it up. */
  lemma {:induction false} GoneIffGivenUp(s: State, actions: seq<Action>, id: Id)
    requires Run(s, actions) && id in s.toSend
    ensures id in Exec(s, actions).live <==> id in s.live && !GivenUp(s, actions, id)
    decreases |actions|
  {
    hide Apply, Legal, GivesUp;
    if actions != [] {
      StepLeaves(s, actions[0], id);
      StillKnown(s, actions[0], id);
      GoneIffGivenUp(Apply(s, actions[0]), actions[1..], id);
    }
  }

  lemma StillKnown(s: State, a: Action, id: Id)
    requires Legal(s, a) && id in s.toSend
    ensures id in Apply(s, a).toSend && a != Accept(id)
  {
    hide Ids;
  }

  // ---------------------------------------------------------------- no connection gets stuck

  /** Reactor or pool have a next step that is not a new event, a new connection or the timer. */
  ghost predicate CanProceed(s: State) {
    || (exists id :: Legal(s, Register(id)))
    || (exists o :: Legal(s, Handle(o)))
    || (exists w :: Legal(s, Take(w)))
    || (exists w :: Legal(s, Process(w, 0)) || Legal(s, Rearm(w)))
  }

  lemma {:induction false} SomebodyWorks(workers: seq<Option<Job>>, id: Id)
    requires InWorkers(workers, id) > 0
    ensures exists w :: 0 <= w < |workers| && workers[w].Some?
  {
    if !(workers[0].Some? && workers[0].value.id == id) {
      SomebodyWorks(workers[1..], id);
      var w :| 0 <= w < |workers[1..]| && workers[1..][w].Some?;
      assert workers[w + 1].Some?;
    }
  }

  lemma WorkerProceeds(s: State, w: nat)
    requires w < |s.workers| && s.workers[w].Some?
    ensures CanProceed(s)
  {
    assert Legal(s, Process(w, 0)) || Legal(s, Rearm(w));
  }

  lemma {:induction false} SameWorkers(s: State, actions: seq<Action>)
    ensures |Exec(s, actions).workers| == |s.workers|
    decreases |actions|
  {
    hide Ids;
    if actions != [] {
      SameWorkers(Apply(s, actions[0]), actions[1..]);
    }
  }

  /** After any run a live connection is armed, or reactor or pool have a step to take, as long as there is a worker. */
  lemma LiveIsArmedOrMoves(workers: nat, actions: seq<Action>, id: Id)
    requires workers > 0 && Run(Start(workers), actions) && id in Exec(Start(workers), actions).live
    ensures id in Exec(Start(workers), actions).armed || CanProceed(Exec(Start(workers), actions))
  {
    hide Run, Exec, CanProceed, Orderly, Books;
    StartInv(workers);
    RunKeepsInv(Start(workers), actions);
    SameWorkers(Start(workers), actions);
    if id !in Exec(Start(workers), actions).armed {
      OwnedProceeds(Exec(Start(workers), actions), id);
    }
  }

  lemma OwnedProceeds(s: State, id: Id)
    requires Owned(s) && id in s.live && id !in s.armed && |s.workers| > 0
    ensures CanProceed(s)
  {
    assert Owners(s, id) == 1;
    if id in s.arriving {
      assert Legal(s, Register(id));
    } else if s.batch != [] {
      assert Legal(s, Handle(Outcome(true, 0, true)));
    } else if s.queue != [] {
      if s.workers[0].Some? {
        WorkerProceeds(s, 0);
      } else {
        assert Legal(s, Take(0));
      }
    } else {
      SomebodyWorks(s.workers, id);
      var w :| 0 <= w < |s.workers| && s.workers[w].Some?;
      WorkerProceeds(s, w);
    }
  }

  // ---------------------------------------------------------------- all the events of a batch

  /** The connections whose bytes were read, in order. */
  function ReadOf(batch: seq<(Id, Event)>, answers: seq<Outcome>): seq<Id>
    requires |batch| == |answers|
    decreases |batch|
  {
    if batch == [] then []
    else
      (if batch[0].1 == Readable && answers[0].readOk then [batch[0].0] else []) + ReadOf(batch[1..], answers[1..])
  }

  /** Those given up. */
  function LostOf(batch: seq<(Id, Event)>, answers: seq<Outcome>): set<Id>
    requires |batch| == |answers|
    decreases |batch|
  {
    if batch == [] then {}
    else (if Fatal(batch[0].1, answers[0]) then {batch[0].0} else {}) + LostOf(batch[1..], answers[1..])
  }

  lemma HandledIs(s: State, id: Id, event: Event, o: Outcome)
    ensures var h := Handled(s, id, event, o);
            && h.queue == s.queue + (if event == Readable && o.readOk then [id] else [])
            && h.live == s.live - (if Fatal(event, o) then {id} else {}) && h.batch == s.batch
  {}
}
