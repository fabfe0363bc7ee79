/** The loops of src/main.cpp as they are: each call changes what epoll, the pool and the connections hold. */
module SubReactors {
  import opened Strings
  import opened Oneshot

  function Handles(answers: seq<Outcome>): (r: seq<Action>)
    ensures |r| == |answers|
  {
    seq(|answers|, i requires 0 <= i < |answers| => Handle(answers[i]))
  }

  class SubReactor {
    var arriving: set<Id>
    var armed: map<Id, Interest>
    var batch: seq<(Id, Event)>
    var queue: seq<Id>
    var workers: seq<Option<Job>>
    var live: set<Id>
    var toSend: map<Id, nat>
    ghost var log: seq<Call>

    ghost function Now(): State
      reads this
    {
      State(arriving, armed, batch, queue, workers, live, toSend, log)
    }

    constructor (n: nat)
      ensures Now() == Start(n)
    {
      arriving, armed, batch, queue, workers := {}, map[], [], [], seq(n, _ => None);
      live, toSend, log := {}, map[], [];
    }

    /** EPOLL_CTL_DEL and `close`. */
    method Close(id: Id)
      modifies this`live, this`armed
      ensures Now() == Closed(old(Now()), id)
      ensures live == old(live) - {id} && armed == old(armed) - {id}
    {
      live := live - {id};
      armed := armed - {id};
    }

    /** EPOLL_CTL_MOD, or EPOLL_CTL_ADD for a descriptor that is still open. */
    method Arm(id: Id, interest: Interest)
      modifies this`armed
      ensures Now() == Armed(old(Now()), id, interest)
      ensures armed == if id in live then old(armed)[id := interest] else old(armed)
    {
      if id in live {
        armed := armed[id := interest];
      }
    }

    /** One accepted connection: initialised first, registered then. */
    method AcceptOne(id: Id)
      modifies this
      ensures Now() == Exec(old(Now()), [Accept(id), Register(id)])
      ensures live == old(live) + {id} && toSend == old(toSend)[id := 0] && armed == old(armed)[id := In]
    {
      TwoSteps(Now(), Accept(id), Register(id));
      arriving, live, toSend := arriving + {id}, live + {id}, toSend[id := 0];
      arriving := arriving - {id};
      Arm(id, In);
    }

    /** The loop over the events `epoll_wait` returned. */
    method HandleEvents(answers: seq<Outcome>)
      requires |answers| == |batch|
      modifies this
      ensures Now() == Exec(old(Now()), Handles(answers)) && batch == []
      ensures queue == old(queue) + ReadOf(old(batch), answers) && live == old(live) - LostOf(old(batch), answers)
    {
      hide Exec, Apply, Handled;
      NoStep(Now(), Handles(answers));
      for i := 0 to |answers|
        invariant |batch| == |answers| - i
        invariant Exec(old(Now()), Handles(answers)) == Exec(Now(), Handles(answers)[i..])
      {
        OneStep(Now(), Handles(answers), i);
        HandleIs(Now(), answers[i]);
        var id, event, o := batch[0].0, batch[0].1, answers[i];
        batch := batch[1..];
        HandledKeepsBatch(Now(), id, event, o);
        HandleEvent(id, event, o);
      }
      NoStep(Now(), Handles(answers));
      BatchHandled(old(Now()), answers);
    }

    /** One turn of that loop. */
    method HandleEvent(id: Id, event: Event, o: Outcome)
      modifies this
      ensures Now() == Handled(old(Now()), id, event, o)
      ensures queue == old(queue) + (if event == Readable && o.readOk then [id] else [])
      ensures live == if Fatal(event, o) then old(live) - {id} else old(live)
      ensures armed == if Fatal(event, o) then old(armed) - {id}
                       else if event == Writable && id in old(live)
                       then old(armed)[id := if o.left > 0 then Out else In] else old(armed)
      ensures toSend == if event == Writable then old(toSend)[id := o.left] else old(toSend)
    {
      if event == Hangup {
        Close(id);
      } else if event == Readable {
        if o.readOk {
          queue := queue + [id];
        } else {
          Close(id);
        }
      } else {
        log := log + [Wrote(id, ToSend(Now(), id), o.left)];
        toSend := toSend[id := o.left];
        if o.writeOk {
          if toSend[id] == 0 {
            toSend := toSend[id := 0];
            log := log + [Inited(id, 0)];
            Arm(id, In);
          } else {
            Arm(id, Out);
          }
        } else {
          Close(id);
        }
      }
    }

    /** A worker runs this for a queued connection. */
    method Task(w: nat, response: nat)
      requires w < |workers| && workers[w].Some?
      modifies this
      ensures Now() == Exec(old(Now()), [Process(w, response), Rearm(w)])
      ensures workers == old(workers)[w := None] && toSend == old(toSend)[old(workers)[w].value.id := response]
      ensures var id := old(workers)[w].value.id;
              armed == if id in live then old(armed)[id := if response > 0 then Out else In] else old(armed)
    {
      TwoSteps(Now(), Process(w, response), Rearm(w));
      var id := workers[w].value.id;
      log := log + [Processed(id, ToSend(Now(), id), response)];
      toSend := toSend[id := response];
      workers := workers[w := Some(Job(id, true))];
      workers := workers[w := None];
      if toSend[id] > 0 {
        Arm(id, Out);
      } else {
        Arm(id, In);
      }
    }
  }

  lemma TwoSteps(s: State, a: Action, b: Action)
    ensures Exec(s, [a, b]) == Apply(Apply(s, a), b)
  {
    hide Apply;
    assert [a, b][1..] == [b] && [b][1..] == [];
    assert Exec(Apply(s, a), [b]) == Exec(Apply(Apply(s, a), b), []);
  }

  lemma NoStep(s: State, actions: seq<Action>)
    ensures actions[0..] == actions && Exec(s, actions[|actions|..]) == s
  {}

  lemma HandleIs(s: State, o: Outcome)
    requires s.batch != []
    ensures Apply(s, Handle(o)) == Handled(s.(batch := s.batch[1..]), s.batch[0].0, s.batch[0].1, o)
  {
    hide Handled;
  }

  lemma HandledKeepsBatch(s: State, id: Id, event: Event, o: Outcome)
    ensures Handled(s, id, event, o).batch == s.batch
  {}

  lemma {:induction false} BatchHandled(s: State, answers: seq<Outcome>)
    requires |s.batch| == |answers|
    ensures var e := Exec(s, Handles(answers));
            e.queue == s.queue + ReadOf(s.batch, answers) && e.live == s.live - LostOf(s.batch, answers)
    decreases |answers|
  {
    hide Apply, Handled;
    if answers != [] {
      var o := answers[0];
      HandleIs(s, o);
      HandledIs(s.(batch := s.batch[1..]), s.batch[0].0, s.batch[0].1, o);
      assert Handles(answers)[0] == Handle(o) && Handles(answers)[1..] == Handles(answers[1..]);
      BatchHandled(Apply(s, Handle(o)), answers[1..]);
    }
  }

  lemma OneStep(s: State, actions: seq<Action>, i: nat)
    requires i < |actions|
    ensures Exec(s, actions[i..]) == Exec(Apply(s, actions[i]), actions[i + 1..])
  {
    hide Apply;
  }
}
