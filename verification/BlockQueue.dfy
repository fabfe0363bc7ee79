/**
The bounded queue of the logger (src/log/block_queue.h) as a step machine. One step is one stretch
under `mtx_` or one notification; a thread inside `push` or `pop` is asleep, woken, or gone again.
 */
module BlockQueues {
  import opened Strings
  import opened CondVars

  datatype Queue<T> = Queue(
    items: seq<T>,
    capacity: nat,
    closed: bool,
    consumers: CondVar,      // condConsumer_
    producers: CondVar,      // condProducer_
    carrying: map<Tid, T>,   // what each producer inside its wait is about to push
    pushed: seq<T>,          // history
    popped: seq<T>           // history
  )

  /** `pick` is the thread that the step's notify_one wakes. */
  datatype Action<T> =
    | Push(t: Tid, item: T, pick: Option<Tid>)
    | PushAgain(t: Tid, pick: Option<Tid>)
    | Pop(t: Tid, pick: Option<Tid>)
    | PopAgain(t: Tid, pick: Option<Tid>)
    | Flush(pick: Option<Tid>)
    | SpuriousProducer(t: Tid)
    | SpuriousConsumer(t: Tid)
    | Clear
    | Close
    | CloseNotify

  function Init<T>(capacity: nat): Queue<T> {
    Queue([], capacity, false, CondVar({}, {}), CondVar({}, {}), map[], [], [])
  }

  predicate Full<T>(s: Queue<T>) {
    |s.items| >= s.capacity
  }

  function Inside<T>(s: Queue<T>): set<Tid> {
    s.consumers.waiting + s.consumers.woken + s.producers.waiting + s.producers.woken
  }

  predicate Enabled<T>(s: Queue<T>, a: Action<T>) {
    match a
    case Push(t, _, pick) => t !in Inside(s) && if Full(s) then pick.None? else s.consumers.CanPick(pick)
    case PushAgain(t, pick) =>
      t in s.producers.woken && t in s.carrying && if Full(s) then pick.None? else s.consumers.CanPick(pick)
    case Pop(t, pick) => t !in Inside(s) && if s.items == [] then pick.None? else s.producers.CanPick(pick)
    case PopAgain(t, pick) =>
      t in s.consumers.woken && if s.closed || s.items == [] then pick.None? else s.producers.CanPick(pick)
    case Flush(pick) => s.consumers.CanPick(pick)
    case SpuriousProducer(t) => t in s.producers.waiting
    case SpuriousConsumer(t) => t in s.consumers.waiting
    case Clear => true
    case Close => true
    case CloseNotify => s.closed
  }

  /** Lines 118-126. */
  function PushSection<T>(s: Queue<T>, t: Tid, item: T, pick: Option<Tid>): Queue<T> {
    if Full(s) then s.(producers := s.producers.Leave(t).Sleep(t), carrying := s.carrying[t := item])
    else s.(items := s.items + [item], pushed := s.pushed + [item], consumers := s.consumers.NotifyOne(pick),
            producers := s.producers.Leave(t), carrying := s.carrying - {t})
  }

  /** Lines 133-146; `isClose_` is looked at only on the way out of a wait. */
  function PopSection<T>(s: Queue<T>, t: Tid, afterWait: bool, pick: Option<Tid>): Queue<T> {
    var s := s.(consumers := s.consumers.Leave(t));
    if afterWait && s.closed then s
    else if s.items == [] then s.(consumers := s.consumers.Sleep(t))
    else s.(items := s.items[1..], popped := s.popped + [s.items[0]], producers := s.producers.NotifyOne(pick))
  }

  function Apply<T>(s: Queue<T>, a: Action<T>): Queue<T>
    requires Enabled(s, a)
  {
    match a
    case Push(t, item, pick) => PushSection(s, t, item, pick)
    case PushAgain(t, pick) => PushSection(s, t, s.carrying[t], pick)
    case Pop(t, pick) => PopSection(s, t, false, pick)
    case PopAgain(t, pick) => PopSection(s, t, true, pick)
    case Flush(pick) => s.(consumers := s.consumers.NotifyOne(pick))
    case SpuriousProducer(t) => s.(producers := s.producers.Wake(t))
    case SpuriousConsumer(t) => s.(consumers := s.consumers.Wake(t))
    case Clear => s.(items := [])
    case Close => s.(items := [], closed := true)
    case CloseNotify => s.(producers := s.producers.NotifyAll(), consumers := s.consumers.NotifyAll())
  }

  predicate Legal<T>(s: Queue<T>, run: seq<Action<T>>)
    decreases |run|
  {
    run == [] || (Enabled(s, run[0]) && Legal(Apply(s, run[0]), run[1..]))
  }

  function Exec<T>(s: Queue<T>, run: seq<Action<T>>): Queue<T>
    requires Legal(s, run)
    decreases |run|
  {
    if run == [] then s else Exec(Apply(s, run[0]), run[1..])
  }

  /** Neither clear nor Close: the calls that drop items. */
  predicate Keeps<T>(a: Action<T>) {
    !a.Clear? && !a.Close?
  }

  ghost predicate AllKeep<T>(run: seq<Action<T>>) {
    forall i | 0 <= i < |run| :: Keeps(run[i])
  }

  // ---------------------------------------------------------------- what every step keeps

  ghost predicate Placed<T>(s: Queue<T>) {
    && s.consumers.waiting !! s.consumers.woken !! s.producers.waiting !! s.producers.woken
    && s.carrying.Keys == s.producers.waiting + s.producers.woken
  }

  /** What was pushed is what was popped, then what is queued, in order. */
  ghost predicate Fifo<T>(s: Queue<T>) {
    s.pushed == s.popped + s.items
  }

  /** A consumer sleeps unsignalled only if every queued item has a signalled consumer. */
  ghost predicate ConsumersCovered<T>(s: Queue<T>) {
    s.consumers.waiting != {} ==> |s.items| <= |s.consumers.woken|
  }

  /** A producer sleeps unsignalled only if every free slot has a signalled producer. */
  ghost predicate ProducersCovered<T>(s: Queue<T>) {
    s.producers.waiting != {} ==> s.capacity - |s.items| <= |s.producers.woken|
  }

  ghost predicate Inv<T>(s: Queue<T>) {
    !s.closed && Placed(s) && |s.items| <= s.capacity && Fifo(s) && ConsumersCovered(s) && ProducersCovered(s)
  }

  /** Kept by every step, clear and Close included. */
  lemma PlacedKept<T>(s: Queue<T>, a: Action<T>)
    requires Placed(s) && |s.items| <= s.capacity && Enabled(s, a)
    ensures Placed(Apply(s, a)) && |Apply(s, a).items| <= Apply(s, a).capacity == s.capacity
  {}

  lemma ConsumersOnPush<T>(s: Queue<T>, t: Tid, item: T, pick: Option<Tid>)
    requires Placed(s) && ConsumersCovered(s) && (Full(s) || s.consumers.CanPick(pick))
    ensures ConsumersCovered(PushSection(s, t, item, pick))
  {}

  lemma ConsumersOnPop<T>(s: Queue<T>, t: Tid, afterWait: bool, pick: Option<Tid>)
    requires !s.closed && ConsumersCovered(s)
    ensures ConsumersCovered(PopSection(s, t, afterWait, pick))
  {}

  lemma ProducersOnPush<T>(s: Queue<T>, t: Tid, item: T, pick: Option<Tid>)
    requires ProducersCovered(s)
    ensures ProducersCovered(PushSection(s, t, item, pick))
  {}

  lemma ProducersOnPop<T>(s: Queue<T>, t: Tid, afterWait: bool, pick: Option<Tid>)
    requires !s.closed && Placed(s) && ProducersCovered(s) && (s.items == [] || s.producers.CanPick(pick))
    ensures ProducersCovered(PopSection(s, t, afterWait, pick))
  {
    if pick.Some? && s.items != [] {
      s.producers.WakeCount(pick.value);
    }
  }

  lemma ProducersOnSpurious<T>(s: Queue<T>, t: Tid)
    requires Placed(s) && ProducersCovered(s) && t in s.producers.waiting
    ensures ProducersCovered(s.(producers := s.producers.Wake(t)))
  {}

  lemma ConsumersOnWake<T>(s: Queue<T>, t: Tid)
    requires Placed(s) && ConsumersCovered(s) && t in s.consumers.waiting
    ensures ConsumersCovered(s.(consumers := s.consumers.Wake(t)))
  {
    s.consumers.WakeCount(t);
  }

  /** Kept by every step of an open queue, clear and Close included. */
  lemma ConsumersCoveredKept<T>(s: Queue<T>, a: Action<T>)
    requires !s.closed && Placed(s) && ConsumersCovered(s) && Enabled(s, a)
    ensures ConsumersCovered(Apply(s, a))
  {
    match a
    case Push(t, item, pick) => ConsumersOnPush(s, t, item, pick);
    case PushAgain(t, pick) => ConsumersOnPush(s, t, s.carrying[t], pick);
    case Pop(t, pick) => ConsumersOnPop(s, t, false, pick);
    case PopAgain(t, pick) => ConsumersOnPop(s, t, true, pick);
    case Flush(pick) =>
      if pick.Some? {
        ConsumersOnWake(s, pick.value);
      }
    case SpuriousConsumer(t) => ConsumersOnWake(s, t);
    case _ =>
  }

  lemma ProducersCoveredKept<T>(s: Queue<T>, a: Action<T>)
    requires !s.closed && Placed(s) && ProducersCovered(s) && Enabled(s, a) && Keeps(a)
    ensures ProducersCovered(Apply(s, a))
  {
    match a
    case Push(t, item, pick) => ProducersOnPush(s, t, item, pick);
    case PushAgain(t, pick) => ProducersOnPush(s, t, s.carrying[t], pick);
    case Pop(t, pick) => ProducersOnPop(s, t, false, pick);
    case PopAgain(t, pick) => ProducersOnPop(s, t, true, pick);
    case SpuriousProducer(t) => ProducersOnSpurious(s, t);
    case _ =>
  }

  lemma FifoKept<T>(s: Queue<T>, a: Action<T>)
    requires Fifo(s) && Enabled(s, a) && Keeps(a)
    ensures Fifo(Apply(s, a))
  {}

  lemma StepKeepsInv<T>(s: Queue<T>, a: Action<T>)
    requires Inv(s) && Enabled(s, a) && Keeps(a)
    ensures Inv(Apply(s, a))
  {
    assert !Apply(s, a).closed;
    hide Fifo, ConsumersCovered, ProducersCovered, Enabled, Apply;
    PlacedKept(s, a);
    FifoKept(s, a);
    ConsumersCoveredKept(s, a);
    ProducersCoveredKept(s, a);
  }

  lemma {:induction false} RunKeepsInv<T>(s: Queue<T>, run: seq<Action<T>>)
    requires Inv(s) && Legal(s, run) && AllKeep(run)
    ensures Inv(Exec(s, run)) && Exec(s, run).capacity == s.capacity
    decreases |run|
  {
    hide Fifo, ConsumersCovered, ProducersCovered, Enabled, Apply;
    if run != [] {
      PlacedKept(s, run[0]);
      StepKeepsInv(s, run[0]);
      RunKeepsInv(Apply(s, run[0]), run[1..]);
    }
  }

  // ---------------------------------------------------------------- whole runs

  /** Bounded, first in first out, and never a producer and a consumer both waiting for a signal nobody will send. */
  lemma BoundedFifoNeverStuck<T>(capacity: nat, run: seq<Action<T>>)
    requires capacity > 0 && Legal(Init(capacity), run) && AllKeep(run)
    ensures var s := Exec(Init(capacity), run);
            && |s.items| <= capacity
            && s.pushed == s.popped + s.items
            && ConsumersCovered(s) && ProducersCovered(s)
            && (s.consumers.waiting != {} && s.items != [] ==> s.consumers.woken != {})
            && (s.producers.waiting != {} && |s.items| < capacity ==> s.producers.woken != {})
            && !(s.consumers.waiting != {} && s.consumers.woken == {} &&
                 s.producers.waiting != {} && s.producers.woken == {})
  {
    RunKeepsInv(Init(capacity), run);
  }

  /** A woken consumer has its step, and with it takes the front item when there is one. */
  ghost predicate ConsumerSteps<T>(s: Queue<T>, v: Tid) {
    exists pick ::
      && Enabled(s, PopAgain(v, pick))
      && (!s.closed && s.items != [] ==> Apply(s, PopAgain(v, pick)).popped == s.popped + [s.items[0]])
  }

  /** A woken producer has its step, and with it adds its item when there is room. */
  ghost predicate ProducerSteps<T>(s: Queue<T>, v: Tid) {
    exists pick ::
      && Enabled(s, PushAgain(v, pick))
      && (!Full(s) ==> Apply(s, PushAgain(v, pick)).pushed == s.pushed + [s.carrying[v]])
  }

  lemma WokenStep<T>(s: Queue<T>, v: Tid)
    requires Placed(s)
    ensures v in s.consumers.woken ==> ConsumerSteps(s, v)
    ensures v in s.producers.woken ==> ProducerSteps(s, v)
  {
    if v in s.consumers.woken {
      assert Enabled(s, PopAgain(v, if s.closed || s.items == [] then None else SomePick(s.producers)));
    } else if v in s.producers.woken {
      assert Enabled(s, PushAgain(v, if Full(s) then None else SomePick(s.consumers)));
    }
  }

  /**
  How a call in progress goes on. Woken, it has a step of its own. Asleep, it is rightly so, a pop on an empty queue
  or a push on a full one, or every item, or free slot, has a woken call that steps towards it.
   */
  ghost predicate GoesOn<T>(s: Queue<T>, t: Tid) {
    && (t in s.consumers.woken ==> ConsumerSteps(s, t))
    && (t in s.producers.woken ==> ProducerSteps(s, t))
    && (t in s.consumers.waiting && s.items != [] ==>
          |s.items| <= |s.consumers.woken| && forall v | v in s.consumers.woken :: ConsumerSteps(s, v))
    && (t in s.producers.waiting && !Full(s) ==>
          s.capacity - |s.items| <= |s.producers.woken| && forall v | v in s.producers.woken :: ProducerSteps(s, v))
  }

  lemma EachGoesOn<T>(s: Queue<T>, t: Tid)
    requires Inv(s)
    ensures GoesOn(s, t)
  {
    hide ConsumerSteps, ProducerSteps, Fifo;
    WokenStep(s, t);
    forall v | v in s.consumers.woken ensures ConsumerSteps(s, v) {
      WokenStep(s, v);
    }
    forall v | v in s.producers.woken ensures ProducerSteps(s, v) {
      WokenStep(s, v);
    }
  }

  lemma InitInv<T>(capacity: nat)
    ensures Inv(Init<T>(capacity))
  {}

  lemma CallsProceed<T>(capacity: nat, run: seq<Action<T>>, t: Tid)
    requires Legal(Init(capacity), run) && AllKeep(run) && t in Inside(Exec(Init(capacity), run))
    ensures GoesOn(Exec(Init(capacity), run), t)
  {
    hide *;
    InitInv<T>(capacity);
    RunKeepsInv(Init(capacity), run);
    EachGoesOn(Exec(Init(capacity), run), t);
  }

  ghost function SomePick(cv: CondVar): (c: Option<Tid>)
    ensures cv.CanPick(c)
  {
    if cv.waiting == {} then None else var t :| t in cv.waiting; Some(t)
  }

  // ---------------------------------------------------------------- clear and Close

  predicate Pushes<T>(a: Action<T>) {
    a.Push? || a.PushAgain?
  }

  predicate Pops<T>(a: Action<T>) {
    a.Pop? || a.PopAgain?
  }

  /** clear wakes no producer: it keeps the producers' promise exactly when none sleeps or enough are signalled. */
  lemma ClearAndProducers<T>(s: Queue<T>)
    requires Inv(s)
    ensures ProducersCovered(Apply(s, Clear)) <==> s.producers.waiting == {} || s.capacity <= |s.producers.woken|
  {}

  /** A run after which a producer sleeps in front of an empty queue with no signal on its way. */
  lemma ClearStrandsProducer()
    ensures var run := [Push(1, 'a', None), Push(2, 'b', None), Clear];
            Legal(Init(1), run) &&
            var s := Exec(Init(1), run);
            s.items == [] && s.producers == CondVar({2}, {}) && s.consumers == CondVar({}, {})
  {}

  /** Close reaches the threads asleep when it notifies; a pop that starts on a closed, empty queue still sleeps. */
  lemma PopOnClosedSleeps<T>(s: Queue<T>, t: Tid)
    requires Placed(s) && s.closed && t !in Inside(s)
    ensures Enabled(s, Pop(t, None)) && t in Apply(s, Pop(t, None)).consumers.waiting <==> s.items == []
  {}

  /** Who is woken: by a push, a pop or a flush at most one thread, the one picked; after Close everybody. */
  lemma WhoWakes<T>(s: Queue<T>, a: Action<T>)
    requires Placed(s) && Enabled(s, a)
    ensures var r := Apply(s, a);
            && (a.CloseNotify? ==>
                  && r.consumers == CondVar({}, s.consumers.waiting + s.consumers.woken)
                  && r.producers == CondVar({}, s.producers.waiting + s.producers.woken))
            && (Pushes(a) || a.Flush? ==>
                  s.consumers.waiting - r.consumers.waiting == if a.pick.Some? then {a.pick.value} else {})
            && (Pops(a) ==> s.producers.waiting - r.producers.waiting == if a.pick.Some? then {a.pick.value} else {})
            && (Pushes(a) ==> (a.t in r.producers.waiting <==> |s.items| >= s.capacity))
            && (Pops(a) ==> (a.t in r.consumers.waiting <==> s.items == [] && !(a.PopAgain? && s.closed)))
  {}

  /** A woken consumer of a closed queue leaves without an item: the signal it had is spent for nothing. */
  lemma ClosedPopSpendsSignal<T>(s: Queue<T>, t: Tid)
    requires Placed(s) && s.closed && t in s.consumers.woken
    ensures var r := Apply(s, PopAgain(t, None));
            && r.items == s.items && t !in Inside(r)
            && (ConsumersCovered(r) <==> s.consumers.waiting == {} || |s.items| < |s.consumers.woken|)
  {}

  // ---------------------------------------------------------------- what was called

  /** The item of the last `push` that `t` called. */
  function LastPush<T>(run: seq<Action<T>>, t: Tid): Option<T>
    decreases |run|
  {
    if run == [] then None
    else
      var a := run[|run| - 1];
      if a.Push? && a.t == t then Some(a.item) else LastPush(run[..|run| - 1], t)
  }

  lemma {:induction false} OneMore<T>(s: Queue<T>, run: seq<Action<T>>, a: Action<T>)
    ensures Legal(s, run + [a]) <==> Legal(s, run) && Enabled(Exec(s, run), a)
    ensures Legal(s, run + [a]) ==> Exec(s, run + [a]) == Apply(Exec(s, run), a)
    decreases |run|
  {
    hide Enabled, Apply;
    var all := run + [a];
    if run == [] {
      assert all[0] == a && all[1..] == [];
      if Enabled(s, a) {
        assert Legal(Apply(s, a), []);
      }
    } else {
      assert all[0] == run[0] && all[1..] == run[1..] + [a];
      if Enabled(s, run[0]) {
        OneMore(Apply(s, run[0]), run[1..], a);
      }
    }
  }

  /** A producer inside its wait carries the item it called `push` with. */
  ghost predicate CarriesItsItem<T(!new)>(s: Queue<T>, past: seq<Action<T>>) {
    forall t | t in s.carrying :: LastPush(past, t) == Some(s.carrying[t])
  }

  lemma CarriedOn<T(!new)>(s: Queue<T>, past: seq<Action<T>>, a: Action<T>)
    requires CarriesItsItem(s, past) && Enabled(s, a)
    ensures CarriesItsItem(Apply(s, a), past + [a])
  {
    assert (past + [a])[..|past|] == past;
  }

  lemma {:induction false} RunCarries<T(!new)>(capacity: nat, past: seq<Action<T>>)
    requires Legal(Init(capacity), past)
    ensures CarriesItsItem(Exec(Init(capacity), past), past) && Exec(Init(capacity), past).capacity == capacity
    decreases |past|
  {
    hide CarriesItsItem, Enabled, Apply, Legal, Exec;
    if past == [] {
      NothingCarried<T>(capacity);
    } else {
      var front, a := past[..|past| - 1], past[|past| - 1];
      assert past == front + [a];
      OneMore(Init(capacity), front, a);
      RunCarries(capacity, front);
      CarriedOn(Exec(Init(capacity), front), front, a);
      SameCapacity(Exec(Init(capacity), front), a);
    }
  }

  lemma SameCapacity<T>(s: Queue<T>, a: Action<T>)
    requires Enabled(s, a)
    ensures Apply(s, a).capacity == s.capacity
  {}

  lemma NothingCarried<T(!new)>(capacity: nat)
    ensures CarriesItsItem(Exec(Init<T>(capacity), []), []) && Exec(Init<T>(capacity), []).capacity == capacity
  {}

  /**
  The next step after any run, clear and Close included: what enters the queue's back is the item its thread called
  `push` with, and it enters exactly when there is room; what leaves the front does so exactly when there is something
  and the thread does not find the queue closed on its way out of a wait.
   */
  lemma NextStep<T(!new)>(capacity: nat, past: seq<Action<T>>, a: Action<T>)
    requires Legal(Init(capacity), past) && Enabled(Exec(Init(capacity), past), a)
    ensures var s, r := Exec(Init(capacity), past), Apply(Exec(Init(capacity), past), a);
            if Pushes(a) && |s.items| < capacity then
              && LastPush(past + [a], a.t).Some?
              && var item := LastPush(past + [a], a.t).value;
                 r.pushed == s.pushed + [item] && r.items == s.items + [item] && r.popped == s.popped
            else if Pops(a) && s.items != [] && !(a.PopAgain? && s.closed) then
              r.popped == s.popped + [s.items[0]] && s.items == [s.items[0]] + r.items && r.pushed == s.pushed
            else
              && r.pushed == s.pushed && r.popped == s.popped
              && r.items == if a.Clear? || a.Close? then [] else s.items
    ensures Apply(Exec(Init(capacity), past), a).closed <==> Exec(Init(capacity), past).closed || a.Close?
  {
    hide Legal, Exec;
    RunCarries(capacity, past);
    StepMovesItems(Exec(Init(capacity), past), past, a);
  }

  lemma StepMovesItems<T(!new)>(s: Queue<T>, past: seq<Action<T>>, a: Action<T>)
    requires CarriesItsItem(s, past) && Enabled(s, a)
    ensures var r := Apply(s, a);
            if Pushes(a) && |s.items| < s.capacity then
              && LastPush(past + [a], a.t).Some?
              && var item := LastPush(past + [a], a.t).value;
                 r.pushed == s.pushed + [item] && r.items == s.items + [item] && r.popped == s.popped
            else if Pops(a) && s.items != [] && !(a.PopAgain? && s.closed) then
              r.popped == s.popped + [s.items[0]] && s.items == [s.items[0]] + r.items && r.pushed == s.pushed
            else
              && r.pushed == s.pushed && r.popped == s.popped
              && r.items == if a.Clear? || a.Close? then [] else s.items
    ensures Apply(s, a).closed <==> s.closed || a.Close?
  {
    assert (past + [a])[..|past|] == past;
  }

  // ---------------------------------------------------------------- the object

  /** How a thread comes out of a critical section. */
  datatype Outcome<T> = Slept | Closed | Done(item: T)

  /** The queue's own fields; `queue` adds the sleepers and the history, and `pick` is the scheduler's choice. */
  class BlockQueue<T> {
    var deq: seq<T>
    const room: nat
    var isClosed: bool
    ghost var queue: Queue<T>

    ghost predicate Valid()
      reads this
    {
      deq == queue.items && room == queue.capacity && isClosed == queue.closed
    }

    constructor (maxCapacity: nat)
      requires maxCapacity > 0
      ensures Valid() && queue == Init(maxCapacity)
    {
      deq, room, isClosed := [], maxCapacity, false;
      queue := Init(maxCapacity);
    }

    /** `push` from the lock, or from the return of its wait, to its end or its next wait. */
    method PushSectionOf(t: Tid, item: T, ghost pick: Option<Tid>) returns (out: Outcome<T>)
      requires Valid()
      modifies this
      ensures Valid() && queue == PushSection(old(queue), t, item, pick)
      ensures out == if |old(deq)| >= room then Slept else Done(item)
      ensures deq == (if out.Done? then old(deq) + [item] else old(deq)) && isClosed == old(isClosed)
      ensures out.Slept? ==> t in queue.carrying && queue.carrying[t] == item
    {
      queue := PushSection(queue, t, item, pick);
      if |deq| >= room {
        return Slept;
      }
      deq := deq + [item];
      return Done(item);
    }

    /** `pop` from the lock, or from the return of its wait, to its end or its next wait. */
    method PopSectionOf(t: Tid, afterWait: bool, ghost pick: Option<Tid>) returns (out: Outcome<T>)
      requires Valid()
      modifies this
      ensures Valid() && queue == PopSection(old(queue), t, afterWait, pick)
      ensures (if out.Done? then old(deq) == [out.item] + deq else deq == old(deq)) && isClosed == old(isClosed)
      ensures out.Done? <==> !(afterWait && isClosed) && old(deq) != []
      ensures out.Closed? <==> afterWait && isClosed
    {
      queue := PopSection(queue, t, afterWait, pick);
      if afterWait && isClosed {
        return Closed;
      }
      if deq == [] {
        return Slept;
      }
      var item := deq[0];
      deq := deq[1..];
      return Done(item);
    }

    /** `Close` up to its unlock. */
    method CloseSection()
      requires Valid()
      modifies this
      ensures Valid() && queue == Apply(old(queue), Close) && deq == [] && isClosed
    {
      deq, isClosed := [], true;
      queue := Apply(queue, Close);
    }
  }
}
