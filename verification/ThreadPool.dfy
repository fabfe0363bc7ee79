/**
The thread pool (src/threadpool/threadpool.cpp) as a step machine. One step is one stretch under
`queue_mutex`, one notification, or the end of a task; any interleaving of steps is a run.

The n-th task accepted carries ticket n, so that "runs exactly once" is a statement about tickets
even when equal tasks are added twice.
 */
module ThreadPools {
  import opened Strings
  import opened CondVars

  datatype Pool<T> = Pool(
    tasks: seq<T>,            // the queue
    stop: bool,
    ready: set<Tid>,          // about to lock the mutex at the top of the loop
    cv: CondVar,              // in condition.wait
    running: map<Tid, nat>,   // running what has this ticket
    exited: set<Tid>,
    unnotified: nat,          // addTask calls that have unlocked and not yet notified
    allNotified: bool,        // the destructor's notify_all has run
    accepted: seq<T>,         // history: every task accepted
    started: nat,             // history: how many have been taken off the queue
    finished: seq<nat>        // history: tickets in the order their tasks returned
  )

  datatype Action<T> =
    | Section(w: Tid)            // the critical section of the worker loop
    | Finish(w: Tid)             // task() returns
    | Add(task: T)               // addTask up to its unlock
    | Notify(pick: Option<Tid>)  // addTask's notify_one
    | Stop                       // the destructor sets stop
    | NotifyAll                  // the destructor's notify_all
    | Spurious(w: Tid)           // a wait returns without being notified

  function Init<T>(workers: set<Tid>): Pool<T> {
    Pool([], false, workers, CondVar({}, {}), map[], {}, 0, false, [], 0, [])
  }

  predicate Enabled<T>(s: Pool<T>, a: Action<T>) {
    match a
    case Section(w) => w in s.ready || w in s.cv.woken
    case Finish(w) => w in s.running
    case Add(_) => !s.stop
    case Notify(pick) => s.unnotified > 0 && s.cv.CanPick(pick)
    case Stop => !s.stop
    case NotifyAll => s.stop && !s.allNotified
    case Spurious(w) => w in s.cv.waiting
  }

  /** Lines 16-32: wait on an empty queue, leave a stopped and empty pool, or take the front task. */
  function AfterSection<T>(s: Pool<T>, w: Tid): Pool<T> {
    var s := s.(ready := s.ready - {w}, cv := s.cv.Leave(w));
    if !s.stop && s.tasks == [] then s.(cv := s.cv.Sleep(w))
    else if s.tasks == [] then s.(exited := s.exited + {w})
    else s.(tasks := s.tasks[1..], running := s.running[w := s.started], started := s.started + 1)
  }

  function Apply<T>(s: Pool<T>, a: Action<T>): Pool<T>
    requires Enabled(s, a)
  {
    match a
    case Section(w) => AfterSection(s, w)
    case Finish(w) => s.(ready := s.ready + {w}, running := s.running - {w}, finished := s.finished + [s.running[w]])
    case Add(t) => s.(tasks := s.tasks + [t], accepted := s.accepted + [t], unnotified := s.unnotified + 1)
    case Notify(pick) => s.(cv := s.cv.NotifyOne(pick), unnotified := s.unnotified - 1)
    case Stop => s.(stop := true)
    case NotifyAll => s.(cv := s.cv.NotifyAll(), allNotified := true)
    case Spurious(w) => s.(cv := s.cv.Wake(w))
  }

  /** Every step of the run is possible where it is taken. */
  predicate Legal<T>(s: Pool<T>, run: seq<Action<T>>)
    decreases |run|
  {
    run == [] || (Enabled(s, run[0]) && Legal(Apply(s, run[0]), run[1..]))
  }

  function Exec<T>(s: Pool<T>, run: seq<Action<T>>): Pool<T>
    requires Legal(s, run)
    decreases |run|
  {
    if run == [] then s else Exec(Apply(s, run[0]), run[1..])
  }

  // ---------------------------------------------------------------- what every step keeps

  /** Every worker is in exactly one place. */
  ghost predicate Placed<T>(s: Pool<T>, workers: set<Tid>) {
    && s.ready !! s.cv.waiting !! s.cv.woken !! s.running.Keys !! s.exited
    && s.ready + s.cv.waiting + s.cv.woken + s.running.Keys + s.exited == workers
    && (s.started > 0 ==> workers != {})
  }

  /** The queue is what was accepted and not yet started, in order. */
  ghost predicate InOrder<T>(s: Pool<T>) {
    s.started <= |s.accepted| && s.tasks == s.accepted[s.started..]
  }

  ghost predicate HeldBySome(running: map<Tid, nat>, ticket: nat) {
    exists w :: w in running && running[w] == ticket
  }

  /** A started task is either with exactly one worker or finished, once. */
  ghost predicate OncePerTicket<T>(s: Pool<T>) {
    && NoRepeats(s.finished)
    && (forall v, w | v in s.running && w in s.running && v != w :: s.running[v] != s.running[w])
    && (forall w | w in s.running :: s.running[w] < s.started && s.running[w] !in s.finished)
    && (forall n | n in s.finished :: n < s.started)
    && (forall n: nat | n < s.started :: n in s.finished || HeldBySome(s.running, n))
  }

  /** An unsignalled sleeper is never owed a wakeup: queued tasks are covered by wakeups on their way. */
  ghost predicate NoLostWakeup<T>(s: Pool<T>) {
    s.cv.waiting != {} ==> |s.tasks| <= |s.cv.woken| + s.unnotified
  }

  ghost predicate Stopping<T>(s: Pool<T>) {
    && (s.exited != {} ==> s.stop && s.tasks == [])
    && (s.allNotified ==> s.stop && s.cv.waiting == {})
  }

  ghost predicate Inv<T>(s: Pool<T>, workers: set<Tid>) {
    Placed(s, workers) && InOrder(s) && OncePerTicket(s) && NoLostWakeup(s) && Stopping(s)
  }

  lemma PlacedSection<T>(s: Pool<T>, w: Tid, workers: set<Tid>)
    requires Placed(s, workers) && (w in s.ready || w in s.cv.woken)
    ensures Placed(AfterSection(s, w), workers)
  {}

  lemma PlacedKept<T>(s: Pool<T>, a: Action<T>, workers: set<Tid>)
    requires Placed(s, workers) && Enabled(s, a)
    ensures Placed(Apply(s, a), workers)
  {
    hide AfterSection;
    if a.Section? {
      PlacedSection(s, a.w, workers);
    }
  }

  lemma TakingATicket<T>(s: Pool<T>, w: Tid)
    requires OncePerTicket(s) && w !in s.running
    ensures OncePerTicket(s.(running := s.running[w := s.started], started := s.started + 1))
  {
    var running := s.running[w := s.started];
    forall n: nat | n < s.started + 1 ensures n in s.finished || HeldBySome(running, n) {
      if n == s.started {
        assert running[w] == n;
      } else if n !in s.finished {
        var v :| v in s.running && s.running[v] == n;
        assert running[v] == n;
      }
    }
  }

  lemma ReturningATicket<T>(s: Pool<T>, w: Tid)
    requires OncePerTicket(s) && w in s.running
    ensures OncePerTicket(s.(running := s.running - {w}, finished := s.finished + [s.running[w]]))
  {
    var running, finished := s.running - {w}, s.finished + [s.running[w]];
    assert finished[|s.finished|] == s.running[w];
    forall n: nat | n < s.started ensures n in finished || HeldBySome(running, n) {
      if n !in s.finished {
        var v :| v in s.running && s.running[v] == n;
        if v != w {
          assert running[v] == n;
        }
      }
    }
  }

  lemma OncePerTicketKept<T>(s: Pool<T>, a: Action<T>, workers: set<Tid>)
    requires Placed(s, workers) && OncePerTicket(s) && Enabled(s, a)
    ensures OncePerTicket(Apply(s, a))
  {
    match a
    case Section(w) => TakingATicket(s, w);
    case Finish(w) => ReturningATicket(s, w);
    case _ =>
  }

  /** A worker that takes a task may use up one wakeup; one that sleeps or leaves found no task. */
  lemma SectionCovers<T>(s: Pool<T>, w: Tid)
    requires NoLostWakeup(s) && (w in s.ready || w in s.cv.woken)
    ensures NoLostWakeup(AfterSection(s, w))
  {
    Without(s.cv.woken, w);
    assert s.cv.Leave(w) == CondVar(s.cv.waiting, s.cv.woken - {w});
    var waits := s.cv.Leave(w).Sleep(w);
    assert waits.waiting == s.cv.waiting + {w};
  }

  /** A pending notification becomes a woken worker, or there was nobody to wake. */
  lemma NotifyCovers<T>(s: Pool<T>, pick: Option<Tid>)
    requires NoLostWakeup(s) && s.cv.Wf() && s.unnotified > 0 && s.cv.CanPick(pick)
    ensures NoLostWakeup(s.(cv := s.cv.NotifyOne(pick), unnotified := s.unnotified - 1))
  {
    if pick.Some? {
      s.cv.WakeCount(pick.value);
    }
  }

  lemma SpuriousCovers<T>(s: Pool<T>, w: Tid)
    requires NoLostWakeup(s) && s.cv.Wf() && w in s.cv.waiting
    ensures NoLostWakeup(s.(cv := s.cv.Wake(w)))
  {
    s.cv.WakeCount(w);
  }

  lemma NoLostWakeupKept<T>(s: Pool<T>, a: Action<T>)
    requires s.cv.Wf() && NoLostWakeup(s) && Enabled(s, a)
    ensures NoLostWakeup(Apply(s, a))
  {
    hide AfterSection;
    match a
    case Section(w) => SectionCovers(s, w);
    case Notify(pick) => NotifyCovers(s, pick);
    case Spurious(w) => SpuriousCovers(s, w);
    case _ =>
  }

  lemma InOrderKept<T>(s: Pool<T>, a: Action<T>)
    requires InOrder(s) && Enabled(s, a)
    ensures InOrder(Apply(s, a))
  {}

  lemma StoppingKept<T>(s: Pool<T>, a: Action<T>)
    requires Stopping(s) && Enabled(s, a)
    ensures Stopping(Apply(s, a))
  {}

  lemma StepKeepsInv<T>(s: Pool<T>, a: Action<T>, workers: set<Tid>)
    requires Inv(s, workers) && Enabled(s, a)
    ensures Inv(Apply(s, a), workers)
  {
    hide OncePerTicket, NoLostWakeup, InOrder, Stopping, Apply, Enabled;
    PlacedKept(s, a, workers);
    InOrderKept(s, a);
    OncePerTicketKept(s, a, workers);
    NoLostWakeupKept(s, a);
    StoppingKept(s, a);
  }

  lemma {:induction false} RunKeepsInv<T>(s: Pool<T>, run: seq<Action<T>>, workers: set<Tid>)
    requires Inv(s, workers) && Legal(s, run)
    ensures Inv(Exec(s, run), workers)
    decreases |run|
  {
    hide Inv, Apply, Enabled;
    if run != [] {
      StepKeepsInv(s, run[0], workers);
      RunKeepsInv(Apply(s, run[0]), run[1..], workers);
    }
  }

  // ---------------------------------------------------------------- whole runs

  lemma InitInv<T>(workers: set<Tid>)
    ensures Inv(Init<T>(workers), workers)
  {}

  /** `s` is where some run of a new pool leads. */
  ghost predicate Reachable<T(!new)>(s: Pool<T>, workers: set<Tid>) {
    exists run: seq<Action<T>> :: Legal(Init(workers), run) && s == Exec(Init(workers), run)
  }

  lemma ReachableInv<T(!new)>(s: Pool<T>, workers: set<Tid>)
    requires Reachable(s, workers)
    ensures Inv(s, workers)
  {
    hide Inv;
    var run: seq<Action<T>> :| Legal(Init(workers), run) && s == Exec(Init(workers), run);
    InitInv<T>(workers);
    RunKeepsInv(Init(workers), run, workers);
  }

  // ---------------------------------------------------------------- what was called

  /** The tasks handed to `addTask`, in order. */
  function AddsOf<T>(run: seq<Action<T>>): seq<T>
    decreases |run|
  {
    if run == [] then [] else (if run[0].Add? then [run[0].task] else []) + AddsOf(run[1..])
  }

  function NotifiesOf<T>(run: seq<Action<T>>): nat
    decreases |run|
  {
    if run == [] then 0 else (if run[0].Notify? then 1 else 0) + NotifiesOf(run[1..])
  }

  ghost predicate Stops<T>(run: seq<Action<T>>) {
    exists i | 0 <= i < |run| :: run[i].Stop?
  }

  ghost predicate NotifiesAll<T>(run: seq<Action<T>>) {
    exists i | 0 <= i < |run| :: run[i].NotifyAll?
  }

  lemma FirstOfRun<T>(run: seq<Action<T>>)
    requires run != []
    ensures Stops(run) <==> run[0].Stop? || Stops(run[1..])
    ensures NotifiesAll(run) <==> run[0].NotifyAll? || NotifiesAll(run[1..])
  {
    assert forall i | 0 < i < |run| :: run[i] == run[1..][i - 1];
    assert forall i | 0 <= i < |run[1..]| :: run[1..][i] == run[i + 1];
  }

  lemma StepIsCall<T>(s: Pool<T>, a: Action<T>)
    requires Enabled(s, a)
    ensures var e := Apply(s, a);
            && e.accepted == s.accepted + (if a.Add? then [a.task] else [])
            && (e.stop <==> s.stop || a.Stop?) && (e.allNotified <==> s.allNotified || a.NotifyAll?)
            && e.unnotified + (if a.Notify? then 1 else 0) == s.unnotified + if a.Add? then 1 else 0
  {
    assert s.accepted + [] == s.accepted;
  }

  lemma CallsFirst<T>(s: Pool<T>, run: seq<Action<T>>)
    requires run != []
    ensures AddsOf(run) == (if run[0].Add? then [run[0].task] else []) + AddsOf(run[1..])
    ensures NotifiesOf(run) == (if run[0].Notify? then 1 else 0) + NotifiesOf(run[1..])
    ensures Legal(s, run) ==>
              Enabled(s, run[0]) && Legal(Apply(s, run[0]), run[1..]) &&
              Exec(s, run) == Exec(Apply(s, run[0]), run[1..])
  {
    hide Enabled, Apply;
  }

  /** The flags and the history are those of the calls: nothing is accepted but what was handed over, nothing lost. */
  lemma {:induction false} HistoryIsCalls<T>(s: Pool<T>, run: seq<Action<T>>)
    requires Legal(s, run)
    ensures var e := Exec(s, run);
            && e.accepted == s.accepted + AddsOf(run)
            && (e.stop <==> s.stop || Stops(run)) && (e.allNotified <==> s.allNotified || NotifiesAll(run))
            && e.unnotified + NotifiesOf(run) == s.unnotified + |AddsOf(run)|
    decreases |run|
  {
    if run == [] {
      NothingCalled<T>();
      assert s.accepted + [] == s.accepted;
    } else {
      hide *;
      CallsFirst(s, run);
      StepIsCall(s, run[0]);
      FirstOfRun(run);
      HistoryIsCalls(Apply(s, run[0]), run[1..]);
      var one := if run[0].Add? then [run[0].task] else [];
      assert s.accepted + one + AddsOf(run[1..]) == s.accepted + (one + AddsOf(run[1..]));
    }
  }

  lemma NothingCalled<T>()
    ensures !Stops<T>([]) && !NotifiesAll<T>([])
  {}

  /** Something other than a new call, a shutdown or a spurious wakeup can happen. */
  ghost predicate CanProceed<T>(s: Pool<T>) {
    || (exists w :: Enabled(s, Section(w)))
    || (exists w :: Enabled(s, Finish(w)))
    || (exists pick :: Enabled(s, Notify(pick)))
  }

  /** No lost wakeup: a sleeping worker leaves no queued task uncovered, and queued work never gets stuck. */
  lemma QueuedWorkProceeds<T(!new)>(s: Pool<T>, workers: set<Tid>)
    requires Reachable(s, workers)
    ensures s.cv.waiting != {} ==> |s.tasks| <= |s.cv.woken| + s.unnotified
    ensures s.tasks != [] && workers != {} ==> CanProceed(s)
  {
    ReachableInv(s, workers);
    if s.tasks != [] && workers != {} {
      var w :| w in workers;
      if w in s.ready || w in s.cv.woken {
        assert Enabled(s, Section(w));
      } else if w in s.running {
        assert Enabled(s, Finish(w));
      } else if s.cv.woken != {} {
        var v :| v in s.cv.woken;
        assert Enabled(s, Section(v));
      } else {
        assert w in s.cv.waiting;
        assert Enabled(s, Notify(Some(w)));
      }
    }
  }

  /** Each task handed over has been run at most once, and tasks start in the order they were handed over. */
  lemma AtMostOnce<T(!new)>(past: seq<Action<T>>, workers: set<Tid>)
    requires Legal(Init(workers), past)
    ensures var s := Exec(Init(workers), past);
            && s.started <= |AddsOf(past)| && s.tasks == AddsOf(past)[s.started..]
            && NoRepeats(s.finished) && forall n | n in s.finished :: n < s.started
  {
    hide Exec, Legal, Init;
    FromInit(past, workers);
  }

  /** What holds after any run of a new pool. */
  lemma FromInit<T(!new)>(past: seq<Action<T>>, workers: set<Tid>)
    requires Legal(Init(workers), past)
    ensures var s := Exec(Init(workers), past);
            && Reachable(s, workers) && Inv(s, workers) && s.accepted == AddsOf(past)
            && s.stop == Stops(past) && s.allNotified == NotifiesAll(past)
            && s.unnotified + NotifiesOf(past) == |AddsOf(past)|
  {
    hide Inv, Legal, Exec, Stops, NotifiesAll, AddsOf, NotifiesOf;
    InitInv<T>(workers);
    RunKeepsInv(Init(workers), past, workers);
    HistoryIsCalls(Init(workers), past);
    assert [] + AddsOf(past) == AddsOf(past);
  }

  // ---------------------------------------------------------------- shutdown

  /** An upper bound on the steps left once everybody has been notified of the stop. */
  ghost function StepsLeft<T>(s: Pool<T>): nat {
    2 * |s.tasks| + |s.ready| + |s.cv.woken| + 2 * |s.running| + s.unnotified
  }

  ghost predicate AllDone<T>(s: Pool<T>, workers: set<Tid>) {
    s.exited == workers && s.unnotified == 0
  }

  lemma WithKey(m: map<Tid, nat>, w: Tid, n: nat)
    requires w !in m
    ensures |m[w := n]| == |m| + 1
  {}

  lemma ShutdownSection<T>(s: Pool<T>, w: Tid)
    requires s.stop && Enabled(s, Section(w)) && w !in s.running
    ensures StepsLeft(AfterSection(s, w)) < StepsLeft(s)
  {
    Without(s.ready, w);
    Without(s.cv.woken, w);
    WithKey(s.running, w, s.started);
  }

  lemma ShutdownFinish<T>(s: Pool<T>, w: Tid, workers: set<Tid>)
    requires Inv(s, workers) && s.allNotified && Enabled(s, Finish(w))
    ensures StepsLeft(Apply(s, Finish(w))) < StepsLeft(s)
  {
    hide OncePerTicket, NoLostWakeup;
    var r := Apply(s, Finish(w));
    assert s.running.Keys == r.running.Keys + {w};
    assert |s.running.Keys| == |r.running.Keys| + 1 && |s.running| == |s.running.Keys| &&
           |r.running| == |r.running.Keys|;
    assert r.ready == s.ready + {w};
  }

  lemma ShutdownStep<T>(s: Pool<T>, a: Action<T>, workers: set<Tid>)
    requires Inv(s, workers) && s.allNotified && Enabled(s, a)
    ensures Apply(s, a).allNotified && StepsLeft(Apply(s, a)) < StepsLeft(s)
  {
    hide OncePerTicket, NoLostWakeup;
    match a
    case Section(w) => ShutdownSection(s, w);
    case Finish(w) => ShutdownFinish(s, w, workers);
    case _ =>
  }

  /** While some worker has not exited, each of them that has not can take its next step. */
  lemma UnfinishedWorkersStep<T>(s: Pool<T>, w: Tid, workers: set<Tid>)
    requires Inv(s, workers) && s.allNotified && w in workers - s.exited
    ensures Enabled(s, Section(w)) || Enabled(s, Finish(w))
  {}

  lemma {:induction false} ShutdownBound<T>(s: Pool<T>, run: seq<Action<T>>, workers: set<Tid>)
    requires Inv(s, workers) && s.allNotified && Legal(s, run)
    ensures Inv(Exec(s, run), workers) && Exec(s, run).allNotified
    ensures |run| + StepsLeft(Exec(s, run)) <= StepsLeft(s)
    ensures Exec(s, run).accepted == s.accepted
    decreases |run|
  {
    hide Inv, Enabled, StepsLeft;
    if run != [] {
      ShutdownStep(s, run[0], workers);
      StepKeepsInv(s, run[0], workers);
      AcceptsNoMore(s, run[0], workers);
      ShutdownBound(Apply(s, run[0]), run[1..], workers);
    }
  }

  lemma AcceptsNoMore<T>(s: Pool<T>, a: Action<T>, workers: set<Tid>)
    requires Inv(s, workers) && s.allNotified && Enabled(s, a)
    ensures Apply(s, a).accepted == s.accepted
  {}

  /** These tasks were accepted and each has run to its end, once: the finished tickets are 0, 1, ... in some order. */
  ghost predicate RanEachOnce<T>(s: Pool<T>, tasks: seq<T>) {
    s.accepted == tasks && NoRepeats(s.finished) && forall n: nat :: n in s.finished <==> n < |tasks|
  }

  /** No step is possible. */
  ghost predicate Stuck<T(!new)>(s: Pool<T>) {
    forall a: Action<T> :: !Enabled(s, a)
  }

  lemma OnlyDoneIsStuck<T(!new)>(s: Pool<T>, workers: set<Tid>)
    requires Inv(s, workers) && s.allNotified
    ensures Stuck(s) <==> AllDone(s, workers)
  {
    hide OncePerTicket, NoLostWakeup;
    if s.exited != workers {
      var w :| w in workers - s.exited;
      UnfinishedWorkersStep(s, w, workers);
    } else if s.unnotified > 0 {
      assert Enabled(s, Action<T>.Notify(None));
    }
  }

  lemma DoneMeansRan<T>(s: Pool<T>, workers: set<Tid>)
    requires Inv(s, workers) && AllDone(s, workers) && workers != {}
    ensures s.tasks == [] && RanEachOnce(s, s.accepted)
  {
    assert s.running == map[];
  }

  /**
   Shutdown completes. After any run of a new pool in which the destructor's notify_all has happened, nobody
   sleeps, no continuation is longer than StepsLeft, and one that cannot be continued has every worker out
   of its loop; the pool then has run each task handed to `addTask` exactly once, provided it has a worker at all.
   */
  lemma ShutdownCompletes<T(!new)>(past: seq<Action<T>>, run: seq<Action<T>>, workers: set<Tid>)
    requires Legal(Init(workers), past) && NotifiesAll(past) && Legal(Exec(Init(workers), past), run)
    ensures var s := Exec(Init(workers), past);
            var end := Exec(s, run);
            && s.cv.waiting == {}
            && |run| <= StepsLeft(s)
            && (Stuck(end) <==> AllDone(end, workers))
            && (AllDone(end, workers) && workers != {} ==> end.tasks == [] && RanEachOnce(end, AddsOf(past)))
  {
    hide Exec, Legal, Init, NotifiesAll, AddsOf, Stuck, StepsLeft, AllDone, RanEachOnce;
    FromInit(past, workers);
    var s := Exec(Init(workers), past);
    assert s.cv.waiting == {};
    ShutdownBound(s, run, workers);
    OnlyDoneIsStuck(Exec(s, run), workers);
    if AllDone(Exec(s, run), workers) && workers != {} {
      DoneMeansRan(Exec(s, run), workers);
    }
  }

  /** A pool of no threads accepts tasks and never runs one. */
  lemma NoWorkersNoWork<T(!new)>(past: seq<Action<T>>)
    requires Legal(Init({}), past)
    ensures var s := Exec(Init({}), past); s.started == 0 && s.tasks == AddsOf(past)
  {
    hide Exec, Legal, Init;
    FromInit(past, {});
  }

  // ---------------------------------------------------------------- the object

  /** How a worker comes out of its critical section. */
  datatype Outcome<T> = Slept | Left | Took(task: T)

  /**
   The pool's own fields. `pool` adds what the scheduler and the reader of the history see; every
   method takes exactly the step of the machine that its name says.
   */
  class ThreadPool<T> {
    var tasks: seq<T>
    var stop: bool
    ghost var pool: Pool<T>

    ghost predicate Valid()
      reads this
    {
      tasks == pool.tasks && stop == pool.stop && InOrder(pool)
    }

    constructor (ghost workers: set<Tid>)
      ensures Valid() && pool == Init(workers)
    {
      tasks, stop := [], false;
      pool := Init(workers);
    }

    /** From the lock at the top of the worker loop to the unlock before `task()`, or to the next sleep. */
    method WorkerSection(w: Tid) returns (out: Outcome<T>)
      requires Valid() && Enabled(pool, Section(w))
      modifies this
      ensures Valid() && pool == Apply(old(pool), Section(w))
      ensures out == if old(tasks) != [] then Took(old(tasks)[0]) else if old(stop) then Left else Slept
      ensures tasks == (if out.Took? then old(tasks)[1..] else old(tasks)) && stop == old(stop)
      ensures out.Slept? ==> w in pool.cv.waiting
      ensures out.Left? ==> w in pool.exited
      ensures out.Took? ==>
                && w in pool.running && pool.running[w] == old(pool.started)
                && out.task == pool.accepted[pool.running[w]]
    {
      ghost var before := pool;
      if !(stop || tasks != []) {
        pool := AfterSection(before, w);
        return Slept;
      }
      if stop && tasks == [] {
        pool := AfterSection(before, w);
        return Left;
      }
      var task := tasks[0];
      tasks := tasks[1..];
      pool := AfterSection(before, w);
      return Took(task);
    }

    /** `addTask` up to its unlock; false where the source throws. */
    method AddTask(task: T) returns (accepted: bool)
      requires Valid()
      modifies this
      ensures Valid() && accepted == !old(stop) && stop == old(stop)
      ensures tasks == if accepted then old(tasks) + [task] else old(tasks)
      ensures pool == if accepted then Apply(old(pool), Add(task)) else old(pool)
    {
      if stop {
        return false;
      }
      tasks := tasks + [task];
      pool := Apply(pool, Add(task));
      return true;
    }

    /** The first half of the destructor. */
    method SetStop()
      requires Valid() && !stop
      modifies this
      ensures Valid() && stop && tasks == old(tasks) && pool == Apply(old(pool), Stop)
    {
      stop := true;
      pool := Apply(pool, Stop);
    }
  }
}
