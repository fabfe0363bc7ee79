/** The MySQL connection pool (src/mysql/sql_connection_pool.cpp) as a step machine. */
module SqlConnPools {
  import opened Strings
  import opened CondVars

  type Conn = nat

  datatype Conns = Conns(
    idle: seq<Conn>,          // connQue_
    held: set<(Tid, Conn)>,   // checked out, and by whom; a thread may have several
    cv: CondVar,
    closed: seq<Conn>         // history: mysql_close in order
  )

  datatype Action =
    | Get(t: Tid)                                // GetConnection from the lock, or from the return of its wait
    | Free(t: Tid, c: Conn, pick: Option<Tid>)   // FreeConnection
    | Spurious(t: Tid)
    | ClosePool

  function Init(conns: seq<Conn>): Conns {
    Conns(conns, {}, CondVar({}, {}), [])
  }

  predicate Enabled(s: Conns, a: Action) {
    match a
    case Get(t) => t !in s.cv.waiting
    case Free(t, c, pick) => (t, c) in s.held && s.cv.CanPick(pick)
    case Spurious(t) => t in s.cv.waiting
    case ClosePool => true
  }

  function AfterGet(s: Conns, t: Tid): Conns {
    var s := s.(cv := s.cv.Leave(t));
    if s.idle == [] then s.(cv := s.cv.Sleep(t))
    else s.(idle := s.idle[1..], held := s.held + {(t, s.idle[0])})
  }

  function Apply(s: Conns, a: Action): Conns
    requires Enabled(s, a)
  {
    match a
    case Get(t) => AfterGet(s, t)
    case Free(t, c, pick) => s.(idle := s.idle + [c], held := s.held - {(t, c)}, cv := s.cv.NotifyOne(pick))
    case Spurious(t) => s.(cv := s.cv.Wake(t))
    case ClosePool => s.(idle := [], closed := s.closed + s.idle)
  }

  predicate Legal(s: Conns, run: seq<Action>)
    decreases |run|
  {
    run == [] || (Enabled(s, run[0]) && Legal(Apply(s, run[0]), run[1..]))
  }

  function Exec(s: Conns, run: seq<Action>): Conns
    requires Legal(s, run)
    decreases |run|
  {
    if run == [] then s else Exec(Apply(s, run[0]), run[1..])
  }

  // ---------------------------------------------------------------- what every step keeps

  ghost predicate HeldBy(s: Conns, c: Conn) {
    exists t :: (t, c) in s.held
  }

  /** Each connection opened is in exactly one place: idle, with one thread, or closed. */
  ghost predicate Conserved(s: Conns, conns: set<Conn>) {
    && NoRepeats(s.idle + s.closed)
    && (forall x, y | x in s.held && y in s.held && x.1 == y.1 :: x == y)
    && (forall x | x in s.held :: x.1 in conns && x.1 !in s.idle + s.closed)
    && (forall c | c in s.idle + s.closed :: c in conns)
    && (forall c | c in conns :: c in s.idle + s.closed || HeldBy(s, c))
  }

  /** A thread sleeps unsignalled only if every idle connection has a signalled thread. */
  ghost predicate WaitersCovered(s: Conns) {
    s.cv.waiting != {} ==> |s.idle| <= |s.cv.woken|
  }

  ghost predicate Inv(s: Conns, conns: set<Conn>) {
    Conserved(s, conns) && s.cv.Wf() && WaitersCovered(s)
  }

  lemma TakingKeeps(s: Conns, t: Tid, conns: set<Conn>)
    requires Conserved(s, conns) && s.idle != []
    ensures Conserved(s.(idle := s.idle[1..], held := s.held + {(t, s.idle[0])}), conns)
  {
    var r := s.(idle := s.idle[1..], held := s.held + {(t, s.idle[0])});
    assert s.idle + s.closed == [s.idle[0]] + (r.idle + r.closed);
    RestDistinct(s.idle[0], r.idle + r.closed);
    forall c | c in conns ensures c in r.idle + r.closed || HeldBy(r, c) {
      if c == s.idle[0] {
        assert (t, c) in r.held;
      } else if c !in s.idle + s.closed {
        var u :| (u, c) in s.held;
        assert (u, c) in r.held;
      }
    }
  }

  lemma ReturningKeeps(s: Conns, t: Tid, c0: Conn, conns: set<Conn>)
    requires Conserved(s, conns) && (t, c0) in s.held
    ensures Conserved(s.(idle := s.idle + [c0], held := s.held - {(t, c0)}), conns)
  {
    var r := s.(idle := s.idle + [c0], held := s.held - {(t, c0)});
    InsertKeepsDistinct(s.idle, s.closed, c0);
    forall c | c in conns ensures c in r.idle + r.closed || HeldBy(r, c) {
      if c !in s.idle + s.closed && c != c0 {
        var u :| (u, c) in s.held;
        assert (u, c) in r.held;
      }
    }
  }

  lemma RestDistinct(c: Conn, rest: seq<Conn>)
    requires NoRepeats([c] + rest)
    ensures NoRepeats(rest) && c !in rest
  {
    var x := [c] + rest;
    assert x[0] == c && forall i | 0 <= i < |rest| :: rest[i] == x[i + 1];
    forall i | 0 <= i < |rest| ensures rest[i] != c {
      assert x[0] != x[i + 1];
    }
  }

  lemma InsertKeepsDistinct(a: seq<Conn>, b: seq<Conn>, c: Conn)
    requires NoRepeats(a + b) && c !in a + b
    ensures NoRepeats(a + [c] + b)
    ensures forall d :: d in a + [c] + b <==> d == c || d in a + b
  {
    var x, y := a + b, a + [c] + b;
    assert forall i | 0 <= i < |y| :: y[i] == if i < |a| then x[i] else if i == |a| then c else x[i - 1];
    assert forall i | 0 <= i < |x| :: x[i] in x;
    forall i, j | 0 <= i < j < |y| ensures y[i] != y[j] {
      var k, l := if i < |a| then i else i - 1, if j < |a| then j else j - 1;
      assert i != |a| && j != |a| ==> x[k] != x[l];
    }
    forall d | d in x ensures d in y {
      var i :| 0 <= i < |x| && x[i] == d;
      assert y[if i < |a| then i else i + 1] == d;
    }
    assert y[|a|] == c;
  }

  lemma ClosingKeeps(s: Conns, conns: set<Conn>)
    requires Conserved(s, conns)
    ensures Conserved(s.(idle := [], closed := s.closed + s.idle), conns)
  {
    var r := s.(idle := [], closed := s.closed + s.idle);
    var x, y := s.idle + s.closed, [] + r.closed;
    assert forall i | 0 <= i < |y| :: y[i] == if i < |s.closed| then x[i + |s.idle|] else x[i - |s.closed|];
    forall c ensures c in x <==> c in y {
    }
    forall c | c in conns && c !in x ensures HeldBy(r, c) {
      var u :| (u, c) in s.held;
      assert (u, c) in r.held;
    }
  }

  lemma ConservedKept(s: Conns, a: Action, conns: set<Conn>)
    requires Conserved(s, conns) && Enabled(s, a)
    ensures Conserved(Apply(s, a), conns)
  {
    match a
    case Get(t) =>
      if s.idle != [] {
        TakingKeeps(s.(cv := s.cv.Leave(t)), t, conns) by {
          SameHolders(s, s.cv.Leave(t), conns);
        }
      } else {
        SameHolders(s, s.cv.Leave(t).Sleep(t), conns);
      }
    case Free(t, c, pick) =>
      SameHolders(s, s.cv.NotifyOne(pick), conns);
      ReturningKeeps(s.(cv := s.cv.NotifyOne(pick)), t, c, conns);
    case Spurious(t) => SameHolders(s, s.cv.Wake(t), conns);
    case ClosePool => ClosingKeeps(s, conns);
  }

  lemma SameHolders(s: Conns, cv: CondVar, conns: set<Conn>)
    requires Conserved(s, conns)
    ensures Conserved(s.(cv := cv), conns)
  {}

  lemma WaitersKept(s: Conns, a: Action)
    requires s.cv.Wf() && WaitersCovered(s) && Enabled(s, a)
    ensures Apply(s, a).cv.Wf() && WaitersCovered(Apply(s, a))
  {
    match a
    case Get(t) => s.cv.LeaveCount(t);
    case Free(t, c, pick) =>
      if pick.Some? {
        s.cv.WakeCount(pick.value);
      }
    case Spurious(t) => s.cv.WakeCount(t);
    case ClosePool =>
  }

  lemma {:induction false} RunKeepsInv(s: Conns, run: seq<Action>, conns: set<Conn>)
    requires Inv(s, conns) && Legal(s, run)
    ensures Inv(Exec(s, run), conns)
    decreases |run|
  {
    hide Conserved, WaitersCovered, Enabled, Apply;
    if run != [] {
      ConservedKept(s, run[0], conns);
      WaitersKept(s, run[0]);
      RunKeepsInv(Apply(s, run[0]), run[1..], conns);
    }
  }

  // ---------------------------------------------------------------- whole runs

  ghost function Opened(conns: seq<Conn>): set<Conn> {
    set c | c in conns
  }

  /**
   In every run: no connection is in two hands, none is lost, and a thread asleep with no signal on
   its way means that every connection not closed is in some thread's hands.
   */
  lemma ConservedNeverStuck(conns: seq<Conn>, run: seq<Action>)
    requires NoRepeats(conns) && Legal(Init(conns), run)
    ensures var s := Exec(Init(conns), run);
            && Conserved(s, Opened(conns))
            && WaitersCovered(s)
            && (s.cv.waiting != {} && s.cv.woken == {} ==>
                  forall c | c in conns :: c in s.closed || HeldBy(s, c))
  {
    var s := Exec(Init(conns), run);
    assert Init(conns).idle + Init(conns).closed == conns;
    RunKeepsInv(Init(conns), run, Opened(conns));
    if s.cv.waiting != {} && s.cv.woken == {} {
      assert s.idle == [];
      forall c | c in conns ensures c in s.closed || HeldBy(s, c) {
        assert c in Opened(conns);
      }
    }
  }

  /** The connections given back, in order. */
  function FreedOf(run: seq<Action>): seq<Conn>
    decreases |run|
  {
    if run == [] then [] else (if run[0].Free? then [run[0].c] else []) + FreedOf(run[1..])
  }

  /** The connections handed out: the front one, each time a thread asks and one is idle. */
  function GotOf(s: Conns, run: seq<Action>): seq<Conn>
    requires Legal(s, run)
    decreases |run|
  {
    if run == [] then []
    else (if run[0].Get? && s.idle != [] then [s.idle[0]] else []) + GotOf(Apply(s, run[0]), run[1..])
  }

  lemma StepInOrder(s: Conns, a: Action)
    requires Enabled(s, a) && !a.ClosePool?
    ensures (if a.Get? && s.idle != [] then [s.idle[0]] else []) + Apply(s, a).idle ==
            s.idle + if a.Free? then [a.c] else []
  {}

  lemma QueueGlue(got: seq<Conn>, gots: seq<Conn>, idle: seq<Conn>, mid: seq<Conn>, back: seq<Conn>, backs: seq<Conn>,
                  left: seq<Conn>)
    requires got + mid == idle + back && gots + left == mid + backs
    ensures got + gots + left == idle + (back + backs)
  {
    assert got + gots + left == got + (gots + left);
    assert got + (mid + backs) == got + mid + backs;
    assert idle + back + backs == idle + (back + backs);
  }

  lemma RunFirst(s: Conns, run: seq<Action>)
    requires Legal(s, run) && run != []
    ensures Enabled(s, run[0]) && Legal(Apply(s, run[0]), run[1..])
    ensures Exec(s, run) == Exec(Apply(s, run[0]), run[1..])
    ensures FreedOf(run) == (if run[0].Free? then [run[0].c] else []) + FreedOf(run[1..])
    ensures GotOf(s, run) ==
            (if run[0].Get? && s.idle != [] then [s.idle[0]] else []) + GotOf(Apply(s, run[0]), run[1..])
  {
    hide Enabled, Apply;
  }

  /** Until the pool is closed, connections go out in the order in which they were opened and came back. */
  lemma {:induction false} FirstInFirstOut(s: Conns, run: seq<Action>)
    requires Legal(s, run) && forall a | a in run :: !a.ClosePool?
    ensures GotOf(s, run) + Exec(s, run).idle == s.idle + FreedOf(run)
    decreases |run|
  {
    if run == [] {
      assert [] + s.idle == s.idle + [];
    } else {
      hide *;
      RunFirst(s, run);
      var r, a, later := Apply(s, run[0]), run[0], run[1..];
      assert a in run && forall b | b in later :: b in run;
      StepInOrder(s, a);
      FirstInFirstOut(r, later);
      QueueGlue(if a.Get? && s.idle != [] then [s.idle[0]] else [], GotOf(r, later), s.idle, r.idle,
                if a.Free? then [a.c] else [], FreedOf(later), Exec(r, later).idle);
    }
  }

  // ---------------------------------------------------------------- the object

  class SqlConnPool {
    var connQueue: seq<Conn>
    ghost var conns: Conns

    ghost predicate Valid()
      reads this
    {
      connQueue == conns.idle
    }

    /** `GetConnection` from the lock, or from the return of its wait; None when it goes (back) to sleep. */
    method GetSection(t: Tid) returns (sql: Option<Conn>)
      requires Valid() && Enabled(conns, Get(t))
      modifies this
      ensures Valid() && conns == Apply(old(conns), Get(t))
      ensures sql.None? <==> old(connQueue) == []
      ensures sql.None? <==> t in conns.cv.waiting
      ensures sql.Some? ==> old(connQueue) == [sql.value] + connQueue && (t, sql.value) in conns.held
    {
      conns := AfterGet(conns, t);
      if connQueue == [] {
        return None;
      }
      var c := connQueue[0];
      connQueue := connQueue[1..];
      return Some(c);
    }

    method FreeConnection(t: Tid, sql: Conn, ghost pick: Option<Tid>)
      requires Valid() && Enabled(conns, Free(t, sql, pick))
      modifies this
      ensures Valid() && conns == Apply(old(conns), Free(t, sql, pick))
      ensures connQueue == old(connQueue) + [sql] && (t, sql) !in conns.held
    {
      connQueue := connQueue + [sql];
      conns := Apply(conns, Free(t, sql, pick));
    }

    /** Closes the idle connections front to back; `closed` is the sequence of `mysql_close` calls. */
    method Close() returns (closed: seq<Conn>)
      requires Valid()
      modifies this
      ensures Valid() && conns == Apply(old(conns), ClosePool)
      ensures conns.closed == old(conns.closed) + closed && closed == old(connQueue) && connQueue == []
    {
      closed := [];
      while connQueue != []
        invariant closed + connQueue == old(connQueue)
        invariant conns == old(conns)
        decreases |connQueue|
      {
        var item := connQueue[0];
        connQueue := connQueue[1..];
        closed := closed + [item];
      }
      conns := Apply(conns, ClosePool);
    }
  }
}
