/**
`verify_login` over Redis and MySQL (src/http/http_conn.cpp:453-536): a cache in front of a table that changes on
its own. Lookup, query and SETEX are steps of their own, so that anything may happen between them.
 */
module LoginCaches {
  import opened Strings

  /** SETEX ... 1800, in milliseconds. */
  const LIFE := 1_800_000

  type Table = map<string, string>

  /** The table from a moment on. */
  datatype Moment = Moment(at: nat, db: Table)

  datatype Entry = Entry(password: string, expires: nat)

  /** A login between its lookup and its answer. */
  datatype Session =
    | Missed(name: string, pwd: string)
    | Fetched(name: string, pwd: string, row: Option<string>, at: nat)

  datatype Answer = Answer(name: string, pwd: string, ok: bool, at: nat)

  datatype State = State(
    now: nat, past: seq<Moment>, cache: map<string, Entry>, sessions: map<nat, Session>, answers: seq<Answer>)

  datatype Action =
    | Pass(ms: nat)
    | Change(db: Table)
    | Evict(name: string)                                   // Redis may always forget
    | Ask(thread: nat, name: string, pwd: string, up: bool) // GET; `up`: Redis can be reached
    | Fetch(thread: nat)                                    // SELECT
    | Finish(thread: nat, up: bool)                         // SETEX when the password is right; the answer

  function Row(db: Table, name: string): Option<string> {
    if name in db then Some(db[name]) else None
  }

  /** The answer of the table itself. */
  predicate Check(db: Table, name: string, pwd: string) {
    Row(db, name) == Some(pwd)
  }

  function Db(s: State): Table {
    if s.past == [] then map[] else s.past[|s.past| - 1].db
  }

  predicate Hit(s: State, name: string) {
    name in s.cache && s.now <= s.cache[name].expires
  }

  /** `delay` bounds the time between a query and the SETEX that follows it. */
  ghost predicate Legal(s: State, a: Action, delay: nat) {
    match a
    case Ask(t, _, _, _) => t !in s.sessions
    case Fetch(t) => t in s.sessions && s.sessions[t].Missed?
    case Finish(t, _) => t in s.sessions && s.sessions[t].Fetched? && s.now <= s.sessions[t].at + delay
    case _ => true
  }

  function Apply(s: State, a: Action): State {
    match a
    case Pass(ms) => s.(now := s.now + ms)
    case Change(db) => s.(past := s.past + [Moment(s.now, db)])
    case Evict(name) => s.(cache := s.cache - {name})
    case Ask(t, name, pwd, up) =>
      if up && Hit(s, name) then s.(answers := s.answers + [Answer(name, pwd, s.cache[name].password == pwd, s.now)])
      else s.(sessions := s.sessions[t := Missed(name, pwd)])
    case Fetch(t) =>
      if t in s.sessions && s.sessions[t].Missed? then
        var m := s.sessions[t];
        s.(sessions := s.sessions[t := Fetched(m.name, m.pwd, Row(Db(s), m.name), s.now)])
      else s
    case Finish(t, up) =>
      if t in s.sessions && s.sessions[t].Fetched? then
        var f := s.sessions[t];
        var ok := f.row == Some(f.pwd);
        s.(sessions := s.sessions - {t},
           cache := if ok && up then s.cache[f.name := Entry(f.pwd, s.now + LIFE)] else s.cache,
           answers := s.answers + [Answer(f.name, f.pwd, ok, s.now)])
      else s
  }

  ghost predicate Run(s: State, actions: seq<Action>, delay: nat)
    decreases |actions|
  {
    actions == [] || (Legal(s, actions[0], delay) && Run(Apply(s, actions[0]), actions[1..], delay))
  }

  function Exec(s: State, actions: seq<Action>): State
    decreases |actions|
  {
    if actions == [] then s else Exec(Apply(s, actions[0]), actions[1..])
  }

  function Start(db: Table): State {
    State(0, [Moment(0, db)], map[], map[], [])
  }

  // ---------------------------------------------------------------- staleness

  /** `past[i]` is what the table held at time `u`. */
  predicate AsOf(past: seq<Moment>, i: nat, u: nat) {
    i < |past| && past[i].at <= u && (i + 1 < |past| ==> u <= past[i + 1].at)
  }

  /** The table would have given this answer at some moment no longer ago than the life of an entry, and the delay. */
  ghost predicate Justified(past: seq<Moment>, a: Answer, delay: nat) {
    exists i: nat, u: nat :: AsOf(past, i, u) && u <= a.at <= u + delay + LIFE &&
      a.ok == Check(past[i].db, a.name, a.pwd)
  }

  ghost predicate EntryFrom(past: seq<Moment>, now: nat, name: string, e: Entry, delay: nat) {
    exists i: nat, u: nat :: AsOf(past, i, u) && u <= now && e.expires <= u + delay + LIFE &&
      Row(past[i].db, name) == Some(e.password)
  }

  ghost predicate SessionFrom(past: seq<Moment>, now: nat, f: Session) {
    f.Fetched? ==> f.at <= now && exists i: nat :: AsOf(past, i, f.at) && f.row == Row(past[i].db, f.name)
  }

  ghost predicate Inv(s: State, delay: nat) {
    && s.past != [] && s.past[|s.past| - 1].at <= s.now
    && (forall n | n in s.cache :: EntryFrom(s.past, s.now, n, s.cache[n], delay))
    && (forall t | t in s.sessions :: SessionFrom(s.past, s.now, s.sessions[t]))
    && (forall a | a in s.answers :: a.at <= s.now && Justified(s.past, a, delay))
  }

  lemma AsOfStays(past: seq<Moment>, i: nat, u: nat, m: Moment)
    requires AsOf(past, i, u) && u <= m.at
    ensures AsOf(past + [m], i, u) && (past + [m])[i] == past[i]
  {}

  lemma AsOfNow(s: State, delay: nat)
    requires Inv(s, delay)
    ensures AsOf(s.past, |s.past| - 1, s.now)
  {}

  lemma ChangeKeepsInv(s: State, db: Table, delay: nat)
    requires Inv(s, delay)
    ensures Inv(Apply(s, Change(db)), delay)
  {
    var m := Moment(s.now, db);
    var past := s.past + [m];
    forall n | n in s.cache ensures EntryFrom(past, s.now, n, s.cache[n], delay) {
      var i: nat, u: nat :| AsOf(s.past, i, u) && u <= s.now && s.cache[n].expires <= u + delay + LIFE &&
        Row(s.past[i].db, n) == Some(s.cache[n].password);
      AsOfStays(s.past, i, u, m);
    }
    forall t | t in s.sessions ensures SessionFrom(past, s.now, s.sessions[t]) {
      var f := s.sessions[t];
      if f.Fetched? {
        var i: nat :| AsOf(s.past, i, f.at) && f.row == Row(s.past[i].db, f.name);
        AsOfStays(s.past, i, f.at, m);
      }
    }
    forall a | a in s.answers ensures Justified(past, a, delay) {
      var i: nat, u: nat :| AsOf(s.past, i, u) && u <= a.at <= u + delay + LIFE &&
        a.ok == Check(s.past[i].db, a.name, a.pwd);
      AsOfStays(s.past, i, u, m);
    }
  }

  lemma HitIsJustified(s: State, name: string, pwd: string, delay: nat)
    requires Inv(s, delay) && Hit(s, name)
    ensures Justified(s.past, Answer(name, pwd, s.cache[name].password == pwd, s.now), delay)
  {}

  lemma FinishIsJustified(s: State, f: Session, delay: nat)
    requires Inv(s, delay) && f.Fetched? && SessionFrom(s.past, s.now, f) && s.now <= f.at + delay
    ensures Justified(s.past, Answer(f.name, f.pwd, f.row == Some(f.pwd), s.now), delay)
    ensures f.row == Some(f.pwd) ==> EntryFrom(s.past, s.now, f.name, Entry(f.pwd, s.now + LIFE), delay)
  {}

  lemma StepKeepsInv(s: State, a: Action, delay: nat)
    requires Inv(s, delay) && Legal(s, a, delay)
    ensures Inv(Apply(s, a), delay)
  {
    hide Justified, AsOf, Row;
    match a
    case Pass(ms) => PassKeepsInv(s, ms, delay);
    case Change(db) => ChangeKeepsInv(s, db, delay);
    case Evict(name) =>
    case Ask(t, name, pwd, up) =>
      if Hit(s, name) {
        HitIsJustified(s, name, pwd, delay);
      }
    case Fetch(t) =>
      AsOfNow(s, delay);
    case Finish(t, up) =>
      FinishIsJustified(s, s.sessions[t], delay);
  }

  lemma PassKeepsInv(s: State, ms: nat, delay: nat)
    requires Inv(s, delay)
    ensures Inv(Apply(s, Pass(ms)), delay)
  {}

  lemma {:induction false} RunKeepsInv(s: State, actions: seq<Action>, delay: nat)
    requires Inv(s, delay) && Run(s, actions, delay)
    ensures Inv(Exec(s, actions), delay)
    decreases |actions|
  {
    hide Inv, Legal, Apply;
    if actions != [] {
      StepKeepsInv(s, actions[0], delay);
      RunKeepsInv(Apply(s, actions[0]), actions[1..], delay);
    }
  }

  /**
  Staleness, over any run of logins, password changes, evictions and Redis failures: every login is answered as
  the table would have answered at some moment of the last half hour, plus the time a query may be ahead of its
  SETEX. With the two in one step that is half an hour exactly.
   */
  lemma BoundedStaleness(db: Table, actions: seq<Action>, delay: nat)
    requires Run(Start(db), actions, delay)
    ensures var s := Exec(Start(db), actions);
            forall a | a in s.answers :: a.at <= s.now && Justified(s.past, a, delay)
  {
    hide Run, Exec, Justified;
    RunKeepsInv(Start(db), actions, delay);
  }

  lemma {:induction false} PastStays(s: State, actions: seq<Action>)
    requires forall a | a in actions :: !a.Change?
    ensures Exec(s, actions).past == s.past
    decreases |actions|
  {
    if actions != [] {
      assert actions[0] in actions && forall a | a in actions[1..] :: a in actions;
      PastStays(Apply(s, actions[0]), actions[1..]);
    }
  }

  /** When the table does not change, the cache cannot be told from it. */
  lemma UnchangingIsExact(db: Table, actions: seq<Action>, delay: nat)
    requires Run(Start(db), actions, delay) && forall a | a in actions :: !a.Change?
    ensures forall a | a in Exec(Start(db), actions).answers :: a.ok == Check(db, a.name, a.pwd)
  {
    hide Run, Exec, Check;
    BoundedStaleness(db, actions, delay);
    PastStays(Start(db), actions);
    var s := Exec(Start(db), actions);
    forall a | a in s.answers ensures a.ok == Check(db, a.name, a.pwd) {
      assert Justified(s.past, a, delay);
    }
  }

  lemma First(s: State, a: Action, later: seq<Action>)
    ensures Exec(s, [a] + later) == Exec(Apply(s, a), later)
    ensures Run(s, [a] + later, 0) <==> Legal(s, a, 0) && Run(Apply(s, a), later, 0)
  {}

  /** The table says `old`, someone logs in, the table says `new`, time passes, and the old password is tried again. */
  function OldPasswordAgain(name: string, before: string, after: string, ms: nat): seq<Action> {
    [Ask(0, name, before, true)] + ([Fetch(0)] + ([Finish(0, true)] +
      ([Change(map[name := after])] + ([Pass(ms)] + ([Ask(1, name, before, true)] + [])))))
  }

  /** The bound is reached: after a change the old password still opens the door, for half an hour and not longer. */
  lemma OldPasswordOpens(name: string, before: string, after: string, ms: nat)
    requires before != after
    ensures var s0, run := Start(map[name := before]), OldPasswordAgain(name, before, after, ms);
            var s := Exec(s0, run);
            && Run(s0, run, 0) && s.answers != [] && !Check(Db(s), name, before)
            && (s.answers[1..] == [Answer(name, before, true, ms)] <==> ms <= LIFE)
  {
    var s0 := Start(map[name := before]);
    var s1 := Apply(s0, Ask(0, name, before, true));
    var s2 := Apply(s1, Fetch(0));
    var s3 := Apply(s2, Finish(0, true));
    var s4 := Apply(s3, Change(map[name := after]));
    var s5 := Apply(s4, Pass(ms));
    var s6 := Apply(s5, Ask(1, name, before, true));
    var r6 := [Ask(1, name, before, true)] + [];
    var r5 := [Pass(ms)] + r6;
    var r4 := [Change(map[name := after])] + r5;
    var r3 := [Finish(0, true)] + r4;
    var r2 := [Fetch(0)] + r3;
    First(s5, Ask(1, name, before, true), []);
    First(s4, Pass(ms), r6);
    First(s3, Change(map[name := after]), r5);
    First(s2, Finish(0, true), r4);
    First(s1, Fetch(0), r3);
    First(s0, Ask(0, name, before, true), r2);
    assert s3.answers == [Answer(name, before, true, 0)] && s3.cache == map[name := Entry(before, LIFE)];
    assert Hit(s5, name) <==> ms <= LIFE;
  }

  // ---------------------------------------------------------------- who is answered, and from where

  /** The logins asked for. */
  function AsksOf(actions: seq<Action>): nat
    decreases |actions|
  {
    if actions == [] then 0 else (if actions[0].Ask? then 1 else 0) + AsksOf(actions[1..])
  }

  /** The name and the password of the last login that `t` asked for. */
  function LastAsk(actions: seq<Action>, t: nat): Option<(string, string)>
    decreases |actions|
  {
    if actions == [] then None
    else
      var a := actions[|actions| - 1];
      if a.Ask? && a.thread == t then Some((a.name, a.pwd)) else LastAsk(actions[..|actions| - 1], t)
  }

  function Whose(f: Session): (string, string) {
    (f.name, f.pwd)
  }

  ghost predicate AskedFor(s: State, past: seq<Action>) {
    forall t | t in s.sessions :: LastAsk(past, t) == Some(Whose(s.sessions[t]))
  }

  lemma {:induction false} OneMore(s: State, past: seq<Action>, a: Action, delay: nat)
    ensures Exec(s, past + [a]) == Apply(Exec(s, past), a)
    ensures Run(s, past + [a], delay) <==> Run(s, past, delay) && Legal(Exec(s, past), a, delay)
    ensures AsksOf(past + [a]) == AsksOf(past) + if a.Ask? then 1 else 0
    decreases |past|
  {
    hide Apply, Legal;
    var all := past + [a];
    if past == [] {
      assert all[0] == a && all[1..] == [];
      assert Run(Apply(s, a), [], delay);
    } else {
      assert all[0] == past[0] && all[1..] == past[1..] + [a];
      OneMore(Apply(s, past[0]), past[1..], a, delay);
    }
  }

  lemma OneSession(m: map<nat, Session>, t: nat, f: Session)
    ensures |m[t := f]| == |m| + if t in m then 0 else 1
    ensures |m - {t}| == |m| - if t in m then 1 else 0
  {
    assert m[t := f].Keys == m.Keys + {t};
    assert |m[t := f]| == |m[t := f].Keys| && |m| == |m.Keys|;
    assert (m - {t}).Keys == m.Keys - {t};
    assert |m - {t}| == |(m - {t}).Keys|;
  }

  /** A step answers at most one login: a hit at once, by the cached password; any other once its row is there. */
  lemma StepAnswers(s: State, past: seq<Action>, a: Action, delay: nat)
    requires AskedFor(s, past) && Legal(s, a, delay)
    ensures var r, hit := Apply(s, a), a.Ask? && a.up && a.name in s.cache && s.now <= s.cache[a.name].expires;
            && AskedFor(r, past + [a])
            && |r.answers| + |r.sessions| == |s.answers| + |s.sessions| + (if a.Ask? then 1 else 0)
            && (hit ==>
                  r.answers == s.answers + [Answer(a.name, a.pwd, s.cache[a.name].password == a.pwd, s.now)] &&
                  r.sessions == s.sessions)
            && (a.Finish? ==>
                  LastAsk(past, a.thread).Some? &&
                  var (name, pwd), row := LastAsk(past, a.thread).value, s.sessions[a.thread].row;
                  r.answers == s.answers + [Answer(name, pwd, row == Some(pwd), s.now)])
            && (!hit && !a.Finish? ==> r.answers == s.answers)
  {
    hide AskedFor, Apply, Legal;
    AskedOn(s, past, a, delay);
    StepCounts(s, a, delay);
    StepSays(s, a, delay);
    if a.Finish? {
      AskerIs(s, past, a, delay);
    }
  }

  lemma AskerIs(s: State, past: seq<Action>, a: Action, delay: nat)
    requires AskedFor(s, past) && Legal(s, a, delay) && a.Finish?
    ensures a.thread in s.sessions && LastAsk(past, a.thread) == Some(Whose(s.sessions[a.thread]))
    ensures s.sessions[a.thread].Fetched?
  {}

  lemma AskedOn(s: State, past: seq<Action>, a: Action, delay: nat)
    requires AskedFor(s, past) && Legal(s, a, delay)
    ensures AskedFor(Apply(s, a), past + [a])
  {
    hide LastAsk, Row;
    LastAskNext(past, a);
  }

  /** The logins in progress after a step. */
  lemma StepSessions(s: State, a: Action, delay: nat)
    requires Legal(s, a, delay)
    ensures var r := Apply(s, a);
            || (r.sessions == s.sessions && |r.answers| == |s.answers| + if a.Ask? then 1 else 0)
            || (a.Ask? && a.thread !in s.sessions && r.answers == s.answers &&
                r.sessions == s.sessions[a.thread := Missed(a.name, a.pwd)])
            || (a.Fetch? && a.thread in s.sessions && r.answers == s.answers &&
                a.thread in r.sessions && r.sessions == s.sessions[a.thread := r.sessions[a.thread]])
            || (a.Finish? && a.thread in s.sessions && |r.answers| == |s.answers| + 1 &&
                r.sessions == s.sessions - {a.thread})
  {
    hide Row;
  }

  lemma StepCounts(s: State, a: Action, delay: nat)
    requires Legal(s, a, delay)
    ensures |Apply(s, a).answers| + |Apply(s, a).sessions| == |s.answers| + |s.sessions| + if a.Ask? then 1 else 0
  {
    hide Apply, Legal;
    StepSessions(s, a, delay);
    var r := Apply(s, a);
    if a.Ask? {
      OneSession(s.sessions, a.thread, Missed(a.name, a.pwd));
    } else if a.Finish? {
      OneSession(s.sessions, a.thread, Missed("", ""));
    } else if r.sessions != s.sessions {
      OneSession(s.sessions, a.thread, r.sessions[a.thread]);
    }
  }

  lemma StepSays(s: State, a: Action, delay: nat)
    requires Legal(s, a, delay)
    ensures var r, hit := Apply(s, a), a.Ask? && a.up && a.name in s.cache && s.now <= s.cache[a.name].expires;
            && (hit ==>
                  r.answers == s.answers + [Answer(a.name, a.pwd, s.cache[a.name].password == a.pwd, s.now)] &&
                  r.sessions == s.sessions)
            && (a.Finish? ==>
                  var f := s.sessions[a.thread];
                  r.answers == s.answers + [Answer(f.name, f.pwd, f.row == Some(f.pwd), s.now)])
            && (!hit && !a.Finish? ==> r.answers == s.answers)
  {
    hide Row;
  }

  lemma LastAskNext(past: seq<Action>, a: Action)
    ensures forall t :: LastAsk(past + [a], t) ==
                        if a.Ask? && a.thread == t then Some((a.name, a.pwd)) else LastAsk(past, t)
  {
    assert (past + [a])[..|past|] == past;
  }

  /** Over any run every login asked for is answered once or still in progress, and for the one who asked. */
  lemma {:induction false} EachAskAnswered(db: Table, past: seq<Action>, delay: nat)
    requires Run(Start(db), past, delay)
    ensures var s := Exec(Start(db), past); |s.answers| + |s.sessions| == AsksOf(past) && AskedFor(s, past)
    decreases |past|
  {
    hide Run, Exec, AskedFor, Legal, Apply, LastAsk;
    if past == [] {
      NobodyAsked(db);
    } else {
      var front, a := past[..|past| - 1], past[|past| - 1];
      assert past == front + [a];
      OneMore(Start(db), front, a, delay);
      EachAskAnswered(db, front, delay);
      StepAnswers(Exec(Start(db), front), front, a, delay);
    }
  }

  lemma NobodyAsked(db: Table)
    ensures Exec(Start(db), []) == Start(db) && AskedFor(Start(db), [])
    ensures Start(db).answers == [] && Start(db).sessions == map[]
  {}

  // ---------------------------------------------------------------- the method

  /** One `verify_login` with nothing in between: the clients of Redis and MySQL, and what they hold. */
  class LoginCache {
    var now: nat
    var past: seq<Moment>
    var cache: map<string, Entry>

    ghost function Now(): State
      reads this
    {
      State(now, past, cache, map[], [])
    }

    constructor (db: Table)
      ensures Now() == Start(db)
    {
      now, past, cache := 0, [Moment(0, db)], map[];
    }

    /** The answer and the new cache are those of the steps: a hit, or a query and its SETEX. */
    method VerifyLogin(name: string, pwd: string, up: bool) returns (ok: bool)
      requires past != []
      modifies this`cache
      ensures var asked := Apply(old(Now()), Ask(0, name, pwd, up));
              var end := if 0 in asked.sessions then Apply(Apply(asked, Fetch(0)), Finish(0, up)) else asked;
              end == Now().(answers := [Answer(name, pwd, ok, now)])
      ensures var hit := up && name in old(cache) && now <= old(cache)[name].expires;
              var db := past[|past| - 1].db;
              && ok == (if hit then old(cache)[name].password == pwd else name in db && db[name] == pwd)
              && cache == if !hit && ok && up then old(cache)[name := Entry(pwd, now + LIFE)] else old(cache)
    {
      hide Apply;
      OneLogin(Now(), name, pwd, up);
      if up && name in cache && now <= cache[name].expires {
        return cache[name].password == pwd;
      }
      ok := false;
      var db := past[|past| - 1].db;
      if name in db {
        if db[name] == pwd {
          ok := true;
          if up {
            cache := cache[name := Entry(db[name], now + LIFE)];
          }
        }
      }
    }
  }

  /** The three steps of one login with nothing in between. */
  lemma OneLogin(s: State, name: string, pwd: string, up: bool)
    requires s.sessions == map[] && s.answers == []
    ensures var asked := Apply(s, Ask(0, name, pwd, up));
            var ok := Check(Db(s), name, pwd);
            if up && Hit(s, name) then
              0 !in asked.sessions && asked == s.(answers := [Answer(name, pwd, s.cache[name].password == pwd, s.now)])
            else
              && 0 in asked.sessions
              && Apply(Apply(asked, Fetch(0)), Finish(0, up)) ==
                 s.(cache := if ok && up then s.cache[name := Entry(pwd, s.now + LIFE)] else s.cache,
                    answers := [Answer(name, pwd, ok, s.now)])
  {
    if !(up && Hit(s, name)) {
      var asked := Apply(s, Ask(0, name, pwd, up));
      assert asked.sessions == map[0 := Missed(name, pwd)];
      var fetched := Apply(asked, Fetch(0));
      assert fetched.sessions == map[0 := Fetched(name, pwd, Row(Db(s), name), s.now)];
      assert fetched.sessions - {0} == map[];
    }
  }
}
