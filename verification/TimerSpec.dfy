/**
What the timer of src/timer/lru_timer.cpp computes, on plain sequences: times are nanoseconds of the
clock, an entry is due once less than a whole millisecond is left (`duration_cast` truncates).
 */
module TimerSpec {

  const MS := 1_000_000

  /** `cb` identifies a callback. */
  datatype Entry = Entry(id: int, expires: int, cb: nat)

  /** `std::chrono::duration_cast<MS>(d).count()`: division that truncates toward zero. */
  function Millis(d: int): int {
    if d >= 0 then d / MS else -(-d / MS)
  }

  /** The test that keeps `tick`'s loop going. */
  predicate Due(e: Entry, now: int) {
    Millis(e.expires - now) <= 0
  }

  lemma DueMeans(e: Entry, now: int)
    ensures Due(e, now) <==> e.expires - now < MS
  {}

  function Position(l: seq<Entry>, id: int): (i: nat)
    ensures i <= |l|
    ensures i < |l| ==> l[i].id == id
    ensures forall j | 0 <= j < i :: l[j].id != id
  {
    if l == [] || l[0].id == id then 0 else 1 + Position(l[1..], id)
  }

  /** `add`: the entry of a live id leaves its place; the new deadline goes last. */
  function Added(l: seq<Entry>, id: int, expires: int, cb: nat): seq<Entry> {
    var i := Position(l, id);
    (if i < |l| then l[..i] + l[i + 1..] else l) + [Entry(id, expires, cb)]
  }

  /** A sequence with the i-th moved to the tail. */
  ghost function Moved<T>(s: seq<T>, i: nat): (r: seq<T>)
    requires i < |s|
    ensures |r| == |s|
    ensures forall k | 0 <= k < |s| :: r[k] == if k < i then s[k] else if k < |s| - 1 then s[k + 1] else s[i]
  {
    s[..i] + s[i + 1..] + [s[i]]
  }

  lemma AddedFound(l: seq<Entry>, id: int, expires: int, cb: nat, i: nat)
    requires i == Position(l, id) < |l|
    ensures Added(l, id, expires, cb) == Moved(l[i := Entry(id, expires, cb)], i)
  {}

  lemma AddedNew(l: seq<Entry>, id: int, expires: int, cb: nat)
    requires Position(l, id) == |l|
    ensures Added(l, id, expires, cb) == l + [Entry(id, expires, cb)]
  {}

  ghost predicate NonDecreasing(looks: seq<int>) {
    forall i, j | 0 <= i <= j < |looks| :: looks[i] <= looks[j]
  }

  /**
   What `tick` does with the clock values it reads, one per look at the head: the first `k` entries
   were due when looked at, and the next one, if any, was not.
   */
  ghost predicate Ticked(l: seq<Entry>, looks: seq<int>, k: nat) {
    && k <= |l| && |looks| == (if k < |l| then k + 1 else k)
    && (forall i | 0 <= i < k :: Due(l[i], looks[i]))
    && (k < |l| ==> !Due(l[k], looks[k]))
  }

  /** Clock reads made while the clock went from `from` to `now`, the last one giving `now`. */
  ghost predicate Looked(looks: seq<int>, from: int, now: int) {
    && NonDecreasing(looks)
    && (forall t | t in looks :: from <= t <= now)
    && now == if looks == [] then from else looks[|looks| - 1]
  }

  lemma LookedAgain(looks: seq<int>, from: int, now: int, t: int)
    requires Looked(looks, from, now) && now <= t
    ensures Looked(looks + [t], from, t)
  {
    var r := looks + [t];
    assert forall u | u in r :: u in looks || u == t;
    assert forall i | 0 <= i < |looks| :: looks[i] in looks;
    assert from <= now by {
      if looks != [] {
        assert looks[|looks| - 1] in looks;
      }
    }
  }

  /**
   `tick` part way: after `k` entries of `l`, each due at its look, what is left and what has fired
   since the tick began at `from`.
   */
  ghost predicate Ticking(l: seq<Entry>, looks: seq<int>, k: nat, left: seq<Entry>, done: seq<Entry>,
                          from: int, now: int) {
    && k == |looks| <= |l| && left == l[k..] && done == l[..k] && Looked(looks, from, now)
    && forall i | 0 <= i < k :: Due(l[i], looks[i])
  }

  lemma TickingStarts(l: seq<Entry>, now: int)
    ensures Ticking(l, [], 0, l, [], now, now)
  {}

  lemma TickingNext(l: seq<Entry>, looks: seq<int>, k: nat, left: seq<Entry>, done: seq<Entry>, from: int,
                    now: int, t: int)
    requires Ticking(l, looks, k, left, done, from, now) && left != [] && now <= t
    ensures Due(left[0], t) ==> Ticking(l, looks + [t], k + 1, left[1..], done + [left[0]], from, t)
    ensures !Due(left[0], t) ==> Ticked(l, looks + [t], k) && Looked(looks + [t], from, t)
    ensures k <= |l| && left == l[k..] && done == l[..k]
  {
    hide Due, Looked;
    LookedAgain(looks, from, now, t);
  }

  lemma TickingAll(l: seq<Entry>, looks: seq<int>, k: nat, left: seq<Entry>, done: seq<Entry>, from: int, now: int)
    requires Ticking(l, looks, k, left, done, from, now) && left == []
    ensures Ticked(l, looks, k) && Looked(looks, from, now) && k <= |l| && left == l[k..] && done == l[..k]
  {}

  // ---------------------------------------------------------------- a scan of the head only

  ghost predicate Sorted(l: seq<Entry>) {
    forall i, j | 0 <= i < j < |l| :: l[i].expires <= l[j].expires
  }

  ghost predicate UniqueIds(l: seq<Entry>) {
    forall i, j | 0 <= i < j < |l| :: l[i].id != l[j].id
  }

  /**
   On a sorted list the scan is complete: what fired had less than 1 ms left, at its own clock read
   and at the last one; what stays had at least 1 ms left at the last one.
   */
  lemma HeadOnlyComplete(l: seq<Entry>, looks: seq<int>, k: nat)
    requires Sorted(l) && NonDecreasing(looks) && Ticked(l, looks, k) && l != []
    ensures looks != []
    ensures forall i | 0 <= i < k :: l[i].expires - looks[i] < MS && l[i].expires - looks[|looks| - 1] < MS
    ensures forall i | k <= i < |l| :: l[i].expires - looks[|looks| - 1] >= MS
  {}

  /** What a scan that stops at the first entry not due leaves behind, on a clock standing still. */
  function LeftBehind(l: seq<Entry>, now: int): seq<Entry> {
    if l != [] && Due(l[0], now) then LeftBehind(l[1..], now) else l
  }

  /** On any list, nothing due is left behind exactly when nothing due stands behind an entry that is not. */
  lemma {:induction false} HeadOnlyExact(l: seq<Entry>, now: int)
    ensures (forall e | e in LeftBehind(l, now) :: !Due(e, now)) <==>
            (forall i, j | 0 <= i < j < |l| :: Due(l[j], now) ==> Due(l[i], now))
  {
    hide Due;
    if l != [] {
      if Due(l[0], now) {
        HeadOnlyExact(l[1..], now);
        assert forall i, j | 0 < i < j < |l| :: l[i] == l[1..][i - 1] && l[j] == l[1..][j - 1];
        assert forall i | 0 <= i < |l[1..]| :: l[1..][i] == l[i + 1];
      } else {
        assert LeftBehind(l, now) == l;
        assert forall e | e in l :: exists j :: 0 <= j < |l| && l[j] == e;
      }
    }
  }

  /** With two timeouts the head can hide a due entry: id 1 gets 20 s, then id 2 gets 10 s, a look after 15 s. */
  lemma TwoTimeoutsHideDueEntry()
    ensures var l := Added(Added([], 1, 20_000 * MS, 0), 2, 10_000 * MS, 0);
            Ticked(l, [15_000 * MS], 0) && Due(l[1], 15_000 * MS)
  {}

  // ---------------------------------------------------------------- the list stands for a map

  ghost predicate HasEntry(l: seq<Entry>, id: int) {
    exists i :: 0 <= i < |l| && l[i].id == id
  }

  /** The list holds one entry for each key of the map of deadlines, with the deadline the map gives. */
  ghost predicate StandsFor(l: seq<Entry>, m: map<int, int>) {
    && UniqueIds(l)
    && (forall i | 0 <= i < |l| :: l[i].id in m && m[l[i].id] == l[i].expires)
    && (forall id | id in m :: HasEntry(l, id))
  }

  /** Where the entries of the list go: one leaves its place, a new one stands at the end. */
  lemma AddedShape(l: seq<Entry>, id: int, expires: int, cb: nat)
    ensures var r, p := Added(l, id, expires, cb), Position(l, id);
            && |r| == (if p < |l| then |l| else |l| + 1)
            && r[|r| - 1] == Entry(id, expires, cb)
            && forall i {:trigger r[i]} | 0 <= i < |r| - 1 :: r[i] == if i < p then l[i] else l[i + 1]
  {
    hide Position;
  }

  lemma PositionHas(l: seq<Entry>, id: int)
    ensures Position(l, id) < |l| ==> l[Position(l, id)].id == id
  {}

  lemma OthersKeepIds(l: seq<Entry>, id: int, i: nat)
    requires UniqueIds(l) && i < |l| && i != Position(l, id)
    ensures l[i].id != id
  {}

  lemma AddedEntries(l: seq<Entry>, id: int, expires: int, cb: nat)
    requires UniqueIds(l)
    ensures var r, p := Added(l, id, expires, cb), Position(l, id);
            && |r| == (if p < |l| then |l| else |l| + 1)
            && r[|r| - 1] == Entry(id, expires, cb)
            && forall i {:trigger r[i]} | 0 <= i < |r| - 1 ::
                 (r[i] == if i < p then l[i] else l[i + 1]) && r[i].id != id
  {
    hide Added, Position, UniqueIds;
    AddedShape(l, id, expires, cb);
    var r, p := Added(l, id, expires, cb), Position(l, id);
    forall i | 0 <= i < |r| - 1 ensures r[i].id != id {
      OthersKeepIds(l, id, if i < p then i else i + 1);
    }
  }

  lemma AddedUnique(l: seq<Entry>, id: int, expires: int, cb: nat)
    requires UniqueIds(l)
    ensures UniqueIds(Added(l, id, expires, cb))
  {}

  lemma AddedKeys(l: seq<Entry>, id: int, expires: int, cb: nat, d: int)
    requires UniqueIds(l) && (d == id || HasEntry(l, d))
    ensures HasEntry(Added(l, id, expires, cb), d)
  {
    hide Added, UniqueIds, Position;
    var p, r := Position(l, id), Added(l, id, expires, cb);
    AddedEntries(l, id, expires, cb);
    if d == id {
      assert r[|r| - 1].id == d;
    } else {
      var i :| 0 <= i < |l| && l[i].id == d;
      PositionHas(l, id);
      assert r[if i < p then i else i - 1].id == d;
    }
  }

  /** `add` sets one deadline and touches no other; the entry goes last, the others keep their order. */
  lemma AddedIsUpdate(l: seq<Entry>, m: map<int, int>, id: int, expires: int, cb: nat)
    requires StandsFor(l, m)
    ensures StandsFor(Added(l, id, expires, cb), m[id := expires])
  {
    hide Added, Position, UniqueIds, HasEntry;
    var p, r := Position(l, id), Added(l, id, expires, cb);
    AddedEntries(l, id, expires, cb);
    AddedUnique(l, id, expires, cb);
    forall i | 0 <= i < |r| - 1 ensures r[i].id in m && m[r[i].id] == r[i].expires && r[i].id != id {
      var e := if i < p then l[i] else l[i + 1];
      assert r[i] == e;
    }
    forall d | d in m[id := expires] ensures HasEntry(r, d) {
      AddedKeys(l, id, expires, cb, d);
    }
  }

  /** `tick` on a sorted list is a filter of the map: exactly the ids with less than 1 ms left at the last look go. */
  lemma TickedIsFilter(l: seq<Entry>, m: map<int, int>, looks: seq<int>, k: nat)
    requires StandsFor(l, m) && Sorted(l) && NonDecreasing(looks) && Ticked(l, looks, k) && l != []
    ensures looks != []
    ensures StandsFor(l[k..], map id | id in m && m[id] - looks[|looks| - 1] >= MS :: m[id])
  {}

  // ---------------------------------------------------------------- runs with one timeout

  /** One callback made: the clock at the id's last `add`, and at the look that found it due. */
  datatype Firing = Firing(id: int, addedAt: int, firedAt: int)

  /** The timer with its history: the clock, the last time each id was added, and what fired. */
  datatype State = State(list: seq<Entry>, now: int, lastAdd: map<int, int>, fired: seq<Firing>)

  datatype Action =
    | Add(id: int, at: int, cb: nat)        // add, whose clock read gives `at`
    | Tick(looks: seq<int>, fires: nat)

  const INIT := State([], 0, map[], [])

  /** The clock never goes backwards. */
  ghost predicate Enabled(s: State, a: Action) {
    match a
    case Add(id, at, _) => 0 <= id < 65536 && s.now <= at
    case Tick(looks, fires) =>
      NonDecreasing(looks) && Ticked(s.list, looks, fires) && forall t | t in looks :: s.now <= t
  }

  function AddedAt(s: State, id: int): int {
    if id in s.lastAdd then s.lastAdd[id] else 0
  }

  ghost function Apply(s: State, a: Action, timeout: int): State
    requires Enabled(s, a)
  {
    match a
    case Add(id, at, cb) =>
      State(Added(s.list, id, at + timeout * MS, cb), at, s.lastAdd[id := at], s.fired)
    case Tick(looks, k) =>
      State(s.list[k..], if looks == [] then s.now else looks[|looks| - 1], s.lastAdd,
            s.fired + seq(k, i requires 0 <= i < k => Firing(s.list[i].id, AddedAt(s, s.list[i].id), looks[i])))
  }

  ghost predicate Legal(s: State, run: seq<Action>, timeout: int)
    decreases |run|
  {
    run == [] || (Enabled(s, run[0]) && Legal(Apply(s, run[0], timeout), run[1..], timeout))
  }

  ghost function Exec(s: State, run: seq<Action>, timeout: int): State
    requires Legal(s, run, timeout)
    decreases |run|
  {
    if run == [] then s else Exec(Apply(s, run[0], timeout), run[1..], timeout)
  }

  /** Sorted, one entry an id, each deadline one timeout after the id's last `add`, and nothing fired early. */
  ghost predicate Inv(s: State, timeout: int) {
    && Sorted(s.list) && UniqueIds(s.list) && FromLastAdd(s, timeout) && NoneEarly(s, timeout)
    && (forall id | id in s.lastAdd :: s.lastAdd[id] <= s.now)
  }

  ghost predicate FromLastAdd(s: State, timeout: int) {
    forall i | 0 <= i < |s.list| ::
      s.list[i].id in s.lastAdd && s.list[i].expires == s.lastAdd[s.list[i].id] + timeout * MS
  }

  ghost predicate NoneEarly(s: State, timeout: int) {
    forall f | f in s.fired :: f.firedAt - f.addedAt > timeout * MS - MS
  }

  lemma AddedSorted(l: seq<Entry>, id: int, expires: int, cb: nat)
    requires Sorted(l) && UniqueIds(l) && forall i | 0 <= i < |l| :: l[i].expires <= expires
    ensures Sorted(Added(l, id, expires, cb))
  {
    hide Added, Position, UniqueIds;
    var r, p := Added(l, id, expires, cb), Position(l, id);
    AddedEntries(l, id, expires, cb);
    forall i, j | 0 <= i < j < |r| ensures r[i].expires <= r[j].expires {
      if j < |r| - 1 {
        assert r[i] == (if i < p then l[i] else l[i + 1]) && r[j] == if j < p then l[j] else l[j + 1];
      }
    }
  }

  lemma AddFromLastAdd(s: State, a: Action, timeout: int)
    requires FromLastAdd(s, timeout) && UniqueIds(s.list) && a.Add? && Enabled(s, a)
    ensures FromLastAdd(Apply(s, a, timeout), timeout)
  {
    hide Added, UniqueIds, Position;
    var r := Apply(s, a, timeout);
    AddedEntries(s.list, a.id, a.at + timeout * MS, a.cb);
    forall i | 0 <= i < |r.list| - 1
      ensures r.list[i].id in r.lastAdd && r.list[i].expires == r.lastAdd[r.list[i].id] + timeout * MS
    {
      var e := if i < Position(s.list, a.id) then s.list[i] else s.list[i + 1];
      assert r.list[i] == e && e.id in s.lastAdd;
    }
  }

  lemma NoneLater(s: State, a: Action, timeout: int)
    requires FromLastAdd(s, timeout) && a.Add? && s.now <= a.at && forall id | id in s.lastAdd :: s.lastAdd[id] <= s.now
    ensures forall i | 0 <= i < |s.list| :: s.list[i].expires <= a.at + timeout * MS
  {}

  lemma AddKeepsInv(s: State, a: Action, timeout: int)
    requires Inv(s, timeout) && a.Add? && Enabled(s, a)
    ensures Inv(Apply(s, a, timeout), timeout)
  {
    hide Added, Sorted, UniqueIds, Position, FromLastAdd;
    var expires := a.at + timeout * MS;
    NoneLater(s, a, timeout);
    AddedUnique(s.list, a.id, expires, a.cb);
    AddedSorted(s.list, a.id, expires, a.cb);
    AddFromLastAdd(s, a, timeout);
  }

  lemma TickNoneEarly(s: State, a: Action, timeout: int)
    requires FromLastAdd(s, timeout) && NoneEarly(s, timeout) && a.Tick? && Enabled(s, a)
    ensures NoneEarly(Apply(s, a, timeout), timeout)
  {}

  lemma TickKeepsInv(s: State, a: Action, timeout: int)
    requires Inv(s, timeout) && a.Tick? && Enabled(s, a)
    ensures Inv(Apply(s, a, timeout), timeout)
  {
    TickNoneEarly(s, a, timeout);
    hide NoneEarly;
    var r := Apply(s, a, timeout);
    assert forall i | 0 <= i < |r.list| :: r.list[i] == s.list[a.fires + i];
    assert a.looks != [] ==> a.looks[|a.looks| - 1] in a.looks;
  }

  lemma {:induction false} RunKeepsInv(s: State, run: seq<Action>, timeout: int)
    requires Inv(s, timeout) && Legal(s, run, timeout)
    ensures Inv(Exec(s, run, timeout), timeout)
    decreases |run|
  {
    hide Inv, Enabled, Apply;
    if run != [] {
      if run[0].Add? {
        AddKeepsInv(s, run[0], timeout);
      } else {
        TickKeepsInv(s, run[0], timeout);
      }
      RunKeepsInv(Apply(s, run[0], timeout), run[1..], timeout);
    }
  }

  // ---------------------------------------------------------------- whole runs

  /** The same action on a plain map from id to deadline. */
  ghost function MapApply(m: map<int, int>, a: Action, timeout: int): map<int, int> {
    match a
    case Add(id, at, _) => m[id := at + timeout * MS]
    case Tick(looks, _) =>
      if looks == [] then m else map id | id in m && m[id] - looks[|looks| - 1] >= MS :: m[id]
  }

  ghost function MapExec(m: map<int, int>, run: seq<Action>, timeout: int): map<int, int>
    decreases |run|
  {
    if run == [] then m else MapExec(MapApply(m, run[0], timeout), run[1..], timeout)
  }

  lemma StepRefinesMap(s: State, m: map<int, int>, a: Action, timeout: int)
    requires Sorted(s.list) && StandsFor(s.list, m) && Enabled(s, a)
    ensures StandsFor(Apply(s, a, timeout).list, MapApply(m, a, timeout))
  {
    hide StandsFor, Sorted, Added, NonDecreasing, Due;
    match a
    case Add(id, at, cb) => AddedIsUpdate(s.list, m, id, at + timeout * MS, cb);
    case Tick(looks, fires) =>
      if s.list != [] {
        TickedIsFilter(s.list, m, looks, fires);
      } else {
        assert s.list[fires..] == [];
      }
  }

  lemma {:induction false} RunRefinesMap(s: State, m: map<int, int>, run: seq<Action>, timeout: int)
    requires Inv(s, timeout) && StandsFor(s.list, m) && Legal(s, run, timeout)
    ensures StandsFor(Exec(s, run, timeout).list, MapExec(m, run, timeout))
    decreases |run|
  {
    if run != [] {
      StepRefinesMap(s, m, run[0], timeout);
      assert Inv(Apply(s, run[0], timeout), timeout) by {
        if run[0].Add? { AddKeepsInv(s, run[0], timeout); } else { TickKeepsInv(s, run[0], timeout); }
      }
      hide Inv, Apply, Enabled, StandsFor, MapApply;
      RunRefinesMap(Apply(s, run[0], timeout), MapApply(m, run[0], timeout), run[1..], timeout);
    }
  }

  /**
   Any run of `add` and `tick` with one timeout and a clock that never goes backwards: the list stands
   for the map that the same run makes of a plain map of deadlines, where a tick removes exactly the
   ids with less than 1 ms left; it is sorted by deadline; and an id fires only if it was not added
   again during the timeout minus 1 ms before.
   */
  lemma TimerRefinesMap(run: seq<Action>, timeout: int)
    requires Legal(INIT, run, timeout)
    ensures var s := Exec(INIT, run, timeout);
            && StandsFor(s.list, MapExec(map[], run, timeout))
            && Sorted(s.list)
            && forall f | f in s.fired :: f.firedAt - f.addedAt > timeout * MS - MS
  {
    RunKeepsInv(INIT, run, timeout);
    RunRefinesMap(INIT, map[], run, timeout);
  }

  // ---------------------------------------------------------------- who fires

  /** When each id was last added, from the calls alone. */
  function LastAdds(m: map<int, int>, run: seq<Action>): map<int, int>
    decreases |run|
  {
    if run == [] then m else LastAdds(if run[0].Add? then m[run[0].id := run[0].at] else m, run[1..])
  }

  /** The callback of the id's last `add` has been made. */
  ghost predicate FiredFor(s: State, id: int) {
    id in s.lastAdd && exists f | f in s.fired :: f.id == id && f.addedAt == s.lastAdd[id]
  }

  /** Each id that was added is listed, or its callback has been made, and not both. */
  ghost predicate EachOnce(s: State) {
    && (forall id | id in s.lastAdd :: HasEntry(s.list, id) <==> !FiredFor(s, id))
    && (forall f | f in s.fired :: f.id in s.lastAdd && f.addedAt <= s.lastAdd[f.id] && f.addedAt < f.firedAt <= s.now)
  }

  lemma AddFiresNobody(s: State, a: Action, timeout: int)
    requires Inv(s, timeout) && EachOnce(s) && a.Add? && Enabled(s, a)
    ensures EachOnce(Apply(s, a, timeout))
  {
    hide Added, Position, Sorted, FromLastAdd, NoneEarly, HasEntry;
    var r := Apply(s, a, timeout);
    forall id | id in r.lastAdd ensures HasEntry(r.list, id) <==> !FiredFor(r, id) {
      if id == a.id {
        AddedKeys(s.list, a.id, a.at + timeout * MS, a.cb, id);
      } else {
        OtherEntries(s.list, a.id, a.at + timeout * MS, a.cb, id);
        assert FiredFor(r, id) <==> FiredFor(s, id);
      }
    }
  }

  lemma OtherEntries(l: seq<Entry>, id: int, expires: int, cb: nat, d: int)
    requires UniqueIds(l) && d != id
    ensures HasEntry(Added(l, id, expires, cb), d) <==> HasEntry(l, d)
  {
    hide Added, UniqueIds, Position;
    var p, r := Position(l, id), Added(l, id, expires, cb);
    AddedEntries(l, id, expires, cb);
    if HasEntry(l, d) {
      AddedKeys(l, id, expires, cb, d);
    }
    if HasEntry(r, d) {
      var i :| 0 <= i < |r| && r[i].id == d;
      assert (if i < p then l[i] else l[i + 1]).id == d;
    }
  }

  /** What a tick adds to the history. */
  lemma TickFires(s: State, a: Action, timeout: int, i: nat)
    requires FromLastAdd(s, timeout) && a.Tick? && Enabled(s, a) && i < a.fires
    ensures s.list[i].id in s.lastAdd
    ensures Firing(s.list[i].id, s.lastAdd[s.list[i].id], a.looks[i]) in Apply(s, a, timeout).fired
  {
    var r := Apply(s, a, timeout);
    assert r.fired[|s.fired| + i] == Firing(s.list[i].id, s.lastAdd[s.list[i].id], a.looks[i]);
  }

  lemma FiredIs(s: State, a: Action, timeout: int, f: Firing)
    requires FromLastAdd(s, timeout) && a.Tick? && Enabled(s, a) && f in Apply(s, a, timeout).fired
    ensures f in s.fired ||
            exists i :: 0 <= i < a.fires && s.list[i].id in s.lastAdd && Due(s.list[i], a.looks[i]) &&
                        f == Firing(s.list[i].id, s.lastAdd[s.list[i].id], a.looks[i])
  {
    var r := Apply(s, a, timeout);
    var j :| 0 <= j < |r.fired| && r.fired[j] == f;
    if j >= |s.fired| {
      var i := j - |s.fired|;
      assert f == Firing(s.list[i].id, s.lastAdd[s.list[i].id], a.looks[i]);
    } else {
      assert f == s.fired[j];
    }
  }

  lemma TickRemoves(l: seq<Entry>, k: nat, id: int)
    requires UniqueIds(l) && k <= |l|
    ensures HasEntry(l[k..], id) <==> HasEntry(l, id) && forall i | 0 <= i < k :: l[i].id != id
  {
    if HasEntry(l, id) {
      var i :| 0 <= i < |l| && l[i].id == id;
      assert i >= k ==> l[k..][i - k].id == id;
    }
    if HasEntry(l[k..], id) {
      var i :| 0 <= i < |l[k..]| && l[k..][i].id == id;
      assert l[k + i].id == id;
    }
  }

  lemma TickFiresEach(s: State, a: Action, timeout: int)
    requires Inv(s, timeout) && EachOnce(s) && a.Tick? && Enabled(s, a) && timeout >= 1
    ensures EachOnce(Apply(s, a, timeout))
  {
    hide Sorted, NoneEarly, HasEntry;
    var r := Apply(s, a, timeout);
    TickClock(s, a, timeout);
    forall f | f in r.fired
      ensures f.id in r.lastAdd && f.addedAt <= r.lastAdd[f.id] && f.addedAt < f.firedAt <= r.now
    {
      FiredIs(s, a, timeout, f);
      if f !in s.fired {
        var i :| 0 <= i < a.fires && s.list[i].id in s.lastAdd && Due(s.list[i], a.looks[i]) &&
                 f == Firing(s.list[i].id, s.lastAdd[s.list[i].id], a.looks[i]);
        DueMeans(s.list[i], a.looks[i]);
      }
    }
    forall id | id in r.lastAdd ensures HasEntry(r.list, id) <==> !FiredFor(r, id) {
      TickRemoves(s.list, a.fires, id);
      TickFiresOne(s, a, timeout, id);
    }
  }

  lemma TickClock(s: State, a: Action, timeout: int)
    requires a.Tick? && Enabled(s, a)
    ensures s.now <= Apply(s, a, timeout).now && forall i | 0 <= i < |a.looks| :: a.looks[i] <= Apply(s, a, timeout).now
    ensures a.fires <= |a.looks| && a.fires <= |s.list|
  {
    assert a.looks != [] ==> a.looks[|a.looks| - 1] in a.looks;
  }

  lemma TickFiresOne(s: State, a: Action, timeout: int, id: int)
    requires FromLastAdd(s, timeout) && a.Tick? && Enabled(s, a) && id in s.lastAdd
    ensures FiredFor(Apply(s, a, timeout), id) <==>
              FiredFor(s, id) || exists i :: 0 <= i < a.fires && s.list[i].id == id
  {
    hide Due, Millis;
    var r := Apply(s, a, timeout);
    if FiredFor(r, id) && !FiredFor(s, id) {
      var f :| f in r.fired && f.id == id && f.addedAt == r.lastAdd[id];
      FiredIs(s, a, timeout, f);
    }
    if FiredFor(s, id) {
      var f :| f in s.fired && f.id == id && f.addedAt == s.lastAdd[id];
      assert f in r.fired;
    }
    if i :| 0 <= i < a.fires && s.list[i].id == id {
      TickFires(s, a, timeout, i);
    }
  }

  lemma {:induction false} RunFiresEach(s: State, run: seq<Action>, timeout: int)
    requires Inv(s, timeout) && EachOnce(s) && Legal(s, run, timeout) && timeout >= 1
    ensures EachOnce(Exec(s, run, timeout)) && Exec(s, run, timeout).lastAdd == LastAdds(s.lastAdd, run)
    decreases |run|
  {
    hide Inv, Enabled, EachOnce;
    if run != [] {
      if run[0].Add? {
        AddFiresNobody(s, run[0], timeout);
        AddKeepsInv(s, run[0], timeout);
      } else {
        TickFiresEach(s, run[0], timeout);
        TickKeepsInv(s, run[0], timeout);
      }
      RunFiresEach(Apply(s, run[0], timeout), run[1..], timeout);
    }
  }

  /**
   Over any run with a timeout of a millisecond or more: an id that was added is listed if and only if the callback
   of its last `add` has not been made, so none is lost and none is made before the entry goes; every callback is for
   an `add` and comes after it.
   */
  lemma EveryAddFires(run: seq<Action>, timeout: int)
    requires Legal(INIT, run, timeout) && timeout >= 1
    ensures var s, adds := Exec(INIT, run, timeout), LastAdds(map[], run);
            && (forall id | id in adds ::
                  HasEntry(s.list, id) <==> !exists f | f in s.fired :: f.id == id && f.addedAt == adds[id])
            && (forall f | f in s.fired :: f.id in adds && f.addedAt <= adds[f.id] && f.addedAt < f.firedAt <= s.now)
  {
    hide Legal, Exec, HasEntry;
    RunFiresEach(INIT, run, timeout);
  }

  // ---------------------------------------------------------------- how long to sleep

  /** What `getNextTick` returns after its own tick, with `now` its last clock read. */
  function SleepFor(l: seq<Entry>, now: int): int {
    if l == [] then -1
    else if Millis(l[0].expires - now) < 0 then 0
    else Millis(l[0].expires - now)
  }

  lemma SleepForHead(l: seq<Entry>, e: Entry, now: int)
    requires l != [] && l[0] == e
    ensures SleepFor(l, now) == if Millis(e.expires - now) < 0 then 0 else Millis(e.expires - now)
  {
    hide Millis;
  }

  lemma SleepForNone(l: seq<Entry>, now: int)
    requires l == []
    ensures SleepFor(l, now) == -1
  {
    hide Millis;
  }

  /** The sleep ends in the millisecond in which the head becomes due, and is -1 exactly when there is no timer. */
  lemma SleepIsExact(l: seq<Entry>, now: int, later: int)
    ensures SleepFor(l, now) == -1 <==> l == []
    ensures l != [] && later >= now + SleepFor(l, now) * MS ==> Due(l[0], later)
    ensures l != [] && later <= now + (SleepFor(l, now) - 1) * MS && SleepFor(l, now) > 0 ==> !Due(l[0], later)
  {}
}
