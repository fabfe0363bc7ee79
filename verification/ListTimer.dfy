/**
The timer of src/timer/lru_timer.cpp in its own shape: a circular doubly linked list with a sentinel,
as `std::list` keeps it, and an array of node positions indexed by descriptor. `repr` and `Repr` are
the nodes that a list may use.
 */
module ListTimers {
  import opened TimerSpec

  /** The clock: each read gives a value no smaller than the one before. */
  class Clock {
    var now: int

    method Now() returns (t: int)
      modifies this
      ensures t == now && old(now) <= now
    {
      var passed: int := *;
      if passed > 0 {
        now := now + passed;
      }
      t := now;
    }
  }

  class Node {
    var id: int
    var expires: int
    var cb: nat
    var prev: Node
    var next: Node

    constructor (id: int, expires: int, cb: nat)
      ensures this.id == id && this.expires == expires && this.cb == cb
    {
      this.id, this.expires, this.cb := id, expires, cb;
      prev, next := this, this;
    }

    /** The empty list: a sentinel linked to itself. */
    constructor Sentinel()
      ensures Ring(this, [], {this})
    {
      id, expires, cb := -1, 0, 0;
      prev, next := this, this;
    }

    ghost function ToEntry(): Entry
      reads `id, `expires, `cb
    {
      Entry(id, expires, cb)
    }
  }

  // ---------------------------------------------------------------- the ring

  /** The i-th node on the way round, the sentinel being number 0 and number |nodes| + 1. */
  ghost function Cell(end: Node, nodes: seq<Node>, i: int): Node {
    if 0 < i <= |nodes| then nodes[i - 1] else end
  }

  ghost predicate Distinct(nodes: seq<Node>) {
    forall i, j | 0 <= i < j < |nodes| :: nodes[i] != nodes[j]
  }

  ghost predicate Among(end: Node, nodes: seq<Node>, repr: set<Node>) {
    end in repr && forall i | 0 <= i < |nodes| :: nodes[i] in repr
  }

  /** From the sentinel, `next` visits `nodes` in order and comes back, and `prev` undoes `next`. */
  ghost predicate Ring(end: Node, nodes: seq<Node>, repr: set<Node>)
    reads repr`next, repr`prev
  {
    && end !in nodes && Distinct(nodes) && Among(end, nodes, repr)
    && forall i | 0 <= i <= |nodes| ::
         && Cell(end, nodes, i).next == Cell(end, nodes, i + 1)
         && Cell(end, nodes, i + 1).prev == Cell(end, nodes, i)
  }

  /** The nodes hold the entries. */
  ghost predicate Shows(nodes: seq<Node>, list: seq<Entry>, repr: set<Node>)
    reads repr`id, repr`expires, repr`cb
  {
    |nodes| == |list| && forall i | 0 <= i < |nodes| :: nodes[i] in repr && nodes[i].ToEntry() == list[i]
  }

  lemma CellsDiffer(end: Node, nodes: seq<Node>, k: nat, i: nat)
    requires end !in nodes && Distinct(nodes) && k <= |nodes| && i <= |nodes|
    ensures Cell(end, nodes, k) == Cell(end, nodes, i) <==> k == i
    ensures Cell(end, nodes, k + 1) == Cell(end, nodes, i + 1) <==> k == i
  {}

  /** Takes the i-th node out of the ring. */
  method Unlink(end: Node, n: Node, ghost nodes: seq<Node>, ghost i: nat, ghost repr: set<Node>)
    requires Ring(end, nodes, repr) && i < |nodes| && n == nodes[i]
    modifies repr`next, repr`prev
    ensures Ring(end, nodes[..i] + nodes[i + 1..], repr)
  {
    ghost var r := nodes[..i] + nodes[i + 1..];
    assert Cell(end, nodes, i + 1) == n;
    assert n.prev == Cell(end, nodes, i) && n.next == Cell(end, nodes, i + 2);
    n.prev.next := n.next;
    n.next.prev := n.prev;
    assert forall k :: Cell(end, r, k) == if k <= i then Cell(end, nodes, k) else Cell(end, nodes, k + 1);
    forall k | 0 <= k <= |r|
      ensures Cell(end, r, k).next == Cell(end, r, k + 1) && Cell(end, r, k + 1).prev == Cell(end, r, k)
    {
      CellsDiffer(end, nodes, if k <= i then k else k + 1, i);
    }
  }

  /** Puts a node in front of the sentinel: at the tail. */
  method LinkLast(end: Node, n: Node, ghost nodes: seq<Node>, ghost repr: set<Node>)
    requires Ring(end, nodes, repr) && n !in nodes && n != end && n in repr
    modifies repr`next, repr`prev
    ensures Ring(end, nodes + [n], repr)
  {
    ghost var r := nodes + [n];
    assert Cell(end, nodes, |nodes| + 1) == end && end.prev == Cell(end, nodes, |nodes|);
    n.prev := end.prev;
    n.next := end;
    end.prev.next := n;
    end.prev := n;
    assert forall k | k <= |nodes| :: Cell(end, r, k) == Cell(end, nodes, k);
  }

  /** `nodes_.splice(nodes_.end(), nodes_, it)`. */
  method Splice(end: Node, it: Node, ghost nodes: seq<Node>, ghost i: nat, ghost repr: set<Node>)
    requires Ring(end, nodes, repr) && i < |nodes| && nodes[i] == it
    modifies repr`next, repr`prev
    ensures Ring(end, Moved(nodes, i), repr)
  {
    ghost var rest := nodes[..i] + nodes[i + 1..];
    assert Moved(nodes, i) == rest + [it];
    assert it !in rest && it != end && it in repr;
    hide Ring;
    Unlink(end, it, nodes, i, repr);
    LinkLast(end, it, rest, repr);
  }

  /** The list part of `pop_front`. */
  method UnlinkFirst(end: Node, n: Node, ghost nodes: seq<Node>, ghost repr: set<Node>)
    requires Ring(end, nodes, repr) && nodes != [] && n == nodes[0]
    modifies repr`next, repr`prev
    ensures Ring(end, nodes[1..], repr)
  {
    assert nodes[..0] + nodes[1..] == nodes[1..];
    hide Ring;
    Unlink(end, n, nodes, 0, repr);
  }

  // ---------------------------------------------------------------- the index

  const SLOTS := 65536

  /** `ref_[id]` is the node that holds `id`, or the sentinel when no node does. */
  ghost predicate Indexed(end: Node, nodes: seq<Node>, slots: array<Node>, repr: set<Node>)
    reads repr`id, slots
  {
    && slots.Length == SLOTS && Among(end, nodes, repr)
    && (forall id | 0 <= id < SLOTS ::
          slots[id] == end || (slots[id] in nodes && slots[id] in repr && slots[id].id == id))
    && (forall i | 0 <= i < |nodes| :: 0 <= nodes[i].id < SLOTS && slots[nodes[i].id] == nodes[i])
  }

  /** A descriptor's slot says whether, and where, the list has an entry for it. */
  lemma SlotInRange(end: Node, nodes: seq<Node>, slots: array<Node>, id: int, repr: set<Node>)
    requires Indexed(end, nodes, slots, repr) && 0 <= id < SLOTS
    ensures id < slots.Length
  {}

  lemma IndexedPosition(end: Node, nodes: seq<Node>, slots: array<Node>, list: seq<Entry>, id: int, repr: set<Node>)
    requires Ring(end, nodes, repr) && Indexed(end, nodes, slots, repr) && Shows(nodes, list, repr) && 0 <= id < SLOTS
    ensures UniqueIds(list) && |list| == |nodes|
    ensures slots[id] == end <==> Position(list, id) == |list|
    ensures slots[id] != end <==> Position(list, id) < |list| && nodes[Position(list, id)] == slots[id]
    ensures slots[id] != end ==> slots[id] in repr && slots[id].id == id
  {}

  lemma MovedIsIndexed(end: Node, nodes: seq<Node>, slots: array<Node>, i: nat, repr: set<Node>)
    requires Indexed(end, nodes, slots, repr) && i < |nodes|
    ensures Indexed(end, Moved(nodes, i), slots, repr)
  {}

  lemma MovedShows(nodes: seq<Node>, list: seq<Entry>, i: nat, repr: set<Node>)
    requires Shows(nodes, list, repr) && i < |nodes|
    ensures Shows(Moved(nodes, i), Moved(list, i), repr)
  {}

  /** Writing the i-th node's deadline and callback. */
  method Write(it: Node, ghost nodes: seq<Node>, ghost list: seq<Entry>, ghost i: nat, expires: int, cb: nat,
               ghost repr: set<Node>)
    requires Distinct(nodes) && Shows(nodes, list, repr) && i < |nodes| && nodes[i] == it
    modifies it`expires, it`cb
    ensures Shows(nodes, list[i := Entry(it.id, expires, cb)], repr)
  {
    it.expires := expires;
    it.cb := cb;
    assert forall k | 0 <= k < |nodes| && k != i :: nodes[k] != it;
  }

  /** `ref_[head.id] = nodes_.end()`. */
  method ForgetHead(end: Node, head: Node, ghost nodes: seq<Node>, slots: array<Node>, ghost repr: set<Node>)
    requires Distinct(nodes) && Indexed(end, nodes, slots, repr) && nodes != [] && nodes[0] == head
    modifies slots
    ensures Indexed(end, nodes[1..], slots, repr)
  {
    slots[head.id] := end;
    assert forall i | 1 <= i < |nodes| :: nodes[1..][i - 1] == nodes[i];
  }

  lemma ShowsRest(nodes: seq<Node>, list: seq<Entry>, repr: set<Node>)
    requires Shows(nodes, list, repr) && list != []
    ensures Shows(nodes[1..], list[1..], repr)
  {}

  /** `ref_[id] = --nodes_.end()`, for a node that is new. */
  method Remember(end: Node, n: Node, ghost nodes: seq<Node>, slots: array<Node>, ghost repr: set<Node>)
    requires Indexed(end, nodes, slots, repr - {n}) && n in repr && n !in nodes && end !in nodes
    requires 0 <= n.id < SLOTS && slots[n.id] == end
    modifies slots
    ensures Indexed(end, nodes + [n], slots, repr) && slots[n.id] == n
  {
    slots[n.id] := n;
    assert forall i | 0 <= i < |nodes| :: (nodes + [n])[i] == nodes[i];
    assert (nodes + [n])[|nodes|] == n;
  }

  lemma ShowsMore(nodes: seq<Node>, list: seq<Entry>, n: Node, repr: set<Node>)
    requires Shows(nodes, list, repr - {n}) && n in repr
    ensures Shows(nodes + [n], list + [n.ToEntry()], repr)
  {}

  lemma RingInMore(end: Node, nodes: seq<Node>, n: Node, repr: set<Node>)
    requires n !in repr && Ring(end, nodes, repr)
    ensures Ring(end, nodes, repr + {n}) && n !in nodes && end !in nodes && n != end && repr + {n} - {n} == repr
  {
    hide Distinct;
    assert Among(end, nodes, repr + {n});
  }

  // ---------------------------------------------------------------- the timer

  class ListTimer {
    const end: Node
    const slots: array<Node>
    ghost var Repr: set<Node>
    ghost var nodes: seq<Node>
    ghost var list: seq<Entry>    // what the nodes hold, front to back
    ghost var fired: seq<Entry>   // history: the callbacks made

    ghost predicate Valid()
      reads this, slots, Repr
    {
      |nodes| == |list| && Ring(end, nodes, Repr) && Indexed(end, nodes, slots, Repr) && Shows(nodes, list, Repr)
    }

    constructor ()
      ensures Valid() && list == [] && fired == [] && fresh(Repr) && fresh(slots)
    {
      var e := new Node.Sentinel();
      end := e;
      slots := new Node[SLOTS](_ => e);
      nodes, list, fired, Repr := [], [], [], {e};
    }

    /**
    Adds a timer or moves it to the tail: the node of a live id is kept, with its new deadline, and all other nodes
    stay in order.
     */
    method Add(clock: Clock, id: int, timeoutMs: int, cb: nat)
      requires Valid() && 0 <= id < SLOTS
      modifies this, slots, Repr, clock
      ensures Valid() && fresh(Repr - old(Repr)) && fired == old(fired) && old(clock.now) <= clock.now
      ensures list == Added(old(list), id, clock.now + timeoutMs * MS, cb)
      ensures var p := Position(old(list), id);
              nodes == if p < |old(nodes)| then Moved(old(nodes), p) else old(nodes) + [slots[id]]
      ensures |nodes| > 0 && nodes[|nodes| - 1] == slots[id]
      ensures if old(slots[id]) == end then fresh(slots[id]) else slots[id] == old(slots[id])
    {
      hide Ring, Indexed, Shows, Position, Moved, Added;
      SlotInRange(end, nodes, slots, id, Repr);
      var it := slots[id];
      IndexedPosition(end, nodes, slots, list, id, Repr);
      if it != end {
        var t := clock.Now();
        AddedFound(list, id, t + timeoutMs * MS, cb, Position(list, id));
        Renew(it, Position(list, id), t + timeoutMs * MS, cb);
      } else {
        var t := clock.Now();
        AddedNew(list, id, t + timeoutMs * MS, cb);
        PushBack(id, t + timeoutMs * MS, cb);
      }
    }

    /** The branch of `add` for a live id: write the node, splice it to the end. */
    method Renew(it: Node, ghost i: nat, expires: int, cb: nat)
      requires Valid() && i < |nodes| && nodes[i] == it && it in Repr
      modifies this`nodes, this`list, Repr
      ensures Valid() && nodes == Moved(old(nodes), i) && nodes[|nodes| - 1] == it
      ensures list == Moved(old(list)[i := Entry(it.id, expires, cb)], i)
      ensures it.id == old(it.id)
    {
      ghost var was, entry := nodes, Entry(it.id, expires, cb);
      MovedIsIndexed(end, nodes, slots, i, Repr);
      assert Distinct(nodes) && Moved(nodes, i)[|nodes| - 1] == it;
      hide Ring, Indexed, Shows, Moved, Distinct;
      nodes, list := Moved(nodes, i), Moved(list[i := entry], i);
      Write(it, was, old(list), i, expires, cb, Repr);
      MovedShows(was, old(list)[i := entry], i, Repr);
      Splice(end, it, was, i, Repr);
    }

    /** The branch of `add` for a new id. */
    method PushBack(id: int, expires: int, cb: nat)
      requires Valid() && 0 <= id < SLOTS && slots[id] == end
      modifies this`nodes, this`list, this`Repr, slots, Repr
      ensures Valid() && fresh(Repr - old(Repr)) && fresh(slots[id]) && nodes == old(nodes) + [slots[id]]
      ensures list == old(list) + [Entry(id, expires, cb)]
    {
      hide Ring, Indexed, Shows;
      var n := new Node(id, expires, cb);
      ghost var was, entries := nodes, list;
      RingInMore(end, was, n, Repr);
      Repr := Repr + {n};
      LinkLast(end, n, was, Repr);
      ShowsMore(was, entries, n, Repr);
      Remember(end, n, was, slots, Repr);
      nodes, list := was + [n], entries + [n.ToEntry()];
    }

    /** The head of a list that is not empty. */
    method Front() returns (head: Node)
      requires Valid() && list != []
      ensures head == nodes[0] == end.next && head.ToEntry() == list[0]
    {
      head := end.next;
      assert Cell(end, nodes, 0) == end && Cell(end, nodes, 1) == nodes[0];
    }

    /** Whether the list is empty: the sentinel is its own successor. */
    method Empty() returns (b: bool)
      requires Valid()
      ensures b <==> list == []
    {
      b := end.next == end;
      assert Cell(end, nodes, 0) == end && end.next == Cell(end, nodes, 1);
    }

    /** The tail of `tick`'s loop: forget the head's slot, drop the head. */
    method PopFront(head: Node)
      requires Valid() && list != [] && nodes[0] == head
      modifies this`nodes, this`list, slots, Repr`prev, Repr`next
      ensures Valid() && list == old(list)[1..] && nodes == old(nodes)[1..]
    {
      ghost var was := nodes;
      ShowsRest(nodes, list, Repr);
      assert Distinct(was);
      hide Ring, Indexed, Shows, Distinct;
      nodes, list := nodes[1..], list[1..];
      ForgetHead(end, head, was, slots, Repr);
      UnlinkFirst(end, head, was, Repr);
    }

    /** One turn of `tick`'s loop: false when the head is not due. */
    method FireHead(clock: Clock) returns (due: bool)
      requires Valid() && list != []
      modifies this`nodes, this`list, this`fired, slots, Repr`prev, Repr`next, clock
      ensures Valid() && old(clock.now) <= clock.now
      ensures due <==> Due(old(list[0]), clock.now)
      ensures list == (if due then old(list)[1..] else old(list))
      ensures nodes == if due then old(nodes)[1..] else old(nodes)
      ensures fired == old(fired) + if due then [old(list[0])] else []
    {
      var head := Front();
      hide Ring, Indexed, Shows, Millis;
      var t := clock.Now();
      due := !(Millis(head.expires - t) > 0);
      if due {
        fired := fired + [head.ToEntry()];
        PopFront(head);
      }
    }

    /** Fires and drops the head until it is not due; `looks` are the clock reads, `k` the number fired. */
    method Tick(clock: Clock) returns (ghost looks: seq<int>, ghost k: nat)
      requires Valid()
      modifies this`nodes, this`list, this`fired, slots, Repr`prev, Repr`next, clock
      ensures Valid() && Ticked(old(list), looks, k) && Looked(looks, old(clock.now), clock.now)
      ensures list == old(list)[k..] && fired == old(fired) + old(list)[..k]
      ensures k <= |old(nodes)| && nodes == old(nodes)[k..]
    {
      hide Ring, Indexed, Shows, Due, Looked, Ticking, Ticked;
      looks, k := [], 0;
      ghost var before, start, past := list, clock.now, fired;
      ghost var done := [];
      TickingStarts(before, start);
      var empty := Empty();
      while !empty
        invariant Valid() && (empty <==> list == []) && fired == past + done
        invariant k <= |old(nodes)| && nodes == old(nodes)[k..]
        invariant Ticking(before, looks, k, list, done, start, clock.now)
        decreases |list|
      {
        ghost var left, earlier := list, clock.now;
        var due := FireHead(clock);
        TickingNext(before, looks, k, left, done, start, earlier, clock.now);
        looks := looks + [clock.now];
        if !due {
          return;
        }
        k, done := k + 1, done + [left[0]];
        empty := Empty();
      }
      TickingAll(before, looks, k, list, done, start, clock.now);
    }

    /** Ticks, then says how long to sleep: -1 for ever. */
    method GetNextTick(clock: Clock) returns (res: int, ghost looks: seq<int>, ghost k: nat, ghost ticked: int)
      requires Valid()
      modifies this`nodes, this`list, this`fired, slots, Repr`prev, Repr`next, clock
      ensures Valid() && Ticked(old(list), looks, k)
      ensures Looked(looks, old(clock.now), ticked) && ticked <= clock.now
      ensures list == old(list)[k..] && fired == old(fired) + old(list)[..k]
      ensures k <= |old(nodes)| && nodes == old(nodes)[k..]
      ensures res == SleepFor(list, clock.now)
    {
      hide Ring, Indexed, Shows, Ticked, Looked, Due, Millis, SleepFor;
      looks, k := Tick(clock);
      ticked := clock.now;
      res := -1;
      var none := Empty();
      if !none {
        var head := Front();
        var t := clock.Now();
        res := Millis(head.expires - t);
        if res < 0 {
          res := 0;
        }
        SleepForHead(list, head.ToEntry(), t);
      } else {
        SleepForNone(list, clock.now);
      }
    }
  }
}
