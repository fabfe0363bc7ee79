/** Condition variables, as the scheduler sees them. */
module CondVars {
  import opened Strings

  type Tid = nat

  /**
   `waiting` threads are asleep with no wakeup on its way; `woken` threads have been notified, or
   woke spuriously, and have yet to get the mutex back and look at their condition again.
   */
  datatype CondVar = CondVar(waiting: set<Tid>, woken: set<Tid>) {

    predicate Wf() {
      waiting !! woken
    }

    function Sleep(t: Tid): CondVar {
      CondVar(waiting + {t}, woken)
    }

    /** `t` leaves its wait, spuriously or notified. */
    function Wake(t: Tid): CondVar {
      CondVar(waiting - {t}, woken + {t})
    }

    /** `t` has looked at its condition. */
    function Leave(t: Tid): CondVar {
      CondVar(waiting, woken - {t})
    }

    /** What `notify_one` may pick: some waiting thread, or nobody when nobody waits. */
    predicate CanPick(c: Option<Tid>) {
      if waiting == {} then c.None? else c.Some? && c.value in waiting
    }

    function NotifyOne(c: Option<Tid>): CondVar {
      if c.Some? then Wake(c.value) else this
    }

    function NotifyAll(): CondVar {
      CondVar({}, woken + waiting)
    }

    /** A wakeup adds one woken thread. */
    lemma WakeCount(t: Tid)
      requires Wf() && t in waiting
      ensures |Wake(t).woken| == |woken| + 1
    {}

    lemma LeaveCount(t: Tid)
      ensures |Leave(t).woken| == |woken| - if t in woken then 1 else 0
    {}
  }

  /** No two positions hold the same element. */
  ghost predicate NoRepeats<T>(s: seq<T>) {
    forall i, j | 0 <= i < j < |s| :: s[i] != s[j]
  }

  lemma Without(a: set<Tid>, t: Tid)
    ensures |a - {t}| == |a| - if t in a then 1 else 0
  {}
}
