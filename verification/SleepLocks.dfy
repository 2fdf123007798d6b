/**
 The sleep lock of sleeplock.c, as users of sleep and wakeup that keep both of their rules.

 `op` says how far each process is in acquiresleep or releasesleep.  Every step of the lock is a step
 of the sleep/wakeup system, with `locked` and `pid` as the shared data.
 */
module SleepLocks {
  import opened SleepWakeup

  /** The fields under the spin lock; pid 0 is no process. */
  datatype Fields = Fields(locked: bool, pid: nat)

  datatype Op =
    | Idle        // neither has nor wants the lock
    | Acquiring   // in acquiresleep
    | Taken       // in acquiresleep, past the assignment of `locked`
    | Critical    // returned from acquiresleep
    | Releasing   // in releasesleep, before the assignment
    | Cleared     // in releasesleep, after it
    | Asking      // in holdingsleep, called outside the critical section
    | AskingOwn   // in holdingsleep, called inside it

  datatype Locks = Locks(base: State<Fields>, op: seq<Op>)

  const RULES := Rules(true, true)

  ghost function Unlocked(): Ready<Fields> {
    (q, d: Fields) => !d.locked
  }

  function Pid(p: nat): nat {
    p + 1
  }

  /** The process owns the sleep lock. */
  predicate Owns(op: Op) {
    op.Taken? || op.Critical? || op.Releasing? || op.AskingOwn?
  }

  /** Where the routine of the process goes with a step of the underlying system, if it may take it. */
  ghost predicate Goes(s: Locks, e: Event<Fields>, op': Op)
    requires e.p < |s.op|
  {
    var op := s.op[e.p];
    match e
    case Acquire(p) =>
      || (op.Idle? && (op'.Acquiring? || op'.Asking?))
      || (op.Critical? && (op'.Releasing? || op'.AskingOwn?))
    case Check(p) => op.Acquiring? && op' == op
    case Write(p, d) =>
      || (op.Acquiring? && !s.base.data.locked && d == Fields(true, Pid(p)) && op'.Taken?)
      || (op.Releasing? && d == Fields(false, 0) && op'.Cleared?)
    case WakeStart(p) => op.Cleared? && op' == op
    case Release(p) =>
      || (op.Taken? && op'.Critical?) || (op.Cleared? && op'.Idle?)
      || (op.Asking? && op'.Idle?) || (op.AskingOwn? && op'.Critical?)
    case _ => op' == op
  }

  ghost predicate Step(s: Locks, e: Event<Fields>, s': Locks) {
    && Enabled(RULES, Unlocked(), s.base, e) && e.p < |s.op| && |s'.op| == |s.op|
    && s'.base == Next(RULES, Unlocked(), s.base, e)
    && s'.op == s.op[e.p := s'.op[e.p]] && Goes(s, e, s'.op[e.p])
  }

  ghost predicate InitLocks(s: Locks) {
    && Init(s.base) && s.base.data == Fields(false, 0) && |s.op| == |s.base.phase|
    && forall p :: 0 <= p < |s.op| ==> s.op[p].Idle?
  }

  ghost predicate LocksRun(s: Locks, states: seq<Locks>, events: seq<Event<Fields>>) {
    && |states| == |events| + 1 && states[0] == s
    && forall i :: 0 <= i < |events| ==> Step(states[i], events[i], states[i + 1])
  }

  /** `locked` and `pid` name the owner. */
  ghost predicate FieldsOk(s: Locks) {
    && |s.op| == |s.base.phase|
    && (forall p :: 0 <= p < |s.op| ==> (Owns(s.op[p]) <==> s.base.data.locked && s.base.data.pid == Pid(p)))
    && (s.base.data.locked ==> 0 < s.base.data.pid <= |s.op|)
  }

  lemma FieldsKept(s: Locks, e: Event<Fields>, s': Locks)
    requires FieldsOk(s) && Step(s, e, s')
    ensures FieldsOk(s')
  {
  }

  lemma {:induction false} ReachesLocks(s: Locks, states: seq<Locks>, events: seq<Event<Fields>>, n: nat)
    requires InitLocks(s) && LocksRun(s, states, events) && n <= |events|
    ensures FieldsOk(states[n]) && Reachable(RULES, Unlocked(), states[n].base)
  {
    if n == 0 {
      assert Run(RULES, Unlocked(), s.base, [], s.base);
    } else {
      ReachesLocks(s, states, events, n - 1);
      FieldsKept(states[n - 1], events[n - 1], states[n]);
      var _ := Then(RULES, Unlocked(), states[n - 1].base, events[n - 1]);
    }
  }

  /** At most one process owns the lock, in every state of every run. */
  lemma MutualExclusion(s: Locks, states: seq<Locks>, events: seq<Event<Fields>>, n: nat, p: nat, q: nat)
    requires InitLocks(s) && LocksRun(s, states, events) && n <= |events|
    requires p < |states[n].op| && q < |states[n].op| && Owns(states[n].op[p]) && Owns(states[n].op[q])
    ensures p == q
  {
    ReachesLocks(s, states, events, n);
  }

  /** When the spin lock is free and the sleep lock is not taken, nobody sleeps waiting for it. */
  lemma NoSleeperOnFreeLock(s: Locks, states: seq<Locks>, events: seq<Event<Fields>>, n: nat, q: nat)
    requires InitLocks(s) && LocksRun(s, states, events) && n <= |events|
    requires states[n].base.lk.None? && !states[n].base.data.locked && q < |states[n].base.phase|
    ensures !states[n].base.phase[q].Asleep?
  {
    ReachesLocks(s, states, events, n);
    NoLostWakeup(RULES, Unlocked(), states[n].base);
  }

  /** What holdingsleep computes is whether the caller owns the lock. */
  lemma HoldingTellsOwner(s: Locks, states: seq<Locks>, events: seq<Event<Fields>>, n: nat, p: nat)
    requires InitLocks(s) && LocksRun(s, states, events) && n <= |events| && p < |states[n].op|
    ensures states[n].base.data.locked && states[n].base.data.pid == Pid(p) <==> Owns(states[n].op[p])
  {
    ReachesLocks(s, states, events, n);
  }
}
