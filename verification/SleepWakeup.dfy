/**
 sleep and wakeup of proc.c as a step system for any number of processes.

 The processes share some data under a spin lock `lk`, and sleep on one channel until their own
 condition on the data holds.  Each step is one access to a lock or to the shared state; wakeup
 scans the table slot by slot.  `owing` holds the processes that have made a condition true and
 have not completed a wakeup since.
 */
module SleepWakeup {
  import opened Options

  /** Where a process is. */
  datatype Phase =
    | Out                                // runs without the lock
    | Holding                            // holds lk
    | Checked                            // holds lk and has found its condition false
    | Going                              // in sleep: holds lk and ptable.lock
    | Window                             // in sleep: lk released, ptable.lock held
    | Dozing                             // marked SLEEPING, not yet switched away
    | Asleep
    | Woken                              // RUNNABLE again, on its way to take lk
    | Waking(next: nat, holding: bool)   // in wakeup, with ptable.lock; `next` is the slot to look at

  /** The rules callers follow: change conditions under lk; complete the wakeup before releasing lk. */
  datatype Rules = Rules(underLock: bool, wakeFirst: bool)

  datatype State<T> = State(phase: seq<Phase>, lk: Option<nat>, ptable: Option<nat>, data: T, owing: set<nat>)

  datatype Event<T> =
    | Acquire(p: nat) | Release(p: nat) | Write(p: nat, data: T)
    | Check(p: nat) | SleepLock(p: nat) | DropLock(p: nat) | Doze(p: nat) | Switch(p: nat) | Resume(p: nat)
    | WakeStart(p: nat) | WakeSlot(p: nat) | WakeEnd(p: nat) | Kill(p: nat, victim: nat)

  type Ready<!T> = (nat, T) -> bool

  /** Some process's condition becomes true. */
  ghost predicate Raises<T>(ready: Ready<T>, d: T, d': T) {
    exists q: nat :: !ready(q, d) && ready(q, d')
  }

  predicate Free(phase: Phase) {
    phase.Out? || phase.Holding?
  }

  ghost predicate Enabled<T>(rules: Rules, ready: Ready<T>, s: State<T>, e: Event<T>) {
    e.p < |s.phase| &&
    var me := s.phase[e.p];
    match e
    case Acquire(p) => me.Out? && s.lk.None?
    case Release(p) => me.Holding? && (rules.wakeFirst ==> p !in s.owing)
    case Write(p, d) => me.Holding? || (!rules.underLock && me.Out?)
    case Check(p) => me.Holding? && !ready(p, s.data) && (rules.wakeFirst ==> p !in s.owing)
    case SleepLock(p) => me.Checked? && s.ptable.None?
    case DropLock(p) => me.Going?
    case Doze(p) => me.Window?
    case Switch(p) => me.Dozing?
    case Resume(p) => me.Woken? && s.lk.None?
    case WakeStart(p) => Free(me) && s.ptable.None?
    case WakeSlot(p) => me.Waking? && me.next < |s.phase|
    case WakeEnd(p) => me.Waking? && me.next == |s.phase|
    case Kill(p, victim) => Free(me) && s.ptable.None? && victim < |s.phase|
  }

  function Wake(phase: seq<Phase>, q: nat): seq<Phase>
    requires q < |phase|
  {
    if phase[q].Asleep? then phase[q := Woken] else phase
  }

  ghost function Next<T>(rules: Rules, ready: Ready<T>, s: State<T>, e: Event<T>): State<T>
    requires Enabled(rules, ready, s, e)
  {
    match e
    case Acquire(p) => s.(phase := s.phase[p := Holding], lk := Some(p))
    case Release(p) => s.(phase := s.phase[p := Out], lk := None)
    case Write(p, d) => s.(data := d, owing := if Raises(ready, s.data, d) then s.owing + {p} else s.owing)
    case Check(p) => s.(phase := s.phase[p := Checked])
    case SleepLock(p) => s.(phase := s.phase[p := Going], ptable := Some(p))
    case DropLock(p) => s.(phase := s.phase[p := Window], lk := None)
    case Doze(p) => s.(phase := s.phase[p := Dozing])
    case Switch(p) => s.(phase := s.phase[p := Asleep], ptable := None)
    case Resume(p) => s.(phase := s.phase[p := Holding], lk := Some(p))
    case WakeStart(p) => s.(phase := s.phase[p := Waking(0, s.phase[p].Holding?)], ptable := Some(p))
    case WakeSlot(p) =>
      var me := s.phase[p];
      s.(phase := Wake(s.phase, me.next)[p := Waking(me.next + 1, me.holding)])
    case WakeEnd(p) =>
      s.(phase := s.phase[p := if s.phase[p].holding then Holding else Out], ptable := None, owing := s.owing - {p})
    case Kill(p, victim) => s.(phase := Wake(s.phase, victim))
  }

  ghost predicate Init<T>(s: State<T>) {
    s.lk.None? && s.ptable.None? && s.owing == {} && forall p :: 0 <= p < |s.phase| ==> s.phase[p].Out?
  }

  ghost predicate Run<T>(rules: Rules, ready: Ready<T>, s: State<T>, events: seq<Event<T>>, s': State<T>)
    decreases |events|
  {
    if events == [] then s' == s
    else Enabled(rules, ready, s, events[0]) && Run(rules, ready, Next(rules, ready, s, events[0]), events[1..], s')
  }

  ghost predicate Reachable<T(!new)>(rules: Rules, ready: Ready<T>, s: State<T>) {
    exists s0: State<T>, events: seq<Event<T>> :: Init(s0) && Run(rules, ready, s0, events, s)
  }

  // ---------- what every step keeps ----------

  predicate HasLock(phase: Phase) {
    phase.Holding? || phase.Checked? || phase.Going? || (phase.Waking? && phase.holding)
  }

  predicate HasTable(phase: Phase) {
    phase.Going? || phase.Window? || phase.Dozing? || phase.Waking?
  }

  /** Each lock is held by the process that is in a phase that holds it. */
  ghost predicate LkOk<T>(s: State<T>) {
    && (forall p :: 0 <= p < |s.phase| ==> (HasLock(s.phase[p]) <==> s.lk == Some(p)))
    && (s.lk.Some? ==> s.lk.value < |s.phase|)
  }

  ghost predicate TableOk<T>(s: State<T>) {
    && (forall p :: 0 <= p < |s.phase| ==> (HasTable(s.phase[p]) <==> s.ptable == Some(p)))
    && (s.ptable.Some? ==> s.ptable.value < |s.phase|)
    && (forall p :: 0 <= p < |s.phase| && s.phase[p].Waking? ==> s.phase[p].next <= |s.phase|)
  }

  ghost predicate Locks<T>(s: State<T>) {
    LkOk(s) && TableOk(s)
  }

  /** Past the point where lk is released for sleeping, and not woken yet. */
  predicate Blocked(phase: Phase) {
    phase.Window? || phase.Dozing? || phase.Asleep?
  }

  /** `h` has yet to pass slot `q` with a wakeup. */
  ghost predicate WillWake<T>(s: State<T>, h: nat, q: nat) {
    h < |s.phase| && h in s.owing && (s.phase[h].Waking? ==> s.phase[h].next <= q)
  }

  /** No wakeup is lost: whoever is blocked although its condition is true will be woken. */
  ghost predicate Covered<T>(ready: Ready<T>, s: State<T>) {
    && (forall q :: 0 <= q < |s.phase| && (s.phase[q].Checked? || s.phase[q].Going?) ==> !ready(q, s.data))
    && (forall q :: 0 <= q < |s.phase| && Blocked(s.phase[q]) && ready(q, s.data) ==> exists h :: WillWake(s, h, q))
  }

  /** A process that owes a wakeup holds lk, if wakeups come first. */
  ghost predicate OwingHolds<T>(s: State<T>) {
    forall h :: h in s.owing ==> h < |s.phase| && HasLock(s.phase[h]) && !s.phase[h].Checked? && !s.phase[h].Going?
  }

  ghost predicate Inv<T>(rules: Rules, ready: Ready<T>, s: State<T>) {
    Locks(s) && Covered(ready, s) && (rules.wakeFirst ==> OwingHolds(s))
  }

  lemma LkKept<T>(rules: Rules, ready: Ready<T>, s: State<T>, e: Event<T>)
    requires LkOk(s) && Enabled(rules, ready, s, e)
    ensures LkOk(Next(rules, ready, s, e))
  {
  }

  lemma TableKept<T>(rules: Rules, ready: Ready<T>, s: State<T>, e: Event<T>)
    requires TableOk(s) && Enabled(rules, ready, s, e)
    ensures TableOk(Next(rules, ready, s, e))
  {
  }

  lemma CoveredKept<T>(rules: Rules, ready: Ready<T>, s: State<T>, e: Event<T>)
    requires rules.underLock && Locks(s) && Covered(ready, s) && Enabled(rules, ready, s, e)
    ensures Covered(ready, Next(rules, ready, s, e))
  {
    var s' := Next(rules, ready, s, e);
    forall q | 0 <= q < |s'.phase| && Blocked(s'.phase[q]) && ready(q, s'.data) ensures exists h :: WillWake(s', h, q) {
      if e.Write? && Raises(ready, s.data, e.data) {
        assert WillWake(s', e.p, q);
      } else {
        assert Blocked(s.phase[q]) || e.DropLock?;
        var h :| WillWake(s, h, q);
        assert WillWake(s', h, q);
      }
    }
  }

  lemma OwingKept<T>(rules: Rules, ready: Ready<T>, s: State<T>, e: Event<T>)
    requires rules.underLock && rules.wakeFirst && Locks(s) && OwingHolds(s) && Enabled(rules, ready, s, e)
    ensures OwingHolds(Next(rules, ready, s, e))
  {
  }

  // ---------- all runs ----------

  lemma {:induction false} InvRun<T>(rules: Rules, ready: Ready<T>, s: State<T>, events: seq<Event<T>>, s': State<T>)
    requires rules.underLock && Inv(rules, ready, s) && Run(rules, ready, s, events, s')
    ensures Inv(rules, ready, s')
    decreases |events|
  {
    if events != [] {
      LkKept(rules, ready, s, events[0]);
      TableKept(rules, ready, s, events[0]);
      CoveredKept(rules, ready, s, events[0]);
      if rules.wakeFirst {
        OwingKept(rules, ready, s, events[0]);
      }
      InvRun(rules, ready, Next(rules, ready, s, events[0]), events[1..], s');
    }
  }

  lemma InvReachable<T(!new)>(rules: Rules, ready: Ready<T>, s: State<T>)
    requires rules.underLock && Reachable(rules, ready, s)
    ensures Inv(rules, ready, s)
  {
    var s0: State<T>, events: seq<Event<T>> :| Init(s0) && Run(rules, ready, s0, events, s);
    InvRun(rules, ready, s0, events, s);
  }

  /** Some process sleeps although its condition is true. */
  ghost predicate Stuck<T>(ready: Ready<T>, s: State<T>) {
    exists q :: 0 <= q < |s.phase| && s.phase[q].Asleep? && ready(q, s.data)
  }

  /** Whenever lk is free, no process sleeps although its condition is true. */
  lemma NoLostWakeup<T(!new)>(rules: Rules, ready: Ready<T>, s: State<T>)
    requires rules.underLock && rules.wakeFirst && Reachable(rules, ready, s) && s.lk.None?
    ensures !Stuck(ready, s)
  {
    InvReachable(rules, ready, s);
  }

  /** Waking after the release is as good, once the wakeups are done. */
  lemma WakeAfterRelease<T(!new)>(rules: Rules, ready: Ready<T>, s: State<T>)
    requires rules.underLock && Reachable(rules, ready, s) && s.owing == {}
    ensures !Stuck(ready, s)
  {
    InvReachable(rules, ready, s);
  }

  // ---------- both rules are needed ----------

  lemma {:induction false} RunThen<T>(rules: Rules, ready: Ready<T>, s: State<T>, events: seq<Event<T>>,
                                      s': State<T>, e: Event<T>)
    requires Run(rules, ready, s, events, s') && Enabled(rules, ready, s', e)
    ensures Run(rules, ready, s, events + [e], Next(rules, ready, s', e))
    decreases |events|
  {
    var more := events + [e];
    if events == [] {
      assert more[1..] == [];
    } else {
      assert more[0] == events[0] && more[1..] == events[1..] + [e];
      RunThen(rules, ready, Next(rules, ready, s, events[0]), events[1..], s', e);
    }
  }

  lemma Then<T(!new)>(rules: Rules, ready: Ready<T>, s: State<T>, e: Event<T>) returns (s': State<T>)
    requires Reachable(rules, ready, s) && Enabled(rules, ready, s, e)
    ensures Reachable(rules, ready, s') && s' == Next(rules, ready, s, e)
  {
    var s0: State<T>, events: seq<Event<T>> :| Init(s0) && Run(rules, ready, s0, events, s);
    RunThen(rules, ready, s0, events, s, e);
    s' := Next(rules, ready, s, e);
  }

  /** Everyone waits for one flag. */
  ghost function Flag(): Ready<bool> {
    (q, d) => d
  }

  ghost function TwoProcesses(): State<bool> {
    State([Out, Out], None, None, false, {})
  }

  lemma Start(rules: Rules) returns (s: State<bool>)
    ensures Reachable(rules, Flag(), s) && s == TwoProcesses()
  {
    s := TwoProcesses();
    assert Init(s) && Run(rules, Flag(), s, [], s);
  }

  lemma SleepsFrom(rules: Rules, s: State<bool>) returns (s': State<bool>)
    requires Reachable(rules, Flag(), s) && |s.phase| == 2 && s.phase[0].Checked? && s.ptable.None?
    ensures Reachable(rules, Flag(), s') && s' == s.(phase := [Asleep, s.phase[1]], lk := None)
  {
    s' := Then(rules, Flag(), s, Event<bool>.SleepLock(0));
    s' := Then(rules, Flag(), s', Event<bool>.DropLock(0));
    s' := Then(rules, Flag(), s', Doze(0));
    s' := Then(rules, Flag(), s', Switch(0));
  }

  lemma WakesNobody(rules: Rules, s: State<bool>) returns (s': State<bool>)
    requires Reachable(rules, Flag(), s) && s.phase == [Checked, Out] && s.ptable.None?
    ensures Reachable(rules, Flag(), s') && s' == s.(owing := s.owing - {1})
  {
    s' := Then(rules, Flag(), s, WakeStart(1));
    s' := Then(rules, Flag(), s', WakeSlot(1));
    s' := Then(rules, Flag(), s', WakeSlot(1));
    s' := Then(rules, Flag(), s', WakeEnd(1));
  }

  /** Release before wakeup: for a moment lk is free and the sleeper's condition is true. */
  lemma LateWakeup(rules: Rules) returns (s: State<bool>)
    requires !rules.wakeFirst
    ensures Reachable(rules, Flag(), s) && s.lk.None? && Stuck(Flag(), s)
  {
    s := Start(rules);
    s := Then(rules, Flag(), s, Acquire(0));
    s := Then(rules, Flag(), s, Check(0));
    s := SleepsFrom(rules, s);
    s := Then(rules, Flag(), s, Acquire(1));
    s := Then(rules, Flag(), s, Write(1, true));
    s := Then(rules, Flag(), s, Release(1));
    assert s.phase[0].Asleep?;
  }

  /** A condition changed without lk: the wakeup comes before the sleep and is lost for good. */
  lemma LostWakeup(rules: Rules) returns (s: State<bool>)
    requires !rules.underLock
    ensures Reachable(rules, Flag(), s) && s.lk.None? && s.owing == {} && Stuck(Flag(), s)
  {
    s := Start(rules);
    s := Then(rules, Flag(), s, Acquire(0));
    s := Then(rules, Flag(), s, Check(0));
    s := Then(rules, Flag(), s, Write(1, true));
    s := WakesNobody(rules, s);
    s := SleepsFrom(rules, s);
    assert s.phase[0].Asleep?;
  }

  /** No sleeper is ever left behind if and only if conditions change under lk. */
  lemma ExactRule(rules: Rules)
    ensures (forall s :: Reachable(rules, Flag(), s) && s.owing == {} ==> !Stuck(Flag(), s)) <==> rules.underLock
  {
    if rules.underLock {
      forall s | Reachable(rules, Flag(), s) && s.owing == {} ensures !Stuck(Flag(), s) {
        WakeAfterRelease(rules, Flag(), s);
      }
    } else {
      var s := LostWakeup(rules);
    }
  }

  /** A free lk means no sleeper with a true condition if and only if both rules are kept. */
  lemma ExactRules(rules: Rules)
    ensures (forall s :: Reachable(rules, Flag(), s) && s.lk.None? ==> !Stuck(Flag(), s)) <==> rules.underLock && rules.wakeFirst
  {
    if rules.underLock && rules.wakeFirst {
      forall s | Reachable(rules, Flag(), s) && s.lk.None? ensures !Stuck(Flag(), s) {
        NoLostWakeup(rules, Flag(), s);
      }
    } else if !rules.underLock {
      var s := LostWakeup(rules);
    } else {
      var s := LateWakeup(rules);
    }
  }
}
