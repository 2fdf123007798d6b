/**
 The process table and the scheduler of proc.c as a step system, for any number of table slots and
 CPUs.

 A step is one access under ptable.lock or one unlocked write.  Loops over the table take one step
 per slot; wakeup1 is one step, because it touches SLEEPING slots only and these change under the
 lock.  ptable.lock belongs to a CPU and travels with it through swtch.  `threads` says how far the
 kernel thread of each slot has come; `stacks` maps each allocated kernel stack to the slot it was
 allocated for.
 */
module ProcTable {
  import opened Options

  datatype PState = Unused | Embryo | Sleeping | Runnable | Running | Zombie

  datatype Chan = NoChan | ProcChan(slot: nat) | OtherChan(id: int)

  datatype Proc = Proc(state: PState, pid: nat, parent: Option<nat>, chan: Chan, kstack: nat)

  /** The steps of fork on the slot it has claimed. */
  datatype Stage = Claimed | Stacked | Parented | Freed | Cleared

  /** How a thread left the CPU, and so where it goes on; `Mid` is a timer tick inside fork. */
  datatype Why = FromFork | FromYield | FromSleep | FromWait | Mid(child: nat, stage: Stage) | Dead

  datatype Thread =
    | Parked(why: Why)                    // not on a CPU
    | Resumed(why: Why)                   // switched to, ptable.lock held
    | User                                // runs without ptable.lock
    | AllocScan(i: nat)                   // allocproc looks for an UNUSED slot
    | Forking(child: nat, stage: Stage)   // fork works on its child, without the lock
    | ExitScan(i: nat)                    // exit hands its children to init
    | WaitScan(i: nat, kids: bool)        // wait looks for a zombie child
    | WaitFreed(i: nat)                   // wait has freed the stack of slot i
    | Leaving(why: Why)                   // in sched, before the swtch

  /** What a CPU does: the scheduler without and with the lock, the two swtch calls, or a process. */
  datatype Mode = Idle | Scanning(i: nat) | Switching | InProc | Back

  datatype Cpu = Cpu(proc: Option<nat>, mode: Mode)

  datatype Table = Table(procs: seq<Proc>, threads: seq<Thread>, cpus: seq<Cpu>, lock: Option<nat>,
                         nextpid: nat, stacks: map<nat, nat>, init: nat)

  datatype Event =
    | SchedAcquire | SchedSkip | SchedPick | SchedRelease | SwitchIn | SwitchOut | SchedClear | IrqWakeup(chan: Chan)
    | Resume | Yield | SleepOn(id: int) | Wakeup(chan: Chan) | Kill(victim: nat)
    | AllocStart | AllocSkip | AllocFail | AllocTake
    | StackFail | StackGet(page: nat) | CopyFail | ClearStack | DropChild | SetParent | ForkDone
    | ExitStart | ExitNext | ExitDone
    | WaitStart | WaitNext | WaitFound | WaitReap | WaitNone(killed: bool) | WaitSleep

  // ---------- steps ----------

  /** wakeup1. */
  function WakeAll(procs: seq<Proc>, chan: Chan): (r: seq<Proc>)
    ensures |r| == |procs|
  {
    seq(|procs|, i requires 0 <= i < |procs| =>
      if procs[i].state.Sleeping? && procs[i].chan == chan then procs[i].(state := Runnable) else procs[i])
  }

  function ChanOf(parent: Option<nat>): Chan {
    if parent.None? then NoChan else ProcChan(parent.value)
  }

  predicate Shape(s: Table) {
    && |s.threads| == |s.procs| && s.init < |s.procs|
    && (forall c :: 0 <= c < |s.cpus| && s.cpus[c].proc.Some? ==> s.cpus[c].proc.value < |s.procs|)
  }

  /** The CPU executes a process; these are its slot and its thread. */
  predicate Runs(s: Table, c: nat) {
    c < |s.cpus| && s.cpus[c].mode.InProc? && s.cpus[c].proc.Some? && s.cpus[c].proc.value < |s.procs| == |s.threads|
  }

  function Me(s: Table, c: nat): (p: nat)
    requires Runs(s, c)
    ensures p < |s.procs|
  {
    s.cpus[c].proc.value
  }

  predicate SchedEvent(e: Event) {
    e.SchedAcquire? || e.SchedSkip? || e.SchedPick? || e.SchedRelease? || e.SwitchIn? || e.SchedClear? || e.IrqWakeup?
  }

  /** Steps of the scheduler. */
  predicate SchedEnabled(s: Table, c: nat, e: Event)
    requires Shape(s) && c < |s.cpus|
  {
    var mode := s.cpus[c].mode;
    match e
    case SchedAcquire => mode.Idle? && s.lock.None?
    case SchedSkip => mode.Scanning? && mode.i < |s.procs| && !s.procs[mode.i].state.Runnable?
    case SchedPick => mode.Scanning? && mode.i < |s.procs| && s.procs[mode.i].state.Runnable?
    case SchedRelease => mode.Scanning? && mode.i == |s.procs|
    case SwitchIn => mode.Switching? && s.cpus[c].proc.Some? && s.threads[s.cpus[c].proc.value].Parked?
    case SchedClear => mode.Back? && s.cpus[c].proc.Some?
    case IrqWakeup(chan) => mode.Idle? && s.lock.None?
    case _ => false
  }

  function SchedNext(s: Table, c: nat, e: Event): (r: Table)
    requires Shape(s) && c < |s.cpus| && SchedEnabled(s, c, e)
    ensures Shape(r) && |r.procs| == |s.procs| && |r.cpus| == |s.cpus| && r.init == s.init
  {
    var cpu := s.cpus[c];
    match e
    case SchedAcquire => s.(cpus := s.cpus[c := Cpu(None, Scanning(0))], lock := Some(c))
    case SchedSkip => s.(cpus := s.cpus[c := cpu.(mode := Scanning(cpu.mode.i + 1))])
    case SchedPick =>
      s.(cpus := s.cpus[c := Cpu(Some(cpu.mode.i), Switching)],
         procs := s.procs[cpu.mode.i := s.procs[cpu.mode.i].(state := Running)])
    case SchedRelease => s.(cpus := s.cpus[c := cpu.(mode := Idle)], lock := None)
    case SwitchIn =>
      var p := cpu.proc.value;
      s.(cpus := s.cpus[c := cpu.(mode := InProc)], threads := s.threads[p := Resumed(s.threads[p].why)])
    case SchedClear => s.(cpus := s.cpus[c := Cpu(None, Scanning(cpu.proc.value + 1))])
    case IrqWakeup(chan) => s.(procs := WakeAll(s.procs, chan))
  }

  /** The thread runs without ptable.lock, so that interrupts may be on. */
  predicate Preemptible(t: Thread) {
    t.User? || t.Forking?
  }

  /** The steps that need no lock: fork on its own child. */
  predicate Unlocked(e: Event) {
    e.StackFail? || e.StackGet? || e.CopyFail? || e.ClearStack? || e.DropChild? || e.SetParent?
  }

  /** The steps of fork on its child. */
  predicate ForkEvent(e: Event) {
    e.AllocTake? || Unlocked(e) || e.ForkDone?
  }

  /** The steps of exit and wait. */
  predicate FamilyEvent(e: Event) {
    || e.ExitStart? || e.ExitNext? || e.ExitDone? || e.WaitStart? || e.WaitNext? || e.WaitFound? || e.WaitReap? || e.WaitNone?
    || e.WaitSleep?
  }

  /** Steps of a process that concern itself. */
  predicate SelfEnabled(s: Table, c: nat, e: Event)
    requires Shape(s) && Runs(s, c)
  {
    var p := Me(s, c);
    var t := s.threads[p];
    match e
    case SwitchOut => t.Leaving?
    case Resume => t.Resumed? && !t.why.Dead?
    case Yield => Preemptible(t) && s.lock.None?
    case SleepOn(id) => t.User? && s.lock.None?
    case Wakeup(chan) => Preemptible(t) && s.lock.None?
    case Kill(victim) => t.User? && s.lock.None? && victim < |s.procs|
    case AllocStart => t.User? && s.lock.None?
    case AllocSkip => t.AllocScan? && t.i < |s.procs| && !s.procs[t.i].state.Unused?
    case AllocFail => t.AllocScan? && t.i == |s.procs|
    case _ => false
  }

  /** Steps of fork on its child. */
  predicate ForkEnabled(s: Table, c: nat, e: Event)
    requires Shape(s) && Runs(s, c)
  {
    var t := s.threads[Me(s, c)];
    match e
    case AllocTake => t.AllocScan? && t.i < |s.procs| && s.procs[t.i].state.Unused?
    case StackFail => t.Forking? && t.child < |s.procs| && t.stage.Claimed?
    case StackGet(page) => t.Forking? && t.child < |s.procs| && t.stage.Claimed? && page > 0 && page !in s.stacks
    case CopyFail => t.Forking? && t.child < |s.procs| && t.stage.Stacked?
    case ClearStack => t.Forking? && t.child < |s.procs| && t.stage.Freed?
    case DropChild => t.Forking? && t.child < |s.procs| && t.stage.Cleared?
    case SetParent => t.Forking? && t.child < |s.procs| && t.stage.Stacked?
    case ForkDone => t.Forking? && t.child < |s.procs| && t.stage.Parented? && s.lock.None?
    case _ => false
  }

  /** Steps of exit and wait. */
  predicate FamilyEnabled(s: Table, c: nat, e: Event)
    requires Shape(s) && Runs(s, c)
  {
    var p := Me(s, c);
    var t := s.threads[p];
    match e
    case ExitStart => t.User? && s.lock.None? && p != s.init
    case ExitNext => t.ExitScan? && t.i < |s.procs|
    case ExitDone => t.ExitScan? && t.i == |s.procs|
    case WaitStart => t.User? && s.lock.None?
    case WaitNext => t.WaitScan? && t.i < |s.procs| && !(s.procs[t.i].parent == Some(p) && s.procs[t.i].state.Zombie?)
    case WaitFound => t.WaitScan? && t.i < |s.procs| && s.procs[t.i].parent == Some(p) && s.procs[t.i].state.Zombie?
    case WaitReap => t.WaitFreed? && t.i < |s.procs|
    case WaitNone(killed) => t.WaitScan? && t.i == |s.procs| && (!t.kids || killed)
    case WaitSleep => t.WaitScan? && t.i == |s.procs| && t.kids
    case _ => false
  }

  /** Steps of a process on a CPU. */
  predicate ProcEnabled(s: Table, c: nat, e: Event)
    requires Shape(s) && Runs(s, c)
  {
    if ForkEvent(e) then ForkEnabled(s, c, e) else if FamilyEvent(e) then FamilyEnabled(s, c, e) else SelfEnabled(s, c, e)
  }

  /** `s` with the thread of slot `p` at `t`. */
  function At(s: Table, p: nat, t: Thread): Table
    requires p < |s.threads|
  {
    s.(threads := s.threads[p := t])
  }

  function WithProc(s: Table, p: nat, proc: Proc): Table
    requires p < |s.procs|
  {
    s.(procs := s.procs[p := proc])
  }

  function SelfNext(s: Table, c: nat, e: Event): (r: Table)
    requires Shape(s) && Runs(s, c) && SelfEnabled(s, c, e)
    ensures Shape(r) && |r.procs| == |s.procs| && |r.cpus| == |s.cpus| && r.init == s.init
  {
    var p := Me(s, c);
    var t := s.threads[p];
    var proc := s.procs[p];
    match e
    case SwitchOut => At(s, p, Parked(t.why)).(cpus := s.cpus[c := s.cpus[c].(mode := Back)])
    case Resume =>
      if t.why.FromWait? then WithProc(At(s, p, WaitScan(0, false)), p, proc.(chan := NoChan))
      else if t.why.FromSleep? then WithProc(At(s, p, User), p, proc.(chan := NoChan)).(lock := None)
      else At(s, p, if t.why.Mid? then Forking(t.why.child, t.why.stage) else User).(lock := None)
    case Yield =>
      var why := if t.Forking? then Mid(t.child, t.stage) else FromYield;
      WithProc(At(s, p, Leaving(why)), p, proc.(state := Runnable)).(lock := Some(c))
    case SleepOn(id) =>
      WithProc(At(s, p, Leaving(FromSleep)), p, proc.(state := Sleeping, chan := OtherChan(id))).(lock := Some(c))
    case Wakeup(chan) => s.(procs := WakeAll(s.procs, chan))
    case Kill(victim) =>
      if s.procs[victim].state.Sleeping? then WithProc(s, victim, s.procs[victim].(state := Runnable)) else s
    case AllocStart => At(s, p, AllocScan(0)).(lock := Some(c))
    case AllocSkip => At(s, p, AllocScan(t.i + 1))
    case AllocFail => At(s, p, User).(lock := None)
  }

  function ForkNext(s: Table, c: nat, e: Event): (r: Table)
    requires Shape(s) && Runs(s, c) && ForkEnabled(s, c, e)
    ensures Shape(r) && |r.procs| == |s.procs| && |r.cpus| == |s.cpus| && r.init == s.init
  {
    var p := Me(s, c);
    var t := s.threads[p];
    match e
    case AllocTake =>
      WithProc(s, t.i, s.procs[t.i].(state := Embryo, pid := s.nextpid))
      .(threads := s.threads[t.i := Parked(FromFork)][p := Forking(t.i, Claimed)], nextpid := s.nextpid + 1, lock := None)
    case StackFail => WithProc(At(s, p, User), t.child, s.procs[t.child].(state := Unused))
    case StackGet(page) =>
      WithProc(At(s, p, Forking(t.child, Stacked)), t.child, s.procs[t.child].(kstack := page))
      .(stacks := s.stacks[page := t.child])
    case CopyFail => At(s, p, Forking(t.child, Freed)).(stacks := s.stacks - {s.procs[t.child].kstack})
    case ClearStack => WithProc(At(s, p, Forking(t.child, Cleared)), t.child, s.procs[t.child].(kstack := 0))
    case DropChild => WithProc(At(s, p, User), t.child, s.procs[t.child].(state := Unused))
    case SetParent => WithProc(At(s, p, Forking(t.child, Parented)), t.child, s.procs[t.child].(parent := Some(p)))
    case ForkDone => WithProc(At(s, p, User), t.child, s.procs[t.child].(state := Runnable))
  }

  function FamilyNext(s: Table, c: nat, e: Event): (r: Table)
    requires Shape(s) && Runs(s, c) && FamilyEnabled(s, c, e)
    ensures Shape(r) && |r.procs| == |s.procs| && |r.cpus| == |s.cpus| && r.init == s.init
  {
    var p := Me(s, c);
    var t := s.threads[p];
    var proc := s.procs[p];
    match e
    case ExitStart => At(s, p, ExitScan(0)).(procs := WakeAll(s.procs, ChanOf(proc.parent)), lock := Some(c))
    case ExitNext =>
      var child := s.procs[t.i];
      var s' := At(s, p, ExitScan(t.i + 1));
      if child.parent != Some(p) then s'
      else
        var procs := s.procs[t.i := child.(parent := Some(s.init))];
        s'.(procs := if child.state.Zombie? then WakeAll(procs, ProcChan(s.init)) else procs)
    case ExitDone => WithProc(At(s, p, Leaving(Dead)), p, proc.(state := Zombie))
    case WaitStart => At(s, p, WaitScan(0, false)).(lock := Some(c))
    case WaitNext => At(s, p, WaitScan(t.i + 1, t.kids || s.procs[t.i].parent == Some(p)))
    case WaitFound => At(s, p, WaitFreed(t.i)).(stacks := s.stacks - {s.procs[t.i].kstack})
    case WaitReap => WithProc(At(s, p, User), t.i, Proc(Unused, 0, None, s.procs[t.i].chan, 0)).(lock := None)
    case WaitNone(killed) => At(s, p, User).(lock := None)
    case WaitSleep => WithProc(At(s, p, Leaving(FromWait)), p, proc.(state := Sleeping, chan := ProcChan(p)))
  }

  function ProcNext(s: Table, c: nat, e: Event): (r: Table)
    requires Shape(s) && Runs(s, c) && ProcEnabled(s, c, e)
    ensures Shape(r) && |r.procs| == |s.procs| && |r.cpus| == |s.cpus| && r.init == s.init
  {
    if ForkEvent(e) then ForkNext(s, c, e) else if FamilyEvent(e) then FamilyNext(s, c, e) else SelfNext(s, c, e)
  }

  predicate Enabled(s: Table, c: nat, e: Event)
    requires Shape(s)
  {
    c < |s.cpus| && if SchedEvent(e) then SchedEnabled(s, c, e) else Runs(s, c) && ProcEnabled(s, c, e)
  }

  function Next(s: Table, c: nat, e: Event): (r: Table)
    requires Shape(s) && Enabled(s, c, e)
    ensures Shape(r) && |r.procs| == |s.procs| && |r.cpus| == |s.cpus| && r.init == s.init
  {
    if SchedEvent(e) then SchedNext(s, c, e) else ProcNext(s, c, e)
  }

  // ---------- CPUs, threads and the lock ----------

  predicate LockedThread(t: Thread) {
    t.Resumed? || t.AllocScan? || t.ExitScan? || t.WaitScan? || t.WaitFreed? || t.Leaving?
  }

  predicate HoldsLock(s: Table, c: nat)
    requires Shape(s) && c < |s.cpus|
  {
    var cpu := s.cpus[c];
    || cpu.mode.Scanning? || cpu.mode.Switching? || cpu.mode.Back?
    || (cpu.mode.InProc? && cpu.proc.Some? && LockedThread(s.threads[cpu.proc.value]))
  }

  /** ptable.lock is held by the CPU whose code is inside it. */
  ghost predicate LockOk(s: Table)
    requires Shape(s)
  {
    && (forall c :: 0 <= c < |s.cpus| ==> (HoldsLock(s, c) <==> s.lock == Some(c)))
    && (s.lock.Some? ==> s.lock.value < |s.cpus|)
  }

  /** The state a process has given itself before it calls sched. */
  predicate Left(why: Why, state: PState) {
    match why
    case FromFork => false
    case FromYield => state.Runnable?
    case Mid(_, _) => state.Runnable?
    case FromSleep => state.Sleeping?
    case FromWait => state.Sleeping?
    case Dead => state.Zombie?
  }

  predicate CpuOk(s: Table, c: nat)
    requires Shape(s) && c < |s.cpus|
  {
    var proc := s.cpus[c].proc;
    match s.cpus[c].mode
    case Idle => proc.None?
    case Scanning(_) => proc.None?
    case Switching => proc.Some? && s.procs[proc.value].state.Running? && s.threads[proc.value].Parked? &&
      !s.threads[proc.value].why.Dead?
    case Back => proc.Some? && s.threads[proc.value].Parked? && Left(s.threads[proc.value].why, s.procs[proc.value].state)
    case InProc =>
      proc.Some? &&
      var t := s.threads[proc.value];
      !t.Parked? && (t.Resumed? ==> !t.why.Dead?)
      && if t.Leaving? then Left(t.why, s.procs[proc.value].state) else s.procs[proc.value].state.Running?
  }

  predicate OnCpu(s: Table, p: nat, c: nat) {
    c < |s.cpus| && s.cpus[c].proc == Some(p)
  }

  /** State and thread of a slot agree. */
  predicate SlotOk(s: Table, p: nat)
    requires Shape(s) && p < |s.procs|
  {
    var t := s.threads[p];
    match s.procs[p].state
    case Unused => t.Parked? && !t.why.Mid?
    case Embryo => t == Parked(FromFork)
    case Runnable => (t.Parked? || t.Leaving?) && !t.why.Dead?
    case Sleeping => (t.Parked? || t.Leaving?) && (t.why.FromSleep? || t.why.FromWait?)
    case Zombie => (t.Parked? || t.Leaving?) && t.why.Dead?
    case Running => (t.Parked? || t.Resumed?) ==> !t.why.Dead?
  }

  /** A running process, and a thread that is not parked, is on a CPU. */
  ghost predicate Placed(s: Table, p: nat)
    requires Shape(s) && p < |s.procs|
  {
    s.procs[p].state.Running? || !s.threads[p].Parked? ==> exists c :: OnCpu(s, p, c)
  }

  ghost predicate OneCpuEach(s: Table) {
    forall c, d :: 0 <= c < d < |s.cpus| && s.cpus[c].proc.Some? ==> s.cpus[c].proc != s.cpus[d].proc
  }

  ghost predicate CpuInv(s: Table) {
    && Shape(s) && LockOk(s) && OneCpuEach(s)
    && (forall c :: 0 <= c < |s.cpus| ==> CpuOk(s, c))
    && (forall p :: 0 <= p < |s.procs| ==> SlotOk(s, p) && Placed(s, p))
  }

  /** With the lock held by `d`, only `d` can be on a process that is not running. */
  lemma HolderOnly(s: Table, d: nat, p: nat, c: nat)
    requires CpuInv(s) && d < |s.cpus| && s.lock == Some(d) && p < |s.procs| && !s.procs[p].state.Running? && OnCpu(s, p, c)
    ensures c == d
  {
    assert CpuOk(s, c) && (HoldsLock(s, c) <==> s.lock == Some(c));
  }

  lemma SchedLock(s: Table, c: nat, e: Event)
    requires CpuInv(s) && c < |s.cpus| && SchedEvent(e) && SchedEnabled(s, c, e)
    ensures var s' := SchedNext(s, c, e); LockOk(s') && OneCpuEach(s')
  {
    var s' := SchedNext(s, c, e);
    assert CpuOk(s, c);
    forall d | 0 <= d < |s.cpus| ensures HoldsLock(s', d) <==> s'.lock == Some(d) {
      assert HoldsLock(s, d) <==> s.lock == Some(d);
      assert HoldsLock(s, c) <==> s.lock == Some(c);
      assert CpuOk(s, d);
    }
    if e.SchedPick? {
      forall d | 0 <= d < |s.cpus| && d != c ensures s.cpus[d].proc != Some(s.cpus[c].mode.i) {
        if s.cpus[d].proc == Some(s.cpus[c].mode.i) {
          assert HoldsLock(s, c);
          HolderOnly(s, c, s.cpus[c].mode.i, d);
        }
      }
    }
  }

  lemma SchedCpus(s: Table, c: nat, e: Event, d: nat)
    requires CpuInv(s) && c < |s.cpus| && SchedEvent(e) && SchedEnabled(s, c, e) && d < |s.cpus|
    ensures CpuOk(SchedNext(s, c, e), d)
  {
    assert CpuOk(s, d) && CpuOk(s, c);
    assert HoldsLock(s, c) <==> s.lock == Some(c);
    if e.SchedPick? && d != c && s.cpus[d].proc == Some(s.cpus[c].mode.i) {
      HolderOnly(s, c, s.cpus[c].mode.i, d);
    }
    if e.SchedPick? {
      var i := s.cpus[c].mode.i;
      assert SlotOk(s, i) && Placed(s, i);
      if !s.threads[i].Parked? {
        var b :| OnCpu(s, i, b);
        HolderOnly(s, c, i, b);
      }
    }
    assert HoldsLock(s, d) <==> s.lock == Some(d);
  }

  lemma SchedSlots(s: Table, c: nat, e: Event, p: nat)
    requires CpuInv(s) && c < |s.cpus| && SchedEvent(e) && SchedEnabled(s, c, e) && p < |s.procs|
    ensures SlotOk(SchedNext(s, c, e), p) && Placed(SchedNext(s, c, e), p)
  {
    var s' := SchedNext(s, c, e);
    assert SlotOk(s, p) && Placed(s, p) && CpuOk(s, c);
    if s'.procs[p].state.Running? || !s'.threads[p].Parked? {
      if s'.cpus[c].proc == Some(p) {
        assert OnCpu(s', p, c);
      } else {
        var d :| OnCpu(s, p, d);
        assert OnCpu(s', p, d);
      }
    }
  }

  // ---------- fork ----------

  predicate HasStack(s: Table, p: nat)
    requires p < |s.procs|
  {
    s.procs[p].kstack in s.stacks && s.stacks[s.procs[p].kstack] == p
  }

  /** The slot that a thread is forking, in progress or preempted, and how far it has come. */
  function ForkOf(t: Thread): Option<(nat, Stage)> {
    if t.Forking? then Some((t.child, t.stage))
    else if (t.Parked? || t.Resumed? || t.Leaving?) && t.why.Mid? then Some((t.why.child, t.why.stage))
    else None
  }

  predicate StageOk(s: Table, q: nat)
    requires Shape(s) && q < |s.procs|
  {
    ForkOf(s.threads[q]).Some? ==>
      var child := ForkOf(s.threads[q]).value.0;
      && child < |s.procs| && s.procs[child].state.Embryo?
      && match ForkOf(s.threads[q]).value.1
         case Claimed => s.procs[child].kstack == 0 && s.procs[child].parent.None?
         case Stacked => HasStack(s, child) && s.procs[child].parent.None?
         case Parented => HasStack(s, child) && s.procs[child].parent == Some(q)
         case Freed => !HasStack(s, child) && s.procs[child].parent.None?
         case Cleared => s.procs[child].kstack == 0 && s.procs[child].parent.None?
  }

  ghost predicate DistinctForks(threads: seq<Thread>) {
    forall q, r :: 0 <= q < r < |threads| && ForkOf(threads[q]).Some? && ForkOf(threads[r]).Some? ==>
      ForkOf(threads[q]).value.0 != ForkOf(threads[r]).value.0
  }

  /** Each fork works on a slot of its own. */
  ghost predicate ForkInv(s: Table)
    requires Shape(s)
  {
    && (forall q :: 0 <= q < |s.procs| ==> StageOk(s, q))
    && DistinctForks(s.threads)
  }

  predicate Reaping(s: Table, q: nat, p: nat) {
    q < |s.threads| && s.threads[q] == WaitFreed(p)
  }

  predicate ReapOk(s: Table, q: nat)
    requires Shape(s) && q < |s.procs|
  {
    s.threads[q].WaitFreed? ==>
      var i := s.threads[q].i;
      i < |s.procs| && s.procs[i].state.Zombie? && s.procs[i].parent == Some(q) && !HasStack(s, i)
  }

  predicate PageOk(s: Table, page: nat) {
    page in s.stacks ==>
      page > 0 && s.stacks[page] < |s.procs| && s.procs[s.stacks[page]].kstack == page && !s.procs[s.stacks[page]].state.Unused?
  }

  /** Every allocated stack belongs to the slot that points to it; every process has one until it is reaped. */
  ghost predicate StackInv(s: Table)
    requires Shape(s)
  {
    && (forall page: nat :: PageOk(s, page))
    && (forall p :: 0 <= p < |s.procs| ==> StackOk(s, p) && ReapOk(s, p))
  }

  ghost predicate StackOk(s: Table, p: nat)
    requires Shape(s) && p < |s.procs|
  {
    match s.procs[p].state
    case Unused => s.procs[p].kstack == 0 && s.procs[p].parent.None?
    case Embryo => true
    case Zombie => HasStack(s, p) || exists q :: Reaping(s, q, p)
    case _ => HasStack(s, p)
  }

  // ---------- steps of other CPUs ----------

  /** A thread inside the lock is on the CPU that holds it. */
  lemma InsideLock(s: Table, q: nat)
    requires CpuInv(s) && q < |s.procs| && LockedThread(s.threads[q])
    ensures s.lock.Some? && OnCpu(s, q, s.lock.value)
  {
    assert Placed(s, q);
    var d: nat :| OnCpu(s, q, d);
    assert CpuOk(s, d) && HoldsLock(s, d) && s.lock == Some(d);
  }

  lemma SelfLock(s: Table, c: nat, e: Event)
    requires CpuInv(s) && Runs(s, c) && SelfEnabled(s, c, e)
    ensures LockOk(SelfNext(s, c, e)) && OneCpuEach(SelfNext(s, c, e))
  {
    hide SlotOk, Placed, WakeAll, Left;
    var s' := SelfNext(s, c, e);
    assert CpuOk(s, c) && (HoldsLock(s, c) <==> s.lock == Some(c));
    forall d | 0 <= d < |s.cpus| ensures HoldsLock(s', d) <==> s'.lock == Some(d) {
      assert HoldsLock(s, d) <==> s.lock == Some(d);
      assert CpuOk(s, d);
      assert d != c ==> s.cpus[d].proc != s.cpus[c].proc;
    }
  }

  lemma ForkLock(s: Table, c: nat, e: Event)
    requires CpuInv(s) && Runs(s, c) && ForkEnabled(s, c, e)
    ensures LockOk(ForkNext(s, c, e)) && OneCpuEach(ForkNext(s, c, e))
  {
    hide SlotOk, Placed, WakeAll, Left;
    var s' := ForkNext(s, c, e);
    assert CpuOk(s, c) && (HoldsLock(s, c) <==> s.lock == Some(c));
    forall d | 0 <= d < |s.cpus| ensures HoldsLock(s', d) <==> s'.lock == Some(d) {
      assert HoldsLock(s, d) <==> s.lock == Some(d);
      assert CpuOk(s, d);
      assert d != c ==> s.cpus[d].proc != s.cpus[c].proc;
    }
  }

  lemma FamilyLock(s: Table, c: nat, e: Event)
    requires CpuInv(s) && Runs(s, c) && FamilyEnabled(s, c, e)
    ensures LockOk(FamilyNext(s, c, e)) && OneCpuEach(FamilyNext(s, c, e))
  {
    hide SlotOk, Placed, WakeAll, Left;
    var s' := FamilyNext(s, c, e);
    assert CpuOk(s, c) && (HoldsLock(s, c) <==> s.lock == Some(c));
    forall d | 0 <= d < |s.cpus| ensures HoldsLock(s', d) <==> s'.lock == Some(d) {
      assert HoldsLock(s, d) <==> s.lock == Some(d);
      assert CpuOk(s, d);
      assert d != c ==> s.cpus[d].proc != s.cpus[c].proc;
    }
  }

  lemma SelfCpus(s: Table, c: nat, e: Event, d: nat)
    requires CpuInv(s) && Runs(s, c) && SelfEnabled(s, c, e) && d < |s.cpus|
    ensures CpuOk(SelfNext(s, c, e), d)
  {
    assert CpuOk(s, d) && CpuOk(s, c);
    assert HoldsLock(s, c) <==> s.lock == Some(c);
    assert HoldsLock(s, d) <==> s.lock == Some(d);
    assert d != c ==> s.cpus[d].proc != s.cpus[c].proc;
  }

  lemma ForkCpus(s: Table, c: nat, e: Event, d: nat)
    requires CpuInv(s) && ForkInv(s) && Runs(s, c) && ForkEnabled(s, c, e) && d < |s.cpus|
    ensures CpuOk(ForkNext(s, c, e), d)
  {
    var me := Me(s, c);
    assert CpuOk(s, d) && CpuOk(s, c) && StageOk(s, me);
    assert HoldsLock(s, c) <==> s.lock == Some(c);
    assert HoldsLock(s, d) <==> s.lock == Some(d);
    assert d != c ==> s.cpus[d].proc != s.cpus[c].proc;
  }

  lemma FamilyCpus(s: Table, c: nat, e: Event, d: nat)
    requires CpuInv(s) && StackInv(s) && Runs(s, c) && FamilyEnabled(s, c, e) && d < |s.cpus|
    ensures CpuOk(FamilyNext(s, c, e), d)
  {
    var me := Me(s, c);
    assert CpuOk(s, d) && CpuOk(s, c) && ReapOk(s, me);
    assert HoldsLock(s, c) <==> s.lock == Some(c);
    assert HoldsLock(s, d) <==> s.lock == Some(d);
    assert d != c ==> s.cpus[d].proc != s.cpus[c].proc;
  }

  lemma SelfSlots(s: Table, c: nat, e: Event, p: nat)
    requires CpuInv(s) && Runs(s, c) && SelfEnabled(s, c, e) && p < |s.procs|
    ensures SlotOk(SelfNext(s, c, e), p)
  {
    assert SlotOk(s, p) && SlotOk(s, Me(s, c)) && CpuOk(s, c);
    assert HoldsLock(s, c) <==> s.lock == Some(c);
  }

  lemma ForkSlots(s: Table, c: nat, e: Event, p: nat)
    requires CpuInv(s) && ForkInv(s) && Runs(s, c) && ForkEnabled(s, c, e) && p < |s.procs|
    ensures SlotOk(ForkNext(s, c, e), p)
  {
    assert SlotOk(s, p) && SlotOk(s, Me(s, c)) && CpuOk(s, c) && StageOk(s, Me(s, c));
  }

  lemma FamilySlots(s: Table, c: nat, e: Event, p: nat)
    requires CpuInv(s) && StackInv(s) && Runs(s, c) && FamilyEnabled(s, c, e) && p < |s.procs|
    ensures SlotOk(FamilyNext(s, c, e), p)
  {
    var me := Me(s, c);
    assert SlotOk(s, p) && Placed(s, p) && SlotOk(s, me) && CpuOk(s, c) && ReapOk(s, me);
    assert HoldsLock(s, c) <==> s.lock == Some(c);
    if e.WaitReap? && p == s.threads[me].i && !s.threads[p].Parked? {
      var d: nat :| OnCpu(s, p, d);
      HolderOnly(s, c, p, d);
    }
  }

  lemma SelfPlaced(s: Table, c: nat, e: Event, p: nat)
    requires CpuInv(s) && Runs(s, c) && SelfEnabled(s, c, e) && p < |s.procs|
    ensures Placed(SelfNext(s, c, e), p)
  {
    hide SlotOk, LockOk, OneCpuEach;
    var s', me := SelfNext(s, c, e), Me(s, c);
    assert Placed(s, p);
    if s'.procs[p].state.Running? || !s'.threads[p].Parked? {
      if p == me {
        assert OnCpu(s', p, c);
      } else {
        var d: nat :| OnCpu(s, p, d);
        assert OnCpu(s', p, d);
      }
    }
  }

  lemma ForkPlaced(s: Table, c: nat, e: Event, p: nat)
    requires CpuInv(s) && ForkInv(s) && Runs(s, c) && ForkEnabled(s, c, e) && p < |s.procs|
    ensures Placed(ForkNext(s, c, e), p)
  {
    hide SlotOk, LockOk, OneCpuEach;
    var s', me := ForkNext(s, c, e), Me(s, c);
    assert Placed(s, p) && StageOk(s, me);
    if s'.procs[p].state.Running? || !s'.threads[p].Parked? {
      if p == me {
        assert OnCpu(s', p, c);
      } else {
        var d: nat :| OnCpu(s, p, d);
        assert OnCpu(s', p, d);
      }
    }
  }

  lemma FamilyPlaced(s: Table, c: nat, e: Event, p: nat)
    requires CpuInv(s) && Runs(s, c) && FamilyEnabled(s, c, e) && p < |s.procs|
    ensures Placed(FamilyNext(s, c, e), p)
  {
    hide SlotOk, LockOk, OneCpuEach;
    var s', me := FamilyNext(s, c, e), Me(s, c);
    assert Placed(s, p);
    if s'.procs[p].state.Running? || !s'.threads[p].Parked? {
      if p == me {
        assert OnCpu(s', p, c);
      } else {
        var d: nat :| OnCpu(s, p, d);
        assert OnCpu(s', p, d);
      }
    }
  }

  lemma CpuKept(s: Table, c: nat, e: Event)
    requires CpuInv(s) && ForkInv(s) && StackInv(s) && Enabled(s, c, e)
    ensures CpuInv(Next(s, c, e))
  {
    assert Shape(s);
    hide CpuOk, SlotOk, Placed, LockOk, OneCpuEach, ForkInv, StackInv, SchedEnabled, SelfEnabled, ForkEnabled,
         FamilyEnabled, SchedNext, SelfNext, ForkNext, FamilyNext;
    var s' := Next(s, c, e);
    if SchedEvent(e) {
      SchedLock(s, c, e);
    } else if ForkEvent(e) {
      ForkLock(s, c, e);
    } else if FamilyEvent(e) {
      FamilyLock(s, c, e);
    } else {
      SelfLock(s, c, e);
    }
    forall d | 0 <= d < |s'.cpus| ensures CpuOk(s', d) {
      if SchedEvent(e) {
        SchedCpus(s, c, e, d);
      } else if ForkEvent(e) {
        ForkCpus(s, c, e, d);
      } else if FamilyEvent(e) {
        FamilyCpus(s, c, e, d);
      } else {
        SelfCpus(s, c, e, d);
      }
    }
    forall p | 0 <= p < |s'.procs| ensures SlotOk(s', p) && Placed(s', p) {
      if SchedEvent(e) {
        SchedSlots(s, c, e, p);
      } else if ForkEvent(e) {
        ForkSlots(s, c, e, p);
        ForkPlaced(s, c, e, p);
      } else if FamilyEvent(e) {
        FamilySlots(s, c, e, p);
        FamilyPlaced(s, c, e, p);
      } else {
        SelfSlots(s, c, e, p);
        SelfPlaced(s, c, e, p);
      }
    }
  }

  // ---------- fork and stacks are kept ----------

  lemma SchedStage(s: Table, c: nat, e: Event, q: nat)
    requires CpuInv(s) && ForkInv(s) && c < |s.cpus| && SchedEvent(e) && SchedEnabled(s, c, e) && q < |s.procs|
    ensures StageOk(SchedNext(s, c, e), q)
  {
    assert StageOk(s, q) && CpuOk(s, c);
  }

  /** wait finds a zombie whose stack has not been freed, and no CPU is on it. */
  lemma FoundOnce(s: Table, c: nat)
    requires CpuInv(s) && StackInv(s) && Runs(s, c) && ProcEnabled(s, c, WaitFound)
    ensures var i := s.threads[Me(s, c)].i;
            HasStack(s, i) && i != Me(s, c) && forall d :: 0 <= d < |s.cpus| ==> s.cpus[d].proc != Some(i)
  {
    var me := Me(s, c);
    var i := s.threads[me].i;
    assert CpuOk(s, c) && StackOk(s, i);
    assert HoldsLock(s, c) && s.lock == Some(c);
    if !HasStack(s, i) {
      var q: nat :| Reaping(s, q, i);
      InsideLock(s, q);
    }
    forall d | 0 <= d < |s.cpus| ensures s.cpus[d].proc != Some(i) {
      if s.cpus[d].proc == Some(i) {
        HolderOnly(s, c, i, d);
      }
    }
  }

  lemma StageFrame(s: Table, s': Table, q: nat)
    requires Shape(s) && Shape(s') && q < |s.procs| == |s'.procs| && StageOk(s, q)
    requires ForkOf(s'.threads[q]) == ForkOf(s.threads[q])
    requires ForkOf(s.threads[q]).Some? ==>
               var child := ForkOf(s.threads[q]).value.0;
               s'.procs[child] == s.procs[child] && HasStack(s', child) == HasStack(s, child)
    ensures StageOk(s', q)
  {
  }

  lemma SelfStage(s: Table, c: nat, e: Event, q: nat)
    requires CpuInv(s) && ForkInv(s) && Runs(s, c) && SelfEnabled(s, c, e) && q < |s.procs|
    ensures StageOk(SelfNext(s, c, e), q)
  {
    assert StageOk(s, q) && CpuOk(s, c) && SlotOk(s, Me(s, c));
    if q != Me(s, c) || ForkOf(s.threads[q]).Some? {
      StageFrame(s, SelfNext(s, c, e), q);
    }
  }

  lemma FamilyStage(s: Table, c: nat, e: Event, q: nat)
    requires CpuInv(s) && ForkInv(s) && StackInv(s) && Runs(s, c) && FamilyEnabled(s, c, e) && q < |s.procs|
    ensures StageOk(FamilyNext(s, c, e), q)
  {
    var me := Me(s, c);
    assert StageOk(s, q) && CpuOk(s, c) && SlotOk(s, me) && ReapOk(s, me);
    if e.WaitFound? {
      FoundOnce(s, c);
    }
    if q != me {
      StageFrame(s, FamilyNext(s, c, e), q);
    }
  }

  lemma ForkStage(s: Table, c: nat, e: Event, q: nat)
    requires CpuInv(s) && ForkInv(s) && StackInv(s) && Runs(s, c) && ForkEnabled(s, c, e) && q < |s.procs|
    ensures StageOk(ForkNext(s, c, e), q)
  {
    var me := Me(s, c);
    assert StageOk(s, q) && StageOk(s, me) && CpuOk(s, c) && SlotOk(s, me);
    if e.AllocTake? {
      assert StackOk(s, s.threads[me].i);
    }
    if q != me && (e.AllocTake? ==> q != s.threads[me].i) {
      StageFrame(s, ForkNext(s, c, e), q);
    }
  }

  lemma SchedChildren(s: Table, c: nat, e: Event)
    requires CpuInv(s) && ForkInv(s) && c < |s.cpus| && SchedEnabled(s, c, e)
    ensures DistinctForks(SchedNext(s, c, e).threads)
  {
    assert CpuOk(s, c);
  }

  lemma SelfChildren(s: Table, c: nat, e: Event)
    requires CpuInv(s) && ForkInv(s) && Runs(s, c) && SelfEnabled(s, c, e)
    ensures DistinctForks(SelfNext(s, c, e).threads)
  {
    hide CpuInv, StageOk;
    assert DistinctForks(s.threads);
  }

  lemma FamilyChildren(s: Table, c: nat, e: Event)
    requires CpuInv(s) && ForkInv(s) && Runs(s, c) && FamilyEnabled(s, c, e)
    ensures DistinctForks(FamilyNext(s, c, e).threads)
  {
    hide CpuInv, StageOk;
    assert DistinctForks(s.threads);
  }

  lemma ForkChildren(s: Table, c: nat, e: Event)
    requires CpuInv(s) && ForkInv(s) && Runs(s, c) && ForkEnabled(s, c, e)
    ensures DistinctForks(ForkNext(s, c, e).threads)
  {
    if e.AllocTake? {
      forall q | 0 <= q < |s.procs| && ForkOf(s.threads[q]).Some?
        ensures ForkOf(s.threads[q]).value.0 != s.threads[Me(s, c)].i
      {
        assert StageOk(s, q);
      }
    }
  }

  lemma ForkKept(s: Table, c: nat, e: Event)
    requires CpuInv(s) && ForkInv(s) && StackInv(s) && Enabled(s, c, e)
    ensures ForkInv(Next(s, c, e))
  {
    assert Shape(s);
    hide CpuInv, StackInv, StageOk, SchedEnabled, SelfEnabled, ForkEnabled, FamilyEnabled, SchedNext, SelfNext,
         ForkNext, FamilyNext, DistinctForks;
    var s' := Next(s, c, e);
    if SchedEvent(e) {
      SchedChildren(s, c, e);
    } else if ForkEvent(e) {
      ForkChildren(s, c, e);
    } else if FamilyEvent(e) {
      FamilyChildren(s, c, e);
    } else {
      SelfChildren(s, c, e);
    }
    forall q | 0 <= q < |s'.procs| ensures StageOk(s', q) {
      if SchedEvent(e) {
        SchedStage(s, c, e, q);
      } else if ForkEvent(e) {
        ForkStage(s, c, e, q);
      } else if FamilyEvent(e) {
        FamilyStage(s, c, e, q);
      } else {
        SelfStage(s, c, e, q);
      }
    }
  }

  lemma SchedPages(s: Table, c: nat, e: Event, page: nat)
    requires CpuInv(s) && StackInv(s) && c < |s.cpus| && SchedEnabled(s, c, e)
    ensures PageOk(SchedNext(s, c, e), page)
  {
    assert PageOk(s, page);
  }

  lemma SelfPages(s: Table, c: nat, e: Event, page: nat)
    requires CpuInv(s) && StackInv(s) && Runs(s, c) && SelfEnabled(s, c, e)
    ensures PageOk(SelfNext(s, c, e), page)
  {
    assert PageOk(s, page) && CpuOk(s, c);
  }

  lemma ForkPages(s: Table, c: nat, e: Event, page: nat)
    requires CpuInv(s) && ForkInv(s) && StackInv(s) && Runs(s, c) && ForkEnabled(s, c, e)
    ensures PageOk(ForkNext(s, c, e), page)
  {
    var me := Me(s, c);
    assert PageOk(s, page) && CpuOk(s, c) && StageOk(s, me);
    if e.AllocTake? {
      assert StackOk(s, s.threads[me].i);
    }
  }

  lemma FamilyPages(s: Table, c: nat, e: Event, page: nat)
    requires CpuInv(s) && StackInv(s) && Runs(s, c) && FamilyEnabled(s, c, e)
    ensures PageOk(FamilyNext(s, c, e), page)
  {
    assert PageOk(s, page) && CpuOk(s, c) && ReapOk(s, Me(s, c));
  }

  lemma SchedStack(s: Table, c: nat, e: Event, p: nat)
    requires CpuInv(s) && StackInv(s) && c < |s.cpus| && SchedEvent(e) && SchedEnabled(s, c, e) && p < |s.procs|
    ensures StackOk(SchedNext(s, c, e), p) && ReapOk(SchedNext(s, c, e), p)
  {
    var s' := SchedNext(s, c, e);
    assert StackOk(s, p) && ReapOk(s, p) && CpuOk(s, c);
    if s.procs[p].state.Zombie? && !HasStack(s, p) {
      var q: nat :| Reaping(s, q, p);
      assert Reaping(s', q, p);
    }
  }

  lemma SelfStack(s: Table, c: nat, e: Event, p: nat)
    requires CpuInv(s) && StackInv(s) && Runs(s, c) && SelfEnabled(s, c, e) && p < |s.procs|
    ensures StackOk(SelfNext(s, c, e), p) && ReapOk(SelfNext(s, c, e), p)
  {
    hide OneCpuEach, Placed, SlotOk;
    var s', me := SelfNext(s, c, e), Me(s, c);
    assert StackOk(s, p) && ReapOk(s, p) && CpuOk(s, c) && StackOk(s, me);
    if s.procs[p].state.Zombie? && !HasStack(s, p) {
      var q: nat :| Reaping(s, q, p);
      assert Reaping(s', q, p);
    }
  }

  lemma FamilyStack(s: Table, c: nat, e: Event, p: nat)
    requires CpuInv(s) && StackInv(s) && Runs(s, c) && FamilyEnabled(s, c, e) && p < |s.procs|
    ensures StackOk(FamilyNext(s, c, e), p) && ReapOk(FamilyNext(s, c, e), p)
  {
    hide LockOk, OneCpuEach, Placed, SlotOk;
    var s', me := FamilyNext(s, c, e), Me(s, c);
    assert StackOk(s, p) && ReapOk(s, p) && CpuOk(s, c) && ReapOk(s, me) && StackOk(s, me);
    if e.WaitFound? {
      FoundOnce(s, c);
      assert Reaping(s', me, s.threads[me].i);
    }
    if s.procs[p].state.Zombie? && !HasStack(s, p) {
      var q: nat :| Reaping(s, q, p);
      assert q != me ==> Reaping(s', q, p);
    }
    if s.threads[p].WaitFreed? && p != me {
      InsideLock(s, p);
    }
  }

  lemma ForkStack(s: Table, c: nat, e: Event, p: nat)
    requires CpuInv(s) && ForkInv(s) && StackInv(s) && Runs(s, c) && ForkEnabled(s, c, e) && p < |s.procs|
    ensures StackOk(ForkNext(s, c, e), p) && ReapOk(ForkNext(s, c, e), p)
  {
    hide LockOk, OneCpuEach, Placed;
    var s', me := ForkNext(s, c, e), Me(s, c);
    assert StackOk(s, p) && ReapOk(s, p) && CpuOk(s, c) && StageOk(s, me) && StackOk(s, me);
    if s.procs[p].state.Zombie? && !HasStack(s, p) {
      var q: nat :| Reaping(s, q, p);
      assert SlotOk(s, q);
      assert q != me && Reaping(s', q, p);
    }
  }

  lemma StackKept(s: Table, c: nat, e: Event)
    requires CpuInv(s) && ForkInv(s) && StackInv(s) && Enabled(s, c, e)
    ensures StackInv(Next(s, c, e))
  {
    assert Shape(s);
    hide CpuInv, ForkInv, PageOk, StackOk, ReapOk, SchedEnabled, SelfEnabled, ForkEnabled, FamilyEnabled, SchedNext,
         SelfNext, ForkNext, FamilyNext;
    var s' := Next(s, c, e);
    forall page: nat ensures PageOk(s', page) {
      if SchedEvent(e) {
        SchedPages(s, c, e, page);
      } else if ForkEvent(e) {
        ForkPages(s, c, e, page);
      } else if FamilyEvent(e) {
        FamilyPages(s, c, e, page);
      } else {
        SelfPages(s, c, e, page);
      }
    }
    forall p | 0 <= p < |s'.procs| ensures StackOk(s', p) && ReapOk(s', p) {
      if SchedEvent(e) {
        SchedStack(s, c, e, p);
      } else if ForkEvent(e) {
        ForkStack(s, c, e, p);
      } else if FamilyEvent(e) {
        FamilyStack(s, c, e, p);
      } else {
        SelfStack(s, c, e, p);
      }
    }
  }

  // ---------- pids ----------

  /** Live processes have different pids, all handed out before. */
  ghost predicate PidInv(s: Table) {
    && s.nextpid > 0
    && (forall p :: 0 <= p < |s.procs| && !s.procs[p].state.Unused? ==> 0 < s.procs[p].pid < s.nextpid)
    && (forall p, q :: 0 <= p < q < |s.procs| && !s.procs[p].state.Unused? && !s.procs[q].state.Unused? ==>
      s.procs[p].pid != s.procs[q].pid)
  }

  /** Slot `p` was in use with the same pid, if it is in use. */
  predicate PidSame(s: Table, s': Table, p: nat)
    requires p < |s.procs| == |s'.procs|
  {
    s'.nextpid == s.nextpid && (!s'.procs[p].state.Unused? ==> !s.procs[p].state.Unused? && s'.procs[p].pid == s.procs[p].pid)
  }

  lemma SchedPids(s: Table, c: nat, e: Event, p: nat)
    requires CpuInv(s) && c < |s.cpus| && SchedEnabled(s, c, e) && p < |s.procs|
    ensures PidSame(s, SchedNext(s, c, e), p)
  {
  }

  lemma SelfPids(s: Table, c: nat, e: Event, p: nat)
    requires CpuInv(s) && Runs(s, c) && SelfEnabled(s, c, e) && p < |s.procs|
    ensures PidSame(s, SelfNext(s, c, e), p)
  {
    assert CpuOk(s, c);
  }

  lemma ForkPids(s: Table, c: nat, e: Event, p: nat)
    requires CpuInv(s) && ForkInv(s) && Runs(s, c) && ForkEnabled(s, c, e) && p < |s.procs| && !e.AllocTake?
    ensures PidSame(s, ForkNext(s, c, e), p)
  {
    assert CpuOk(s, c) && StageOk(s, Me(s, c));
  }

  lemma FamilyPids(s: Table, c: nat, e: Event, p: nat)
    requires CpuInv(s) && Runs(s, c) && FamilyEnabled(s, c, e) && p < |s.procs|
    ensures PidSame(s, FamilyNext(s, c, e), p)
  {
    assert CpuOk(s, c);
  }

  lemma PidsFrom(s: Table, s': Table)
    requires PidInv(s) && |s'.procs| == |s.procs| && s'.nextpid == s.nextpid
    requires forall p :: 0 <= p < |s.procs| ==> PidSame(s, s', p)
    ensures PidInv(s')
  {
    forall p | 0 <= p < |s.procs| && !s'.procs[p].state.Unused?
      ensures !s.procs[p].state.Unused? && s'.procs[p].pid == s.procs[p].pid
    {
      assert PidSame(s, s', p);
    }
  }

  lemma NewPid(s: Table, c: nat)
    requires Shape(s) && PidInv(s) && Runs(s, c) && ForkEnabled(s, c, AllocTake)
    ensures PidInv(ForkNext(s, c, AllocTake))
  {
  }

  lemma PidKept(s: Table, c: nat, e: Event)
    requires CpuInv(s) && ForkInv(s) && PidInv(s) && Enabled(s, c, e)
    ensures PidInv(Next(s, c, e))
  {
    assert Shape(s);
    hide CpuInv, ForkInv, PidInv, SchedEnabled, SelfEnabled, ForkEnabled, FamilyEnabled, SchedNext, SelfNext,
         ForkNext, FamilyNext;
    if e.AllocTake? {
      NewPid(s, c);
    } else {
      forall p | 0 <= p < |s.procs| ensures PidSame(s, Next(s, c, e), p) {
        if SchedEvent(e) {
          SchedPids(s, c, e, p);
        } else if ForkEvent(e) {
          ForkPids(s, c, e, p);
        } else if FamilyEvent(e) {
          FamilyPids(s, c, e, p);
        } else {
          SelfPids(s, c, e, p);
        }
      }
      assert PidSame(s, Next(s, c, e), s.init);
      PidsFrom(s, Next(s, c, e));
    }
  }

  // ---------- parents ----------

  predicate Alive(state: PState) {
    state.Sleeping? || state.Runnable? || state.Running?
  }

  predicate ParentOk(s: Table, p: nat)
    requires Shape(s) && p < |s.procs|
  {
    s.procs[p].parent.Some? ==>
      var q := s.procs[p].parent.value;
      q < |s.procs| && q != p && p != s.init && Alive(s.procs[q].state)
  }

  /** exit has handed over the children it has passed. */
  ghost predicate HandedOver(s: Table, p: nat)
    requires Shape(s) && p < |s.procs|
  {
    s.threads[p].ExitScan? ==> p != s.init && forall j :: 0 <= j < |s.procs| && j < s.threads[p].i ==>
      s.procs[j].parent != Some(p)
  }

  ghost predicate ParentInv(s: Table)
    requires Shape(s)
  {
    && Alive(s.procs[s.init].state)
    && (forall p :: 0 <= p < |s.procs| ==> ParentOk(s, p) && HandedOver(s, p))
  }

  lemma SchedParents(s: Table, c: nat, e: Event, p: nat)
    requires CpuInv(s) && ParentInv(s) && c < |s.cpus| && SchedEvent(e) && SchedEnabled(s, c, e) && p < |s.procs|
    ensures ParentOk(SchedNext(s, c, e), p) && Alive(SchedNext(s, c, e).procs[s.init].state)
  {
    assert ParentOk(s, p) && CpuOk(s, c);
  }

  lemma SelfParents(s: Table, c: nat, e: Event, p: nat)
    requires CpuInv(s) && ParentInv(s) && Runs(s, c) && SelfEnabled(s, c, e) && p < |s.procs|
    ensures ParentOk(SelfNext(s, c, e), p) && Alive(SelfNext(s, c, e).procs[s.init].state)
  {
    hide SlotOk, Placed, LockOk, OneCpuEach;
    assert ParentOk(s, p) && CpuOk(s, c);
  }

  lemma ForkParents(s: Table, c: nat, e: Event, p: nat)
    requires CpuInv(s) && ForkInv(s) && ParentInv(s) && Runs(s, c) && ForkEnabled(s, c, e) && p < |s.procs|
    ensures ParentOk(ForkNext(s, c, e), p) && Alive(ForkNext(s, c, e).procs[s.init].state)
  {
    hide SlotOk, Placed, LockOk, OneCpuEach;
    assert ParentOk(s, p) && CpuOk(s, c) && StageOk(s, Me(s, c));
  }

  lemma FamilyParents(s: Table, c: nat, e: Event, p: nat)
    requires CpuInv(s) && StackInv(s) && ParentInv(s) && Runs(s, c) && FamilyEnabled(s, c, e) && p < |s.procs|
    ensures ParentOk(FamilyNext(s, c, e), p) && Alive(FamilyNext(s, c, e).procs[s.init].state)
  {
    hide SlotOk, Placed, LockOk, OneCpuEach;
    var me := Me(s, c);
    assert ParentOk(s, p) && CpuOk(s, c) && ReapOk(s, me) && HandedOver(s, me);
    if e.ExitNext? {
      assert ParentOk(s, s.threads[me].i);
    }
  }

  lemma SchedHanded(s: Table, c: nat, e: Event, p: nat)
    requires CpuInv(s) && ParentInv(s) && c < |s.cpus| && SchedEvent(e) && SchedEnabled(s, c, e) && p < |s.procs|
    ensures HandedOver(SchedNext(s, c, e), p)
  {
    assert HandedOver(s, p) && CpuOk(s, c);
  }

  lemma SelfHanded(s: Table, c: nat, e: Event, p: nat)
    requires CpuInv(s) && ParentInv(s) && Runs(s, c) && SelfEnabled(s, c, e) && p < |s.procs|
    ensures HandedOver(SelfNext(s, c, e), p)
  {
    assert HandedOver(s, p) && CpuOk(s, c);
    assert HoldsLock(s, c) <==> s.lock == Some(c);
    if s.threads[p].ExitScan? && p != Me(s, c) {
      InsideLock(s, p);
    }
  }

  lemma FamilyHanded(s: Table, c: nat, e: Event, p: nat)
    requires CpuInv(s) && ParentInv(s) && Runs(s, c) && FamilyEnabled(s, c, e) && p < |s.procs|
    ensures HandedOver(FamilyNext(s, c, e), p)
  {
    assert HandedOver(s, p) && CpuOk(s, c);
    assert HoldsLock(s, c) <==> s.lock == Some(c);
    if s.threads[p].ExitScan? && p != Me(s, c) {
      InsideLock(s, p);
    }
  }

  lemma ForkHanded(s: Table, c: nat, e: Event, p: nat)
    requires CpuInv(s) && ForkInv(s) && ParentInv(s) && Runs(s, c) && ForkEnabled(s, c, e) && p < |s.procs|
    ensures HandedOver(ForkNext(s, c, e), p)
  {
    assert HandedOver(s, p) && CpuOk(s, c) && StageOk(s, Me(s, c));
  }

  lemma ParentsKept(s: Table, c: nat, e: Event)
    requires CpuInv(s) && ForkInv(s) && StackInv(s) && ParentInv(s) && Enabled(s, c, e)
    ensures ParentInv(Next(s, c, e))
  {
    assert Shape(s);
    hide CpuInv, ForkInv, StackInv, ParentOk, HandedOver, SchedEnabled, SelfEnabled, ForkEnabled, FamilyEnabled,
         SchedNext, SelfNext, ForkNext, FamilyNext;
    var s' := Next(s, c, e);
    forall p | 0 <= p < |s'.procs| ensures ParentOk(s', p) && HandedOver(s', p) && Alive(s'.procs[s'.init].state) {
      if SchedEvent(e) {
        SchedParents(s, c, e, p);
        SchedHanded(s, c, e, p);
      } else if ForkEvent(e) {
        ForkParents(s, c, e, p);
        ForkHanded(s, c, e, p);
      } else if FamilyEvent(e) {
        FamilyParents(s, c, e, p);
        FamilyHanded(s, c, e, p);
      } else {
        SelfParents(s, c, e, p);
        SelfHanded(s, c, e, p);
      }
    }
    assert ParentOk(s', s'.init);
  }

  // ---------- waiting for children ----------

  /** The process sleeps in wait. */
  predicate Waiting(s: Table, q: nat)
    requires q < |s.procs|
  {
    s.procs[q].state.Sleeping? && s.procs[q].chan == ProcChan(q)
  }

  /** The parent of a zombie, or of a process that is exiting, does not sleep in wait. */
  ghost predicate Noticed(s: Table, p: nat)
    requires Shape(s) && p < |s.procs|
  {
    s.procs[p].state.Zombie? || s.threads[p].ExitScan? ==>
      forall q :: 0 <= q < |s.procs| && s.procs[p].parent == Some(q) ==> !Waiting(s, q)
  }

  /** wait has passed no zombie child. */
  ghost predicate NonePassed(s: Table, p: nat)
    requires Shape(s) && p < |s.procs|
  {
    s.threads[p].WaitScan? ==>
      forall j :: 0 <= j < |s.procs| && j < s.threads[p].i && s.procs[j].parent == Some(p) ==> !s.procs[j].state.Zombie?
  }

  ghost predicate WaitInv(s: Table)
    requires Shape(s)
  {
    forall p :: 0 <= p < |s.procs| ==> Noticed(s, p) && NonePassed(s, p) && InWait(s, p)
  }

  predicate InWait(s: Table, p: nat)
    requires Shape(s) && p < |s.procs|
  {
    s.procs[p].state.Sleeping? && (s.threads[p].Parked? || s.threads[p].Leaving?) && s.threads[p].why.FromWait? ==> Waiting(s, p)
  }

  lemma SchedNotices(s: Table, c: nat, e: Event, p: nat)
    requires CpuInv(s) && WaitInv(s) && c < |s.cpus| && SchedEvent(e) && SchedEnabled(s, c, e) && p < |s.procs|
    ensures Noticed(SchedNext(s, c, e), p) && NonePassed(SchedNext(s, c, e), p) && InWait(SchedNext(s, c, e), p)
  {
    assert Noticed(s, p) && NonePassed(s, p) && InWait(s, p) && CpuOk(s, c);
  }

  lemma SelfNotices(s: Table, c: nat, e: Event, p: nat)
    requires CpuInv(s) && WaitInv(s) && Runs(s, c) && SelfEnabled(s, c, e) && p < |s.procs|
    ensures Noticed(SelfNext(s, c, e), p) && InWait(SelfNext(s, c, e), p)
  {
    hide OneCpuEach, Placed;
    assert Noticed(s, p) && InWait(s, p) && CpuOk(s, c) && SlotOk(s, p);
    if s.threads[p].ExitScan? && p != Me(s, c) {
      InsideLock(s, p);
    }
  }

  lemma SelfPasses(s: Table, c: nat, e: Event, p: nat)
    requires CpuInv(s) && WaitInv(s) && Runs(s, c) && SelfEnabled(s, c, e) && p < |s.procs|
    ensures NonePassed(SelfNext(s, c, e), p)
  {
    hide OneCpuEach, Placed;
    assert NonePassed(s, p) && CpuOk(s, c);
    if s.threads[p].WaitScan? && p != Me(s, c) {
      InsideLock(s, p);
    }
  }

  lemma ForkNotices(s: Table, c: nat, e: Event, p: nat)
    requires CpuInv(s) && ForkInv(s) && WaitInv(s) && Runs(s, c) && ForkEnabled(s, c, e) && p < |s.procs|
    ensures Noticed(ForkNext(s, c, e), p) && NonePassed(ForkNext(s, c, e), p) && InWait(ForkNext(s, c, e), p)
  {
    hide Placed, LockOk, OneCpuEach;
    assert Noticed(s, p) && NonePassed(s, p) && InWait(s, p) && CpuOk(s, c) && StageOk(s, Me(s, c));
  }

  lemma FamilyNotices(s: Table, c: nat, e: Event, p: nat)
    requires CpuInv(s) && StackInv(s) && ParentInv(s) && WaitInv(s) && Runs(s, c) && FamilyEnabled(s, c, e) && p < |s.procs|
    ensures Noticed(FamilyNext(s, c, e), p)
  {
    hide Placed, OneCpuEach, StackOk, HandedOver, InWait, SlotOk;
    var me := Me(s, c);
    assert Noticed(s, p) && CpuOk(s, c) && ReapOk(s, me) && ParentOk(s, p) && NonePassed(s, me);
    assert HoldsLock(s, c) <==> s.lock == Some(c);
    if s.threads[p].ExitScan? && p != me {
      InsideLock(s, p);
    }
  }

  lemma FamilyWaits(s: Table, c: nat, e: Event, p: nat)
    requires CpuInv(s) && WaitInv(s) && Runs(s, c) && FamilyEnabled(s, c, e) && p < |s.procs|
    ensures InWait(FamilyNext(s, c, e), p)
  {
    hide Placed, OneCpuEach, LockOk, SlotOk, Noticed, NonePassed;
    assert InWait(s, p) && CpuOk(s, c);
  }

  lemma FamilyPasses(s: Table, c: nat, e: Event, p: nat)
    requires CpuInv(s) && StackInv(s) && WaitInv(s) && Runs(s, c) && FamilyEnabled(s, c, e) && p < |s.procs|
    ensures NonePassed(FamilyNext(s, c, e), p)
  {
    hide Placed, OneCpuEach, StackOk, Noticed;
    assert NonePassed(s, p) && CpuOk(s, c) && ReapOk(s, Me(s, c));
    assert HoldsLock(s, c) <==> s.lock == Some(c);
    if s.threads[p].WaitScan? && p != Me(s, c) {
      InsideLock(s, p);
    }
  }

  lemma WaitKept(s: Table, c: nat, e: Event)
    requires CpuInv(s) && ForkInv(s) && StackInv(s) && ParentInv(s) && WaitInv(s) && Enabled(s, c, e)
    ensures WaitInv(Next(s, c, e))
  {
    assert Shape(s);
    hide CpuInv, ForkInv, StackInv, ParentInv, Noticed, NonePassed, InWait, SchedEnabled, SelfEnabled, ForkEnabled,
         FamilyEnabled, SchedNext, SelfNext, ForkNext, FamilyNext;
    var s' := Next(s, c, e);
    forall p | 0 <= p < |s'.procs| ensures Noticed(s', p) && NonePassed(s', p) && InWait(s', p) {
      if SchedEvent(e) {
        SchedNotices(s, c, e, p);
      } else if ForkEvent(e) {
        ForkNotices(s, c, e, p);
      } else if FamilyEvent(e) {
        FamilyNotices(s, c, e, p);
        FamilyWaits(s, c, e, p);
        FamilyPasses(s, c, e, p);
      } else {
        SelfNotices(s, c, e, p);
        SelfPasses(s, c, e, p);
      }
    }
  }

  // ---------- all runs ----------

  ghost predicate Inv(s: Table) {
    CpuInv(s) && ForkInv(s) && StackInv(s) && PidInv(s) && ParentInv(s) && WaitInv(s)
  }

  lemma InvKept(s: Table, c: nat, e: Event)
    requires Inv(s) && Enabled(s, c, e)
    ensures Inv(Next(s, c, e))
  {
    hide CpuInv, ForkInv, StackInv, PidInv, ParentInv, WaitInv;
    CpuShape(s);
    ForkKept(s, c, e);
    StackKept(s, c, e);
    PidKept(s, c, e);
    ParentsKept(s, c, e);
    WaitKept(s, c, e);
    CpuKept(s, c, e);
  }

  lemma CpuShape(s: Table)
    requires CpuInv(s)
    ensures Shape(s)
  {
  }

  /** After userinit: one process that can run, in slot `init`; every CPU is in its scheduler. */
  ghost predicate Boot(s: Table) {
    && Shape(s) && s.lock.None? && s.nextpid == 2
    && (forall c :: 0 <= c < |s.cpus| ==> s.cpus[c] == Cpu(None, Idle))
    && (forall p :: 0 <= p < |s.procs| ==> s.threads[p] == Parked(FromFork))
    && (forall p :: 0 <= p < |s.procs| && p != s.init ==>
      s.procs[p].state.Unused? && s.procs[p].kstack == 0 && s.procs[p].parent.None?)
    && s.procs[s.init].state.Runnable? && s.procs[s.init].pid == 1 && s.procs[s.init].parent.None?
    && s.procs[s.init].kstack > 0 && s.stacks == map[s.procs[s.init].kstack := s.init]
  }

  lemma BootInv(s: Table)
    requires Boot(s)
    ensures Inv(s)
  {
  }

  /** `states` is a run: each state follows from the one before by a step of some CPU. */
  ghost predicate IsRun(states: seq<Table>, steps: seq<(nat, Event)>) {
    && |states| == |steps| + 1 && Boot(states[0])
    && forall i :: 0 <= i < |steps| ==>
         Shape(states[i]) && Enabled(states[i], steps[i].0, steps[i].1) &&
           states[i + 1] == Next(states[i], steps[i].0, steps[i].1)
  }

  lemma {:induction false} InvRun(states: seq<Table>, steps: seq<(nat, Event)>, n: nat)
    requires IsRun(states, steps) && n <= |steps|
    ensures Inv(states[n])
  {
    hide Inv, Boot, Enabled, Next;
    if n == 0 {
      BootInv(states[0]);
    } else {
      InvRun(states, steps, n - 1);
      InvKept(states[n - 1], steps[n - 1].0, steps[n - 1].1);
    }
  }

  /** With the lock free, a process is RUNNING exactly when it is the process of one CPU. */
  lemma RunningOnOneCpu(states: seq<Table>, steps: seq<(nat, Event)>, n: nat, p: nat)
    requires IsRun(states, steps) && n <= |steps| && states[n].lock.None? && p < |states[n].procs|
    ensures states[n].procs[p].state.Running? <==> exists c :: OnCpu(states[n], p, c)
    ensures forall c, d :: OnCpu(states[n], p, c) && OnCpu(states[n], p, d) ==> c == d
  {
    InvRun(states, steps, n);
    var s := states[n];
    assert Placed(s, p);
    forall c: nat | OnCpu(s, p, c) ensures s.procs[p].state.Running? {
      assert CpuOk(s, c) && !HoldsLock(s, c);
    }
  }

  lemma PidsUnique(states: seq<Table>, steps: seq<(nat, Event)>, n: nat, p: nat, q: nat)
    requires IsRun(states, steps) && n <= |steps| && p < |states[n].procs| && q < |states[n].procs|
    requires !states[n].procs[p].state.Unused? && !states[n].procs[q].state.Unused? &&
             states[n].procs[p].pid == states[n].procs[q].pid
    ensures p == q
  {
    InvRun(states, steps, n);
  }

  /** A parent is alive: neither UNUSED nor EMBRYO nor ZOMBIE. */
  lemma ParentsAlive(states: seq<Table>, steps: seq<(nat, Event)>, n: nat, p: nat)
    requires IsRun(states, steps) && n <= |steps| && p < |states[n].procs| && states[n].procs[p].parent.Some?
    ensures states[n].procs[p].parent.value < |states[n].procs| && Alive(states[n].procs[states[n].procs[p].parent.value].state)
  {
    InvRun(states, steps, n);
    assert ParentOk(states[n], p);
  }

  /** The stack that a step frees is allocated, belongs to the slot it is freed for, and no CPU is on it. */
  lemma StackFreedOnce(states: seq<Table>, steps: seq<(nat, Event)>, n: nat)
    requires IsRun(states, steps) && n < |steps| && (steps[n].1.WaitFound? || steps[n].1.CopyFail?)
    ensures var s := states[n];
            var t := s.threads[Me(s, steps[n].0)];
            var i := if steps[n].1.WaitFound? then t.i else t.child;
            && HasStack(s, i) && !HasStack(states[n + 1], i)
            && forall d :: 0 <= d < |s.cpus| ==> s.cpus[d].proc != Some(i)
  {
    InvRun(states, steps, n);
    var s, c := states[n], steps[n].0;
    if steps[n].1.WaitFound? {
      FoundOnce(s, c);
    } else {
      var i := s.threads[Me(s, c)].child;
      assert StageOk(s, Me(s, c)) && SlotOk(s, i);
      forall d | 0 <= d < |s.cpus| ensures s.cpus[d].proc != Some(i) {
        assert CpuOk(s, d) && CpuOk(s, c);
      }
    }
  }

  /** No stack is lost: each allocated page is the stack of the live slot it was allocated for. */
  lemma StacksOwned(states: seq<Table>, steps: seq<(nat, Event)>, n: nat, page: nat)
    requires IsRun(states, steps) && n <= |steps| && page in states[n].stacks
    ensures var s := states[n];
            s.stacks[page] < |s.procs| && s.procs[s.stacks[page]].kstack == page && !s.procs[s.stacks[page]].state.Unused?
  {
    InvRun(states, steps, n);
    assert PageOk(states[n], page);
  }

  /** No process sleeps in wait while it has a zombie child. */
  lemma ZombiesNoticed(states: seq<Table>, steps: seq<(nat, Event)>, n: nat, p: nat, q: nat)
    requires IsRun(states, steps) && n <= |steps| && p < |states[n].procs| && q < |states[n].procs| == |states[n].threads|
    requires states[n].procs[p].state.Zombie? && states[n].procs[p].parent == Some(q) && states[n].threads[q] == Parked(FromWait)
    ensures !states[n].procs[q].state.Sleeping?
  {
    InvRun(states, steps, n);
    assert Noticed(states[n], p) && InWait(states[n], q);
  }

  /** The panics of sched about the lock and the state, and the one after sched in exit, are unreachable. */
  lemma NoSchedPanic(states: seq<Table>, steps: seq<(nat, Event)>, n: nat, c: nat)
    requires IsRun(states, steps) && n <= |steps| && Runs(states[n], c)
    ensures var s := states[n];
            var t := s.threads[Me(s, c)];
            && (t.Leaving? ==> s.lock == Some(c) && !s.procs[Me(s, c)].state.Running?)
            && (t.Resumed? ==> s.lock == Some(c) && !t.why.Dead?)
  {
    InvRun(states, steps, n);
    assert CpuOk(states[n], c) && (HoldsLock(states[n], c) <==> states[n].lock == Some(c));
  }
}
