/**
 begin_op, log_write, end_op, commit and recovery of log.c as one step system over any number
 of file system operations, with a crash possible between any two disk writes.

 Each step is one critical section under log.lock, one unlocked test, or one disk write.
 `history` is the sequence of all logged writes in the order of the log_write calls; the first
 `committed` of them are those that a crash now would leave on the disk.
 */
module LogProtocol {
  import opened WriteAheadLog

  datatype Logged = Logged(op: nat, blockno: int, data: Block)

  datatype Phase =
    | Running
    | Committing(base: Disk, before: nat, k: nat)  // `k` writes of commit() have reached the disk
    | Recovering(base: Disk, k: nat)               // `k` writes of recover_from_log() have
    | Panicked

  datatype State = State(
    disk: Disk,
    pinned: Disk,                // blocks whose newest content is only in the cache
    lh: seq<int>,                // log.lh.block[0..n)
    ops: map<nat, set<int>>,     // outstanding operations and the blocks each has logged
    checked: set<nat>,           // operations between log_write's size test and its lock
    nextOp: nat,
    phase: Phase,
    history: seq<Logged>,
    committed: nat)

  /** The on-disk layout and the disk at boot. */
  datatype Machine = Machine(l: Layout, d0: Disk)

  ghost predicate Bootable(m: Machine) {
    Formatted(m.l, m.d0) && WriteAheadLog.Logged(m.d0[m.l.start]) == []
  }

  predicate IsHome(m: Machine, b: int) {
    b in m.d0 && !InLog(m.l, b)
  }

  datatype Step =
    | Begin
    | Check(op: nat)
    | Log(op: nat, blockno: int, data: Block)
    | End(op: nat)
    | DiskWrite
    | Finish
    | Crash

  predicate LogFull(m: Machine, s: State) {
    |s.lh| >= LOGSIZE || |s.lh| >= m.l.size - 1
  }

  ghost predicate PhaseOk(m: Machine, s: State) {
    match s.phase
    case Committing(base, _, _) =>
      && Formatted(m.l, base) && |s.lh| <= LOGSIZE && (forall i :: 0 <= i < |s.lh| ==> s.lh[i] in base)
      && if FitsLog(m, s) then HomeBlocks(m.l, base, s.lh) else PastLog(m, base, s.lh)
    case Recovering(base, _) => Formatted(m.l, base)
    case _ => true
  }

  /** Each listed block has a slot in the log. */
  predicate FitsLog(m: Machine, s: State) {
    |s.lh| <= m.l.size - 1
  }

  /** The blocks that write_log takes for slots exist, and it does not copy from the ones behind the log. */
  predicate PastLog(m: Machine, base: Disk, lh: seq<int>) {
    forall b :: m.l.start < b <= m.l.start + |lh| ==> b in base && b !in lh
  }

  /** The disk writes of the current phase.  A commit whose list overran the log is followed through write_log. */
  ghost function PhaseWrites(m: Machine, s: State): seq<Write>
    requires PhaseOk(m, s)
  {
    match s.phase
    case Committing(base, _, _) =>
      var data := Cached(base, s.pinned, s.lh);
      if FitsLog(m, s) then CommitWrites(m.l, base, s.lh, data) else LogWrites(m.l, data)
    case Recovering(base, _) => RecoveryWrites(m.l, base)
    case _ => []
  }

  ghost predicate Enabled(m: Machine, s: State, step: Step) {
    match step
    case Begin => s.phase.Running? && |s.lh| + (|s.ops| + 1) * MAXOPBLOCKS <= LOGSIZE
    case Check(op) => s.phase.Running? && op in s.ops
    case Log(op, b, _) =>
      // no operation logs more than MAXOPBLOCKS distinct blocks
      && s.phase.Running? && op in s.ops && op in s.checked
      && IsHome(m, b) && |s.ops[op] + {b}| <= MAXOPBLOCKS
    case End(op) => s.phase.Running? && op in s.ops && op !in s.checked
    case DiskWrite =>
      (s.phase.Committing? || s.phase.Recovering?) && PhaseOk(m, s) && s.phase.k < |PhaseWrites(m, s)|
    case Finish =>
      && (s.phase.Recovering? || (s.phase.Committing? && FitsLog(m, s)))
      && PhaseOk(m, s) && s.phase.k == |PhaseWrites(m, s)|
    case Crash => true
  }

  ghost function Next(m: Machine, s: State, step: Step): State
    requires Enabled(m, s, step)
  {
    match step
    case Begin => s.(ops := s.ops[s.nextOp := {}], nextOp := s.nextOp + 1)
    case Check(op) =>
      if LogFull(m, s) then s.(phase := Panicked) else s.(checked := s.checked + {op})
    case Log(op, b, data) =>
      s.(lh := Absorb(s.lh, b), pinned := s.pinned[b := data],
         ops := s.ops[op := s.ops[op] + {b}], checked := s.checked - {op},
         history := s.history + [Logged(op, b, data)])
    case End(op) =>
      var t := s.(ops := s.ops - {op});
      if t.ops == map[] then t.(phase := Committing(s.disk, s.committed, 0)) else t
    case DiskWrite =>
      var w := PhaseWrites(m, s)[s.phase.k];
      var k := s.phase.k + 1;
      s.(disk := s.disk[w.blockno := w.data],
         phase := s.phase.(k := k),
         committed := if s.phase.Committing? && k == |s.lh| + 1 then |s.history| else s.committed)
    case Finish =>
      s.(phase := Running, lh := [], pinned := map[])
    case Crash =>
      State(s.disk, map[], [], map[], {}, s.nextOp, Recovering(s.disk, 0),
            if s.committed <= |s.history| then s.history[..s.committed] else s.history, s.committed)
  }

  ghost predicate Init(m: Machine, s: State) {
    s == State(m.d0, map[], [], map[], {}, 0, Running, [], 0)
  }

  ghost predicate Run(m: Machine, trace: seq<State>) {
    && trace != [] && Init(m, trace[0])
    && forall i :: 0 <= i < |trace| - 1 ==> Steps(m, trace[i], trace[i + 1])
  }

  ghost predicate Steps(m: Machine, s: State, t: State) {
    exists step :: Enabled(m, s, step) && Next(m, s, step) == t
  }

  /** A commit has a log slot for each block it lists. */
  predicate CommitFits(m: Machine, s: State) {
    s.phase.Committing? ==> FitsLog(m, s)
  }

  /** No commit of the run overruns the log. */
  ghost predicate NoOverrun(m: Machine, trace: seq<State>) {
    forall i :: 0 <= i < |trace| ==> CommitFits(m, trace[i])
  }

  ghost predicate Reachable(m: Machine, s: State) {
    exists trace :: Run(m, trace) && trace[|trace| - 1] == s
  }

  // ---------- what a prefix of the history leaves on the home blocks ----------

  function Writes(h: seq<Logged>): seq<Write> {
    seq(|h|, i requires 0 <= i < |h| => Write(h[i].blockno, h[i].data))
  }

  ghost function Result(m: Machine, h: seq<Logged>): Disk {
    Apply(Home(m.l, m.d0), Writes(h))
  }

  lemma ResultAppend(m: Machine, h: seq<Logged>, w: Logged)
    ensures Result(m, h + [w]) == Result(m, h)[w.blockno := w.data]
  {
    assert Writes(h + [w]) == Writes(h) + [Write(w.blockno, w.data)];
    ApplyAppend(Home(m.l, m.d0), Writes(h), [Write(w.blockno, w.data)]);
    ClearWrite(Result(m, h), Write(w.blockno, w.data));
  }

  // ---------- log space ----------

  /** Blocks that the outstanding operations may still add. */
  ghost function Unspent(ops: map<nat, set<int>>): int {
    if ops == map[] then 0
    else
      var op :| op in ops;
      MAXOPBLOCKS - |ops[op]| + Unspent(ops - {op})
  }

  lemma {:induction false} UnspentSplit(ops: map<nat, set<int>>, op: nat)
    requires op in ops
    ensures Unspent(ops) == MAXOPBLOCKS - |ops[op]| + Unspent(ops - {op})
    decreases |ops|
  {
    var x :| x in ops && Unspent(ops) == MAXOPBLOCKS - |ops[x]| + Unspent(ops - {x});
    if x != op {
      UnspentSplit(ops - {x}, op);
      assert ops - {x} - {op} == ops - {op} - {x};
      UnspentSplit(ops - {op}, x);
    }
  }

  lemma UnspentUpdate(ops: map<nat, set<int>>, op: nat, blocks: set<int>)
    ensures Unspent(ops[op := blocks]) ==
            Unspent(ops) + (if op in ops then |ops[op]| - MAXOPBLOCKS else 0) + MAXOPBLOCKS - |blocks|
  {
    UnspentSplit(ops[op := blocks], op);
    assert ops[op := blocks] - {op} == ops - {op};
    if op in ops {
      UnspentSplit(ops, op);
    } else {
      assert ops - {op} == ops;
    }
  }

  lemma {:induction false} UnspentBounds(ops: map<nat, set<int>>)
    requires forall op :: op in ops ==> |ops[op]| <= MAXOPBLOCKS
    ensures 0 <= Unspent(ops) <= |ops| * MAXOPBLOCKS
    decreases |ops|
  {
    if ops != map[] {
      var op :| op in ops;
      UnspentSplit(ops, op);
      UnspentBounds(ops - {op});
      assert |ops - {op}| == |ops| - 1 by { assert (ops - {op}).Keys == ops.Keys - {op}; }
    }
  }

  // ---------- the invariant ----------

  ghost predicate SpaceInv(m: Machine, s: State) {
    && Distinct(s.lh)
    && (forall i :: 0 <= i < |s.lh| ==> IsHome(m, s.lh[i]))
    && (forall op :: op in s.ops ==> op < s.nextOp && |s.ops[op]| <= MAXOPBLOCKS)
    && (forall op, b :: op in s.ops && b in s.ops[op] ==> b in s.lh)
    && |s.lh| + Unspent(s.ops) <= LOGSIZE
    && (!s.phase.Running? && !s.phase.Panicked? ==> s.ops == map[])
    && s.checked <= s.ops.Keys
  }

  /** Every operation is wholly inside or wholly outside the committed prefix. */
  ghost predicate AllOrNothing(s: State) {
    && s.committed <= |s.history|
    && (forall i, j :: 0 <= i < s.committed <= j < |s.history| ==> s.history[i].op != s.history[j].op)
    && (forall i :: 0 <= i < |s.history| ==> s.history[i].op < s.nextOp)
    && (forall i :: 0 <= i < s.committed ==> s.history[i].op !in s.ops)
    && (s.lh == [] ==> s.committed == |s.history|)
  }

  ghost predicate PinnedBy(s: State) {
    s.pinned.Keys == (set b | b in s.lh)
  }

  /** A disk with an empty log whose home blocks hold the prefix `h`. */
  ghost predicate CleanDisk(m: Machine, d: Disk, h: seq<Logged>) {
    && Formatted(m.l, d) && d.Keys == m.d0.Keys && WriteAheadLog.Logged(d[m.l.start]) == []
    && Home(m.l, d) == Result(m, h)
  }

  ghost predicate DiskInv(m: Machine, s: State)
    requires s.committed <= |s.history|
  {
    && PinnedBy(s)
    && (forall b :: b in s.pinned ==> IsHome(m, b))
    && match s.phase
       case Running =>
         CleanDisk(m, s.disk, s.history[..s.committed]) && Home(m.l, s.disk) + s.pinned == Result(m, s.history)
       case Panicked =>
         CleanDisk(m, s.disk, s.history[..s.committed])
       case Committing(base, before, k) =>
         && before <= |s.history|
         && CleanDisk(m, base, s.history[..before]) && Home(m.l, base) + s.pinned == Result(m, s.history)
         && HomeBlocks(m.l, base, s.lh)
         && k <= |PhaseWrites(m, s)|
         && s.disk == Apply(base, PhaseWrites(m, s)[..k])
         && s.committed == (if k > |s.lh| then |s.history| else before)
       case Recovering(base, k) =>
         && s.committed == |s.history| && s.lh == []
         && Formatted(m.l, base) && base.Keys == m.d0.Keys
         && Home(m.l, Recovered(m.l, base)) == Result(m, s.history)
         && k <= |PhaseWrites(m, s)|
         && s.disk == Apply(base, PhaseWrites(m, s)[..k])
  }

  ghost predicate Inv(m: Machine, s: State) {
    SpaceInv(m, s) && AllOrNothing(s) && DiskInv(m, s)
  }

  // ---------- log space is preserved ----------

  lemma BeginSpace(m: Machine, s: State)
    requires SpaceInv(m, s) && Enabled(m, s, Begin)
    ensures SpaceInv(m, Next(m, s, Begin))
  {
    UnspentBounds(s.ops);
    assert s.nextOp !in s.ops;
    UnspentUpdate(s.ops, s.nextOp, {});
  }

  lemma LogSpace(m: Machine, s: State, op: nat, b: int, data: Block)
    requires SpaceInv(m, s) && Enabled(m, s, Log(op, b, data))
    ensures SpaceInv(m, Next(m, s, Log(op, b, data)))
  {
    var t := Next(m, s, Log(op, b, data));
    UnspentUpdate(s.ops, op, s.ops[op] + {b});
    if b in s.ops[op] {
      assert s.ops[op] + {b} == s.ops[op];
    } else {
      assert |s.ops[op] + {b}| == |s.ops[op]| + 1;
    }
    assert b in t.lh && forall x :: x in s.lh ==> x in t.lh;
  }

  lemma EndSpace(m: Machine, s: State, op: nat)
    requires SpaceInv(m, s) && Enabled(m, s, End(op))
    ensures SpaceInv(m, Next(m, s, End(op)))
  {
    UnspentSplit(s.ops, op);
  }

  /** Reservations hold for a log of any size. */
  lemma SpacePreserved(m: Machine, s: State, step: Step)
    requires SpaceInv(m, s) && Enabled(m, s, step)
    ensures SpaceInv(m, Next(m, s, step))
  {
    match step
    case Begin => BeginSpace(m, s);
    case Log(op, b, data) => LogSpace(m, s, op, b, data);
    case End(op) => EndSpace(m, s, op);
    case _ =>
  }

  /** n plus every unspent reservation stays within LOGSIZE, so an operation always has its share. */
  lemma ReservationHolds(m: Machine, s: State, op: nat)
    requires SpaceInv(m, s) && op in s.ops
    ensures |s.lh| + MAXOPBLOCKS - |s.ops[op]| <= LOGSIZE
  {
    UnspentSplit(s.ops, op);
    UnspentBounds(s.ops - {op});
  }

  lemma LogFits(m: Machine, s: State)
    requires SpaceInv(m, s)
    ensures |s.lh| <= LOGSIZE
  {
    UnspentBounds(s.ops);
  }

  // ---------- contents are preserved ----------

  lemma {:induction false} HomeWritesArePinned(lh: seq<int>, pinned: Disk, data: seq<Block>)
    requires |lh| == |data|
    requires forall i :: 0 <= i < |lh| ==> lh[i] in pinned && data[i] == pinned[lh[i]]
    ensures var r := Apply(map[], HomeWrites(lh, data));
            r.Keys == (set b | b in lh) && forall b :: b in r ==> r[b] == pinned[b]
  {
    if lh != [] {
      var n := |lh| - 1;
      HomeWritesArePinned(lh[..n], pinned, data[..n]);
      assert HomeWrites(lh, data)[..n] == HomeWrites(lh[..n], data[..n]);
      assert lh == lh[..n] + [lh[n]];
    }
  }

  /** Installing the transaction makes the disk agree with the cache. */
  lemma InstalledView(m: Machine, s: State, base: Disk, h: seq<Logged>)
    requires PinnedBy(s) && (forall b :: b in s.pinned ==> IsHome(m, b))
    requires CleanDisk(m, base, h) && HomeBlocks(m.l, base, s.lh)
    ensures Home(m.l, Apply(base, HomeWrites(s.lh, Cached(base, s.pinned, s.lh)))) == Home(m.l, base) + s.pinned
  {
    var data := Cached(base, s.pinned, s.lh);
    assert forall i :: 0 <= i < |s.lh| ==> s.lh[i] in s.pinned;
    HomeWritesArePinned(s.lh, s.pinned, data);
    HomeApply(m.l, base, HomeWrites(s.lh, data));
    ApplyMerges(Home(m.l, base), HomeWrites(s.lh, data));
    assert Apply(map[], HomeWrites(s.lh, data)) == s.pinned;
  }

  /** What a crash would find in the middle of a commit. */
  lemma CommitPhase(m: Machine, s: State)
    requires Inv(m, s) && s.phase.Committing?
    ensures Formatted(m.l, s.disk) && s.disk.Keys == m.d0.Keys
    ensures Home(m.l, Recovered(m.l, s.disk)) == Result(m, s.history[..s.committed])
  {
    hide Home, Result, CommitWrites, RecoveryWrites, HomeWrites;
    var base, k := s.phase.base, s.phase.k;
    var data := Cached(base, s.pinned, s.lh);
    CommitIsAtomic(m.l, base, s.lh, data, k, []);
    InstalledView(m, s, base, s.history[..s.phase.before]);
    ApplyKeys(base, PhaseWrites(m, s)[..k]);
    RecoveryKeepsKeys(m.l, s.disk);
    assert s.history[..|s.history|] == s.history;
  }

  lemma RecoveryKeepsKeys(l: Layout, d: Disk)
    requires Formatted(l, d)
    ensures Recovered(l, d).Keys == d.Keys
  {
    RecoveryClearsHeader(l, d);
  }

  /**
   Crash safety in every state: recovering the disk as it is now yields exactly the effect of
   the first `committed` logged writes.
   */
  lemma RecoverableNow(m: Machine, s: State)
    requires Inv(m, s)
    ensures Formatted(m.l, s.disk) && s.disk.Keys == m.d0.Keys
    ensures Home(m.l, Recovered(m.l, s.disk)) == Result(m, s.history[..s.committed])
  {
    match s.phase
    case Running => EmptyLogRecovers(m.l, s.disk);
    case Panicked => EmptyLogRecovers(m.l, s.disk);
    case Committing(_, _, _) => CommitPhase(m, s);
    case Recovering(base, k) =>
      RecoveryIsIdempotent(m.l, base, k);
      assert s.history[..|s.history|] == s.history;
  }

  lemma HistoryPreserved(m: Machine, s: State, step: Step)
    requires SpaceInv(m, s) && AllOrNothing(s) && Enabled(m, s, step) && !step.Finish?
    ensures AllOrNothing(Next(m, s, step))
  {
  }

  lemma LogStep(m: Machine, s: State, op: nat, b: int, data: Block)
    requires SpaceInv(m, s) && AllOrNothing(s) && DiskInv(m, s) && Enabled(m, s, Log(op, b, data))
    ensures DiskInv(m, Next(m, s, Log(op, b, data)))
  {
    var t := Next(m, s, Log(op, b, data));
    assert t.history[..t.committed] == s.history[..s.committed];
    LogPins(m, s, op, b, data);
    hide CleanDisk, Result, Home, Absorb, IsHome, PinnedBy;
    ResultAppend(m, s.history, Logged(op, b, data));
    MergeUpdate(Home(m.l, s.disk), s.pinned, b, data);
  }

  lemma LogPins(m: Machine, s: State, op: nat, b: int, data: Block)
    requires PinnedBy(s) && (forall x :: x in s.pinned ==> IsHome(m, x)) && Enabled(m, s, Log(op, b, data))
    ensures PinnedBy(Next(m, s, Log(op, b, data))) && forall x :: x in Next(m, s, Log(op, b, data)).pinned ==> IsHome(m, x)
  {
    PinsAbsorbed(s.lh, b);
  }

  lemma MergeUpdate(d: Disk, e: Disk, b: int, data: Block)
    ensures d + e[b := data] == (d + e)[b := data]
  {
  }

  lemma PinsAbsorbed(lh: seq<int>, b: int)
    ensures (set x | x in Absorb(lh, b)) == (set x | x in lh) + {b}
  {
  }

  lemma EndStep(m: Machine, s: State, op: nat)
    requires SpaceInv(m, s) && AllOrNothing(s) && DiskInv(m, s) && Enabled(m, s, End(op))
    requires CommitFits(m, Next(m, s, End(op)))
    ensures DiskInv(m, Next(m, s, End(op)))
  {
    LogFits(m, s);
    var t := Next(m, s, End(op));
    if t.phase.Committing? {
      assert HomeBlocks(m.l, s.disk, s.lh);
      assert PhaseWrites(m, t)[..0] == [];
    }
  }

  lemma WriteStep(m: Machine, s: State)
    requires SpaceInv(m, s) && AllOrNothing(s) && DiskInv(m, s) && Enabled(m, s, DiskWrite)
    ensures DiskInv(m, Next(m, s, DiskWrite))
  {
    hide Formatted, Home, HomeBlocks, Result, CommitWrites, RecoveryWrites, Cached, Recovered;
    ApplyNext(s.phase.base, PhaseWrites(m, s), s.phase.k);
  }

  lemma FinishCommit(m: Machine, s: State)
    requires Inv(m, s) && s.phase.Committing? && Enabled(m, s, Finish)
    ensures s.committed == |s.history| && CleanDisk(m, s.disk, s.history)
  {
    var base := s.phase.base;
    var data := Cached(base, s.pinned, s.lh);
    assert PhaseWrites(m, s)[..s.phase.k] == PhaseWrites(m, s);
    CommitCompletes(m.l, base, s.lh, data);
    InstalledView(m, s, base, s.history[..s.phase.before]);
  }

  lemma FinishRecovery(m: Machine, s: State)
    requires Inv(m, s) && s.phase.Recovering? && Enabled(m, s, Finish)
    ensures s.committed == |s.history| && CleanDisk(m, s.disk, s.history)
  {
    assert PhaseWrites(m, s)[..s.phase.k] == PhaseWrites(m, s);
    RecoveryClearsHeader(m.l, s.phase.base);
  }

  lemma FinishStep(m: Machine, s: State)
    requires Inv(m, s) && Enabled(m, s, Finish)
    ensures s.committed == |s.history| && CleanDisk(m, s.disk, s.history)
    ensures DiskInv(m, Next(m, s, Finish)) && AllOrNothing(Next(m, s, Finish))
  {
    hide CleanDisk, PhaseWrites, Result, Home;
    if s.phase.Committing? {
      FinishCommit(m, s);
    } else {
      FinishRecovery(m, s);
    }
    assert s.history[..|s.history|] == s.history;
    assert Home(m.l, s.disk) + map[] == Home(m.l, s.disk);
  }

  lemma CrashStep(m: Machine, s: State)
    requires Inv(m, s)
    ensures DiskInv(m, Next(m, s, Crash))
  {
    RecoverableNow(m, s);
    var t := Next(m, s, Crash);
    assert PhaseWrites(m, t)[..0] == [];
    assert t.history == s.history[..s.committed];
  }

  lemma InvPreserved(m: Machine, s: State, step: Step)
    requires Inv(m, s) && Enabled(m, s, step) && CommitFits(m, Next(m, s, step))
    ensures Inv(m, Next(m, s, step))
  {
    SpacePreserved(m, s, step);
    if step.Finish? {
      FinishStep(m, s);
    } else {
      HistoryPreserved(m, s, step);
      match step
      case Begin =>
      case Check(op) =>
      case Log(op, b, data) => LogStep(m, s, op, b, data);
      case End(op) => EndStep(m, s, op);
      case DiskWrite => WriteStep(m, s);
      case Crash => CrashStep(m, s);
    }
  }

  lemma InvInit(m: Machine, s: State)
    requires Bootable(m) && Init(m, s)
    ensures Inv(m, s)
  {
  }

  lemma {:induction false} InvAlong(m: Machine, trace: seq<State>)
    requires Bootable(m) && Run(m, trace) && NoOverrun(m, trace)
    ensures Inv(m, trace[|trace| - 1])
  {
    var n := |trace| - 1;
    if n == 0 {
      InvInit(m, trace[0]);
    } else {
      assert Run(m, trace[..n]);
      InvAlong(m, trace[..n]);
      assert Steps(m, trace[n - 1], trace[n]);
      var step :| Enabled(m, trace[n - 1], step) && Next(m, trace[n - 1], step) == trace[n];
      InvPreserved(m, trace[n - 1], step);
    }
  }

  // ---------- the theorems ----------

  /** Recovering the disk as it is in `s` gives the writes of complete operations, none of them outstanding. */
  ghost predicate Atomic(m: Machine, s: State) {
    && s.committed <= |s.history| && Formatted(m.l, s.disk)
    && Home(m.l, Recovered(m.l, s.disk)) == Result(m, s.history[..s.committed])
    && (forall i, j :: 0 <= i < s.committed <= j < |s.history| ==> s.history[i].op != s.history[j].op)
    && (forall i :: 0 <= i < s.committed ==> s.history[i].op !in s.ops)
  }

  /**
   Operations are atomic across crashes, for a log of any size.  In every state of every run
   without an overrunning commit, with any number of operations interleaved and any number of
   earlier crashes, stopping the machine now and recovering gives the home blocks written by some
   set of operations, each of them complete and none of them still outstanding.
   */
  lemma OperationsAreAtomic(m: Machine, trace: seq<State>)
    requires Bootable(m) && Run(m, trace) && NoOverrun(m, trace)
    ensures Atomic(m, trace[|trace| - 1])
  {
    InvAlong(m, trace);
    RecoverableNow(m, trace[|trace| - 1]);
  }

  /** With an empty list, everything logged is committed. */
  lemma EmptyListCommitted(m: Machine, trace: seq<State>)
    requires Bootable(m) && Run(m, trace) && NoOverrun(m, trace)
    ensures var s := trace[|trace| - 1];
            s.committed <= |s.history| && (s.lh == [] ==> s.committed == |s.history|)
  {
    InvAlong(m, trace);
  }

  /** While an operation runs, reads through the cache see every logged write. */
  lemma CacheShowsHistory(m: Machine, trace: seq<State>, s: State)
    requires Bootable(m) && Run(m, trace) && NoOverrun(m, trace) && s == trace[|trace| - 1] && s.phase.Running?
    ensures Home(m.l, s.disk) + s.pinned == Result(m, s.history)
  {
    InvAlong(m, trace);
  }

  /** When the last end_op returns, everything logged so far survives any crash. */
  lemma EndOpIsDurable(m: Machine, trace: seq<State>, s: State)
    requires Bootable(m) && Run(m, trace) && NoOverrun(m, trace) && s == trace[|trace| - 1]
    requires s.phase.Committing? && Enabled(m, s, Finish)
    ensures Next(m, s, Finish).history == s.history
    ensures Formatted(m.l, s.disk) && Home(m.l, s.disk) == Result(m, s.history)
    ensures Home(m.l, Recovered(m.l, s.disk)) == Result(m, s.history)
  {
    InvAlong(m, trace);
    FinishStep(m, s);
    EmptyLogRecovers(m.l, s.disk);
  }

  /** No commit runs beside an operation, and the list that it commits names no block twice. */
  lemma CommitRunsAlone(m: Machine, s: State)
    requires Reachable(m, s)
    ensures s.phase.Committing? ==> s.ops == map[]
    ensures Distinct(s.lh) && |s.lh| <= LOGSIZE
    ensures forall op :: op in s.ops ==> |s.lh| + MAXOPBLOCKS - |s.ops[op]| <= LOGSIZE
  {
    SpaceReachable(m, s);
    LogFits(m, s);
    forall op | op in s.ops ensures |s.lh| + MAXOPBLOCKS - |s.ops[op]| <= LOGSIZE {
      ReservationHolds(m, s, op);
    }
  }

  lemma SpaceReachable(m: Machine, s: State)
    requires Reachable(m, s)
    ensures SpaceInv(m, s)
  {
    var trace :| Run(m, trace) && trace[|trace| - 1] == s;
    SpaceAlong(m, trace);
  }

  lemma {:induction false} SpaceAlong(m: Machine, trace: seq<State>)
    requires Run(m, trace)
    ensures SpaceInv(m, trace[|trace| - 1])
  {
    var n := |trace| - 1;
    if n > 0 {
      assert Run(m, trace[..n]);
      SpaceAlong(m, trace[..n]);
      assert Steps(m, trace[n - 1], trace[n]);
      var step :| Enabled(m, trace[n - 1], step) && Next(m, trace[n - 1], step) == trace[n];
      SpacePreserved(m, trace[n - 1], step);
    }
  }

  // ---------- how large the log must be ----------

  lemma Extend(m: Machine, s: State, step: Step)
    requires Reachable(m, s) && Enabled(m, s, step)
    ensures Reachable(m, Next(m, s, step))
  {
    var trace :| Run(m, trace) && trace[|trace| - 1] == s;
    var t := Next(m, s, step);
    assert Steps(m, s, t);
    assert Run(m, trace + [t]);
    assert (trace + [t])[|trace + [t]| - 1] == t;
  }

  function ZeroDisk(n: nat): (d: Disk)
    ensures forall b :: b in d <==> 0 <= b < n
    ensures forall b :: b in d ==> d[b][0] == 0
  {
    if n == 0 then map[] else ZeroDisk(n - 1)[n - 1 := seq(BLOCK_WORDS, _ => 0)]
  }

  /** A machine with the given log size, a log at block 100, home blocks below it and one behind it. */
  ghost function Sample(size: nat): (m: Machine)
    requires 1 <= size
    ensures Bootable(m) && m.l == Layout(100, size) && m.d0 == ZeroDisk(101 + size) && forall b :: 0 <= b < 100 ==> IsHome(m, b)
  {
    Machine(Layout(100, size), ZeroDisk(101 + size))
  }

  /** `op` logs the `k` fresh blocks from `b` on, one log_write at a time. */
  lemma {:induction false} Fill(m: Machine, s: State, op: nat, b: int, k: nat) returns (t: State)
    requires Reachable(m, s) && s.phase.Running? && s.checked == {} && op in s.ops
    requires |s.ops[op]| + k <= MAXOPBLOCKS && |s.lh| + k <= LOGSIZE && |s.lh| + k <= m.l.size - 1
    requires forall x :: b <= x < b + k ==> IsHome(m, x)
    requires forall x :: x >= b ==> x !in s.lh
    ensures Reachable(m, t) && t.phase.Running? && t.checked == {} && t.nextOp == s.nextOp
    ensures t.ops.Keys == s.ops.Keys && |t.ops[op]| == |s.ops[op]| + k
    ensures forall o :: o in s.ops && o != op ==> t.ops[o] == s.ops[o]
    ensures |t.lh| == |s.lh| + k && forall x :: x >= b + k ==> x !in t.lh
    ensures t.disk == s.disk && t.committed == s.committed && forall x :: x in t.lh ==> x in s.lh || b <= x < b + k
  {
    if k == 0 {
      return s;
    }
    var u := Fill(m, s, op, b, k - 1);
    var x := b + k - 1;
    SpaceReachable(m, u);
    assert IsHome(m, x) && x !in u.lh && !LogFull(m, u);
    Extend(m, u, Check(op));
    var v := Next(m, u, Check(op));
    assert x !in u.ops[op];
    var step := Log(op, x, m.d0[x]);
    Extend(m, v, step);
    t := Next(m, v, step);
    assert t.checked == {};
  }

  lemma ThreeOps(m: Machine) returns (s: State)
    requires m.l.size >= 1
    ensures Reachable(m, s) && s.phase.Running? && s.checked == {} && s.lh == []
    ensures s.ops == map[0 := {}, 1 := {}, 2 := {}] && s.disk == m.d0 && s.committed == 0
  {
    var s0 := State(m.d0, map[], [], map[], {}, 0, Running, [], 0);
    assert Run(m, [s0]) && [s0][|[s0]| - 1] == s0;
    Extend(m, s0, Begin);
    var s1 := Next(m, s0, Begin);
    assert s1.ops == map[0 := {}];
    Extend(m, s1, Begin);
    var s2 := Next(m, s1, Begin);
    assert s2.ops == map[0 := {}, 1 := {}];
    Extend(m, s2, Begin);
    s := Next(m, s2, Begin);
  }

  /** Two operations that pass the unlocked test together overrun a log of at most LOGSIZE blocks. */
  lemma LogOverruns(size: nat) returns (m: Machine, t: State)
    requires 2 <= size <= LOGSIZE
    ensures m == Sample(size) && Reachable(m, t) && |t.lh| == size
    ensures t.phase.Running? && t.checked == {} && t.ops.Keys == {0, 1, 2} && t.disk == m.d0 && t.committed == 0
    ensures forall x :: x in t.lh ==> 0 <= x < 100
    ensures t.lh[size - 1] in t.pinned && t.pinned[t.lh[size - 1]] == Ones()
  {
    m := Sample(size);
    var s := ThreeOps(m);
    var total := size - 2;
    var a := if total < 9 then total else 9;
    var b := if total - a < 9 then total - a else 9;
    s := Fill(m, s, 1, 0, a);
    s := Fill(m, s, 2, a, b);
    s := Fill(m, s, 0, a + b, total - a - b);
    t := Race(m, s, total);
  }

  function Ones(): Block {
    seq(BLOCK_WORDS, _ => 1)
  }

  lemma Race(m: Machine, s: State, b: int) returns (t: State)
    requires Reachable(m, s) && s.phase.Running? && s.checked == {} && 1 in s.ops && 2 in s.ops
    requires |s.ops[1]| < MAXOPBLOCKS && |s.ops[2]| < MAXOPBLOCKS
    requires !LogFull(m, s) && IsHome(m, b) && IsHome(m, b + 1) && b !in s.lh && b + 1 !in s.lh
    ensures Reachable(m, t) && t.lh == s.lh + [b, b + 1] && b + 1 in t.pinned && t.pinned[b + 1] == Ones()
    ensures t.phase.Running? && t.checked == {} && t.ops.Keys == s.ops.Keys && t.disk == s.disk && t.committed == s.committed
  {
    Extend(m, s, Check(1));
    var u := Next(m, s, Check(1));
    Extend(m, u, Check(2));
    var v := Next(m, u, Check(2));
    Extend(m, v, Log(1, b, m.d0[b]));
    var w := Next(m, v, Log(1, b, m.d0[b]));
    assert b + 1 !in w.lh;
    Extend(m, w, Log(2, b + 1, Ones()));
    t := Next(m, w, Log(2, b + 1, Ones()));
    assert t.checked == {};
  }

  /** The last three operations end, and the commit begins. */
  lemma EndAll(m: Machine, s: State) returns (t: State)
    requires Reachable(m, s) && s.phase.Running? && s.checked == {} && s.ops.Keys == {0, 1, 2}
    ensures Reachable(m, t) && t == s.(ops := map[], phase := Committing(s.disk, s.committed, 0))
  {
    Extend(m, s, End(0));
    var u := Next(m, s, End(0));
    assert 1 in u.ops;
    Extend(m, u, End(1));
    var v := Next(m, u, End(1));
    assert 2 in v.ops && v.ops.Keys == {2};
    Extend(m, v, End(2));
    t := Next(m, v, End(2));
    assert v.ops - {2} == map[];
  }

  /** `d` is `base` with `data` in the `k` blocks behind the header. */
  ghost predicate SlotsWritten(m: Machine, base: Disk, d: Disk, data: seq<Block>, k: nat)
    requires k <= |data|
  {
    && d.Keys == base.Keys
    && forall b :: b in base ==> d[b] == if m.l.start < b <= m.l.start + k then data[b - m.l.start - 1] else base[b]
  }

  /** One write of write_log for a list that overran the log. */
  lemma SlotStep(m: Machine, s: State, data: seq<Block>)
    requires Reachable(m, s) && s.phase.Committing? && !FitsLog(m, s) && PhaseOk(m, s) && s.phase.k < |s.lh|
    requires data == Cached(s.phase.base, s.pinned, s.lh) && SlotsWritten(m, s.phase.base, s.disk, data, s.phase.k)
    ensures Enabled(m, s, DiskWrite) && Reachable(m, Next(m, s, DiskWrite))
    ensures SlotsWritten(m, s.phase.base, Next(m, s, DiskWrite).disk, data, s.phase.k + 1)
    ensures Next(m, s, DiskWrite)
         == s.(disk := Next(m, s, DiskWrite).disk, phase := Committing(s.phase.base, s.phase.before, s.phase.k + 1))
  {
    hide Reachable, Formatted;
    Extend(m, s, DiskWrite);
  }

  lemma {:induction false} WriteSlots(m: Machine, s: State, data: seq<Block>, k: nat) returns (t: State)
    requires Reachable(m, s) && s.phase.Committing? && s.phase.k == 0 && s.phase.base == s.disk
    requires !FitsLog(m, s) && PhaseOk(m, s) && k <= |s.lh| && data == Cached(s.disk, s.pinned, s.lh)
    ensures Reachable(m, t) && t == s.(disk := t.disk, phase := Committing(s.phase.base, s.phase.before, k))
    ensures SlotsWritten(m, s.disk, t.disk, data, k)
  {
    t := s;
    if k > 0 {
      var u := WriteSlots(m, s, data, k - 1);
      hide Reachable, Enabled, Next, SlotsWritten, Formatted, HomeBlocks, PastLog;
      SlotStep(m, u, data);
      t := Next(m, u, DiskWrite);
    }
  }

  /** Recovery does not restore a home block that no committed operation wrote. */
  lemma Destroyed(m: Machine, s: State, b: int)
    requires Bootable(m) && s.committed == 0 && IsHome(m, b) && b in s.disk && s.disk[b] != m.d0[b]
    requires m.l.start in s.disk && s.disk[m.l.start] == m.d0[m.l.start]
    ensures !Atomic(m, s)
  {
    if Formatted(m.l, s.disk) && s.committed <= |s.history| {
      EmptyLogRecovers(m.l, s.disk);
      assert Writes(s.history[..0]) == [];
      assert Home(m.l, s.disk)[b] != Home(m.l, m.d0)[b];
    }
  }

  /** The commit of a list that overran the log. */
  lemma OverrunCommit(m: Machine, s: State) returns (t: State)
    requires Reachable(m, s) && s.phase.Running? && s.checked == {} && s.ops.Keys == {0, 1, 2} && s.disk == m.d0 && Bootable(m)
    requires 0 <= m.l.start && m.l.size <= |s.lh| <= LOGSIZE && forall b :: 0 <= b <= m.l.start + |s.lh| ==> b in m.d0
    requires forall b :: b in s.lh ==> 0 <= b < m.l.start
    ensures Reachable(m, t) && t == s.(ops := map[], phase := Committing(s.disk, s.committed, 0)) && PhaseOk(m, t)
  {
    hide Reachable;
    t := EndAll(m, s);
    forall i | 0 <= i < |s.lh| ensures s.lh[i] in m.d0 {
      var b := s.lh[i];
      assert b in s.lh && 0 <= b < m.l.start;
    }
    assert !FitsLog(m, t) && PastLog(m, t.disk, t.lh);
  }

  /** A commit that overruns the log destroys the block behind it, which no operation wrote. */
  lemma OverrunDestroys(size: nat) returns (m: Machine, t: State)
    requires 2 <= size <= LOGSIZE
    ensures Bootable(m) && m.l.size == size && Reachable(m, t) && !Atomic(m, t)
  {
    hide Reachable, Atomic, Sample, ZeroDisk, SlotsWritten;
    var s;
    m, s := LogOverruns(size);
    s := OverrunCommit(m, s);
    t := WriteSlots(m, s, Cached(s.disk, s.pinned, s.lh), size);
    BehindLog(m, s, t, size);
  }

  /** The last of the slots is the block behind the log. */
  lemma BehindLog(m: Machine, s: State, t: State, size: nat)
    requires Bootable(m) && 2 <= size == |s.lh| && m.l == Layout(100, size) && m.d0 == ZeroDisk(101 + size) && s.disk == m.d0
    requires (forall i :: 0 <= i < size ==> s.lh[i] in s.disk) && t.committed == 0
    requires s.lh[size - 1] in s.pinned && s.pinned[s.lh[size - 1]] == Ones()
    requires SlotsWritten(m, s.disk, t.disk, Cached(s.disk, s.pinned, s.lh), size)
    ensures !Atomic(m, t)
  {
    hide Atomic, Formatted;
    var data := Cached(s.disk, s.pinned, s.lh);
    assert data[size - 1][0] == 1;
    assert t.disk[m.l.start + size] == data[size - 1];
    Destroyed(m, t, m.l.start + size);
  }

  ghost predicate AlwaysFits(size: nat) {
    forall m, s :: Bootable(m) && m.l.size == size && Reachable(m, s) ==> |s.lh| <= size - 1
  }

  lemma {:induction false} NoSlotsNoLog(m: Machine, trace: seq<State>)
    requires m.l.size == 1 && Run(m, trace)
    ensures trace[|trace| - 1].lh == [] && trace[|trace| - 1].checked == {}
  {
    var n := |trace| - 1;
    if n > 0 {
      assert Run(m, trace[..n]);
      NoSlotsNoLog(m, trace[..n]);
      assert Steps(m, trace[n - 1], trace[n]);
      var step :| Enabled(m, trace[n - 1], step) && Next(m, trace[n - 1], step) == trace[n];
      hide Enabled, Next;
      NoSlotsStep(m, trace[n - 1], step);
    }
  }

  lemma NoSlotsStep(m: Machine, s: State, step: Step)
    requires m.l.size == 1 && Enabled(m, s, step) && s.lh == [] && s.checked == {}
    ensures Next(m, s, step).lh == [] && Next(m, s, step).checked == {}
  {
    hide PhaseOk, PhaseWrites;
  }

  /**
   The blocks that a transaction lists always fit the log slots exactly when the log has more
   than LOGSIZE blocks, or no slot at all.  An image whose log has LOGSIZE blocks is too small.
   */
  lemma ExactLogSize(size: nat)
    requires size >= 1
    ensures AlwaysFits(size) <==> size > LOGSIZE || size == 1
  {
    if 2 <= size <= LOGSIZE {
      var m, t := LogOverruns(size);
    } else {
      forall m, s | Bootable(m) && m.l.size == size && Reachable(m, s) ensures |s.lh| <= size - 1 {
        if size == 1 {
          var trace :| Run(m, trace) && trace[|trace| - 1] == s;
          NoSlotsNoLog(m, trace);
        } else {
          CommitRunsAlone(m, s);
        }
      }
    }
  }

  /** The runs on images with a log of this size keep operations atomic. */
  ghost predicate AtomicAt(size: nat) {
    forall m, s :: Bootable(m) && m.l.size == size && Reachable(m, s) ==> Atomic(m, s)
  }

  /**
   Operations are atomic across crashes in all runs exactly when the log has more than LOGSIZE
   blocks, or no slot at all.
   */
  lemma ExactAtomicity(size: nat)
    requires size >= 1
    ensures AtomicAt(size) <==> size > LOGSIZE || size == 1
  {
    if 2 <= size <= LOGSIZE {
      var m, t := OverrunDestroys(size);
    } else {
      ExactLogSize(size);
      forall m, s | Bootable(m) && m.l.size == size && Reachable(m, s) ensures Atomic(m, s) {
        var trace :| Run(m, trace) && trace[|trace| - 1] == s;
        FitsAlong(m, trace);
        OperationsAreAtomic(m, trace);
      }
    }
  }

  lemma FitsAlong(m: Machine, trace: seq<State>)
    requires Bootable(m) && Run(m, trace) && AlwaysFits(m.l.size)
    ensures NoOverrun(m, trace)
  {
    forall i | 0 <= i < |trace| ensures CommitFits(m, trace[i]) {
      assert Run(m, trace[..i + 1]) && trace[..i + 1][|trace[..i + 1]| - 1] == trace[i];
      assert Reachable(m, trace[i]);
    }
  }

  /** No commit overruns a log of more than LOGSIZE blocks. */
  lemma LargeLogFits(m: Machine, trace: seq<State>)
    requires Bootable(m) && Run(m, trace) && m.l.size > LOGSIZE
    ensures NoOverrun(m, trace)
  {
    ExactLogSize(m.l.size);
    FitsAlong(m, trace);
  }

  /** On images with a log of this size, no log_write panics for want of space on an operation that has logged `k` blocks. */
  ghost predicate NeverPanicsAt(size: nat, k: nat) {
    forall m, s, op :: Bootable(m) && m.l.size == size && Reachable(m, s) && op in s.ops && |s.ops[op]| == k
                       ==> !LogFull(m, s)
  }

  /** An operation has logged no more blocks than there are slots, and fewer once it has passed the test. */
  ghost predicate OpsFit(m: Machine, s: State) {
    forall op :: op in s.ops ==>
      |s.ops[op]| <= m.l.size - 1 && (op in s.checked ==> |s.ops[op]| < m.l.size - 1)
  }

  lemma {:induction false} SubsetOfList(b: set<int>, lh: seq<int>)
    requires forall x :: x in b ==> x in lh
    ensures |b| <= |lh|
  {
    if lh == [] {
      assert forall x :: x in b ==> x in lh;
      assert b <= {};
    } else {
      var n := |lh| - 1;
      SubsetOfList(b - {lh[n]}, lh[..n]);
    }
  }

  lemma OpsFitKept(m: Machine, s: State, step: Step)
    requires 1 <= m.l.size && SpaceInv(m, s) && OpsFit(m, s) && Enabled(m, s, step)
    ensures OpsFit(m, Next(m, s, step))
  {
    hide SpaceInv, PhaseOk, PhaseWrites;
    NewOpUnchecked(m, s);
    if step.Check? {
      OpListed(m, s, step.op);
    }
  }

  lemma NewOpUnchecked(m: Machine, s: State)
    requires SpaceInv(m, s)
    ensures s.nextOp !in s.checked
  {
  }

  lemma OpListed(m: Machine, s: State, op: nat)
    requires SpaceInv(m, s) && op in s.ops
    ensures |s.ops[op]| <= |s.lh|
  {
    SubsetOfList(s.ops[op], s.lh);
  }

  lemma {:induction false} OpsFitAlong(m: Machine, trace: seq<State>)
    requires 1 <= m.l.size && Run(m, trace)
    ensures OpsFit(m, trace[|trace| - 1])
  {
    hide OpsFit, SpaceInv;
    var n := |trace| - 1;
    if n > 0 {
      assert Run(m, trace[..n]);
      OpsFitAlong(m, trace[..n]);
      SpaceAlong(m, trace[..n]);
      assert Steps(m, trace[n - 1], trace[n]);
      var step :| Enabled(m, trace[n - 1], step) && Next(m, trace[n - 1], step) == trace[n];
      OpsFitKept(m, trace[n - 1], step);
    } else {
      NoOps(m, trace[0]);
    }
  }

  lemma NoOps(m: Machine, s: State)
    requires Init(m, s)
    ensures OpsFit(m, s)
  {
  }

  /** An operation with `k` blocks, beside two that have filled the rest of the list. */
  lemma PanicAt(size: nat, k: nat) returns (m: Machine, s: State)
    requires 1 <= size && k <= MAXOPBLOCKS && k <= size - 1
    requires 2 * MAXOPBLOCKS + k >= LOGSIZE || 2 * MAXOPBLOCKS + k >= size - 1
    ensures Bootable(m) && m.l.size == size && Reachable(m, s) && s.phase.Running? && 2 in s.ops && |s.ops[2]| == k
    ensures LogFull(m, s)
  {
    m := Sample(size);
    s := ThreeOps(m);
    var rest := (if LOGSIZE < size - 1 then LOGSIZE else size - 1) - k;
    var a := if rest < MAXOPBLOCKS then rest else MAXOPBLOCKS;
    s := Fill(m, s, 2, 0, k);
    s := Fill(m, s, 0, k, a);
    s := Fill(m, s, 1, k + a, rest - a);
  }

  /**
   For every size of the log and every number of blocks `k`: the test of log_write panics on no operation
   that has logged `k` blocks exactly when two whole reservations and `k` blocks leave room in the list and
   in the log, or when no operation can have logged `k` blocks.
   */
  lemma ExactPanic(size: nat, k: nat)
    requires 1 <= size
    ensures NeverPanicsAt(size, k) <==>
              || (2 * MAXOPBLOCKS + k < LOGSIZE && 2 * MAXOPBLOCKS + k < size - 1)
              || k > MAXOPBLOCKS || k > size - 1
  {
    if k <= MAXOPBLOCKS && k <= size - 1 && (2 * MAXOPBLOCKS + k >= LOGSIZE || 2 * MAXOPBLOCKS + k >= size - 1) {
      var m, s := PanicAt(size, k);
    } else {
      forall m, s, op | Bootable(m) && m.l.size == size && Reachable(m, s) && op in s.ops && |s.ops[op]| == k
        ensures !LogFull(m, s)
      {
        CommitRunsAlone(m, s);
        NotTooMany(m, s, op);
      }
    }
  }

  lemma NotTooMany(m: Machine, s: State, op: nat)
    requires 1 <= m.l.size && Reachable(m, s) && op in s.ops
    ensures |s.ops[op]| <= MAXOPBLOCKS && |s.ops[op]| <= m.l.size - 1
  {
    SpaceReachable(m, s);
    var trace :| Run(m, trace) && trace[|trace| - 1] == s;
    OpsFitAlong(m, trace);
  }

  /** On the image that mkfs makes, log_write panics on an operation that has a block of its reservation left. */
  lemma MkfsPanics() returns (m: Machine, s: State)
    ensures Bootable(m) && m.l.size == LOGSIZE && Reachable(m, s) && s.phase.Running?
    ensures 2 in s.ops && |s.ops[2]| == MAXOPBLOCKS - 1 && Enabled(m, s, Check(2)) && Next(m, s, Check(2)).phase.Panicked?
  {
    m, s := PanicAt(LOGSIZE, MAXOPBLOCKS - 1);
  }
}
