/**
 The physical redo log of log.c on a disk that can stop after any block write.

 A run of disk writes is a list of `Write`s.  A crash keeps the disk as it is after some
 prefix of that list and loses everything else.  The class `Log` performs the writes; the
 functions above it say which list each operation writes; the lemmas between them are about
 every prefix of those lists.
 */
module WriteAheadLog {

  const MAXOPBLOCKS := 10
  const LOGSIZE := MAXOPBLOCKS * 3
  const BLOCK_WORDS := 128

  /** A disk block seen as its 32-bit words. */
  type Block = b: seq<int> | |b| == BLOCK_WORDS witness seq(BLOCK_WORDS, _ => 0)

  type Disk = map<int, Block>

  /** One bwrite: the unit that the disk performs atomically. */
  datatype Write = Write(blockno: int, data: Block)

  /** The log occupies blocks [start, start + size): the header, then the slots. */
  datatype Layout = Layout(start: int, size: int)

  predicate InLog(l: Layout, b: int) {
    l.start <= b < l.start + l.size
  }

  function Apply(d: Disk, ws: seq<Write>): Disk {
    if ws == [] then d
    else var w := ws[|ws| - 1]; Apply(d, ws[..|ws| - 1])[w.blockno := w.data]
  }

  /** The writes that reached the disk when the machine stopped after `k` of them. */
  function Cut(ws: seq<Write>, k: nat): seq<Write> {
    if k <= |ws| then ws[..k] else ws
  }

  // ---------- the header block ----------

  function Header(was: Block, lh: seq<int>): (h: Block)
    requires |lh| <= LOGSIZE
  {
    [|lh|] + lh + was[1 + |lh|..]
  }

  predicate HeaderOk(h: Block) {
    0 <= h[0] <= LOGSIZE
  }

  /** The block numbers that a header names. */
  function Logged(h: Block): seq<int>
    requires HeaderOk(h)
  {
    h[1..1 + h[0]]
  }

  lemma HeaderRoundTrip(was: Block, lh: seq<int>)
    requires |lh| <= LOGSIZE
    ensures HeaderOk(Header(was, lh)) && Logged(Header(was, lh)) == lh
  {
  }

  // ---------- which disks the log can be run on ----------

  predicate HomeBlocks(l: Layout, d: Disk, lh: seq<int>) {
    && |lh| <= LOGSIZE && |lh| <= l.size - 1
    && forall i :: 0 <= i < |lh| ==> lh[i] in d && !InLog(l, lh[i])
  }

  predicate Formatted(l: Layout, d: Disk) {
    && 1 <= l.size
    && (forall b :: l.start <= b < l.start + l.size ==> b in d)
    && HeaderOk(d[l.start])
    && HomeBlocks(l, d, Logged(d[l.start]))
  }

  /** The disk without the log. */
  function Home(l: Layout, d: Disk): (h: Disk)
    ensures forall b :: b in h <==> b in d && !InLog(l, b)
    ensures forall b :: b in h ==> h[b] == d[b]
  {
    d - (set b | l.start <= b < l.start + l.size && InLog(l, b))
  }

  // ---------- the write lists ----------

  /** write_log: slot i receives the cached content of block lh[i]. */
  function LogWrites(l: Layout, data: seq<Block>): seq<Write> {
    seq(|data|, i requires 0 <= i < |data| => Write(l.start + 1 + i, data[i]))
  }

  /** install_trans: block lh[i] receives the content of slot i. */
  function InstallWrites(l: Layout, d: Disk, lh: seq<int>): seq<Write>
    requires forall b :: l.start < b <= l.start + |lh| ==> b in d
  {
    seq(|lh|, i requires 0 <= i < |lh| => Write(lh[i], d[l.start + 1 + i]))
  }

  /** The same transaction as writes of its contents straight to their home blocks. */
  function HomeWrites(lh: seq<int>, data: seq<Block>): seq<Write>
    requires |lh| == |data|
  {
    seq(|lh|, i requires 0 <= i < |lh| => Write(lh[i], data[i]))
  }

  function RecoveryWrites(l: Layout, d: Disk): seq<Write>
    requires Formatted(l, d)
  {
    InstallWrites(l, d, Logged(d[l.start])) + [Write(l.start, Header(d[l.start], []))]
  }

  function CommitWrites(l: Layout, d: Disk, lh: seq<int>, data: seq<Block>): seq<Write>
    requires |lh| == |data| <= LOGSIZE && l.start in d
  {
    if lh == [] then []
    else
      var h := Header(d[l.start], lh);
      LogAndHeader(l, d, lh, data) + HomeWrites(lh, data) + [Write(l.start, Header(h, []))]
  }

  function Recovered(l: Layout, d: Disk): Disk
    requires Formatted(l, d)
  {
    Apply(d, RecoveryWrites(l, d))
  }

  // ---------- facts about write lists ----------

  lemma {:induction false} ApplyMerges(d: Disk, ws: seq<Write>)
    ensures Apply(d, ws) == d + Apply(map[], ws)
  {
    if ws != [] {
      ApplyMerges(d, ws[..|ws| - 1]);
    }
  }

  lemma {:induction false} ApplyAppend(d: Disk, us: seq<Write>, ws: seq<Write>)
    ensures Apply(d, us + ws) == Apply(Apply(d, us), ws)
  {
    if ws == [] {
      assert us + ws == us;
    } else {
      var n := |ws| - 1;
      assert (us + ws)[..|us + ws| - 1] == us + ws[..n];
      ApplyAppend(d, us, ws[..n]);
    }
  }

  lemma ApplyNext(d: Disk, ws: seq<Write>, k: nat)
    requires k < |ws|
    ensures Apply(d, ws[..0]) == d
    ensures Apply(d, ws[..k + 1]) == Apply(d, ws[..k])[ws[k].blockno := ws[k].data]
  {
    assert ws[..k + 1][..k] == ws[..k];
  }

  lemma {:induction false} ApplyKeys(d: Disk, ws: seq<Write>)
    ensures Apply(d, ws).Keys == d.Keys + set i | 0 <= i < |ws| :: ws[i].blockno
  {
    if ws != [] {
      ApplyKeys(d, ws[..|ws| - 1]);
      assert forall i :: 0 <= i < |ws| - 1 ==> ws[..|ws| - 1][i] == ws[i];
    }
  }

  /** Blocks that no write names keep their content. */
  lemma ApplyFrame(d: Disk, ws: seq<Write>, b: int)
    requires forall i :: 0 <= i < |ws| ==> ws[i].blockno != b
    ensures (b in Apply(d, ws)) == (b in d)
    ensures b in d ==> Apply(d, ws)[b] == d[b]
  {
  }

  /** Writing a prefix of a list and then the whole list is the same as writing the list. */
  lemma RedoAbsorbsPrefix(d: Disk, ws: seq<Write>, k: nat)
    requires k <= |ws|
    ensures Apply(Apply(d, ws[..k]), ws) == Apply(d, ws)
  {
    ApplyMerges(Apply(d, ws[..k]), ws);
    ApplyMerges(d, ws[..k]);
    ApplyMerges(d, ws);
    ApplyKeys(map[], ws[..k]);
    ApplyKeys(map[], ws);
  }

  /** Distinct slots: after write_log every slot holds its own content. */
  lemma {:induction false} LogWritesReach(l: Layout, d: Disk, data: seq<Block>, i: nat)
    requires i < |data|
    ensures var e := Apply(d, LogWrites(l, data)); l.start + 1 + i in e && e[l.start + 1 + i] == data[i]
  {
    var n := |data| - 1;
    assert LogWrites(l, data)[..n] == LogWrites(l, data[..n]);
    if i < n {
      LogWritesReach(l, d, data[..n], i);
    }
  }

  lemma ClearWrite(d: Disk, w: Write)
    ensures Apply(d, [w]) == d[w.blockno := w.data]
  {
  }

  // ---------- recovery ----------

  /** The disk after a recovery that itself stopped after `k` writes. */
  function CrashedRecovery(l: Layout, d: Disk, k: nat): (e: Disk)
    requires Formatted(l, d)
    ensures Formatted(l, e) && e.Keys == d.Keys
    ensures Recovered(l, e) == Recovered(l, d)
  {
    RecoveryIsIdempotent(l, d, k);
    Apply(d, Cut(RecoveryWrites(l, d), k))
  }

  /** Any number of recoveries, each stopped after the given number of writes. */
  function CrashedRecoveries(l: Layout, d: Disk, cuts: seq<nat>): (e: Disk)
    requires Formatted(l, d)
    ensures Formatted(l, e) && Recovered(l, e) == Recovered(l, d)
    decreases |cuts|
  {
    if cuts == [] then d else CrashedRecoveries(l, CrashedRecovery(l, d, cuts[0]), cuts[1..])
  }

  /** install_trans never touches the log, so a partial install leaves the same recovery to do. */
  lemma PartialInstall(l: Layout, d: Disk, k: nat)
    requires Formatted(l, d) && k <= |Logged(d[l.start])|
    ensures var e := Apply(d, InstallWrites(l, d, Logged(d[l.start]))[..k]);
            && Formatted(l, e) && e.Keys == d.Keys
            && RecoveryWrites(l, e) == RecoveryWrites(l, d)
  {
    var lh := Logged(d[l.start]);
    var ws := InstallWrites(l, d, lh)[..k];
    ApplyKeys(d, ws);
    forall b | InLog(l, b) ensures Apply(d, ws)[b] == d[b] {
      ApplyFrame(d, ws, b);
    }
    assert RecoveryWrites(l, Apply(d, ws)) == RecoveryWrites(l, d);
  }

  lemma RecoveryIsIdempotent(l: Layout, d: Disk, k: nat)
    requires Formatted(l, d)
    ensures var e := Apply(d, Cut(RecoveryWrites(l, d), k));
            Formatted(l, e) && e.Keys == d.Keys && Recovered(l, e) == Recovered(l, d)
  {
    var lh := Logged(d[l.start]);
    var inst := InstallWrites(l, d, lh);
    var ws := RecoveryWrites(l, d);
    if k <= |lh| {
      assert ws[..k] == inst[..k];
      PartialInstall(l, d, k);
      RedoAbsorbsPrefix(d, ws, k);
    } else {
      assert Cut(ws, k) == ws;
      RecoveryClearsHeader(l, d);
    }
  }

  /** A full recovery leaves an empty log and a disk on which recovery changes nothing. */
  lemma RecoveryClearsHeader(l: Layout, d: Disk)
    requires Formatted(l, d)
    ensures var e := Recovered(l, d);
            && Formatted(l, e) && e.Keys == d.Keys
            && Logged(e[l.start]) == [] && Recovered(l, e) == e
            && Home(l, e) == Home(l, Apply(d, InstallWrites(l, d, Logged(d[l.start]))))
  {
    var lh := Logged(d[l.start]);
    var f := Apply(d, InstallWrites(l, d, lh));
    InstallKeepsHeader(l, d, f);
    var e := f[l.start := Header(d[l.start], [])];
    HeaderRoundTrip(d[l.start], []);
    EmptyLogRecovers(l, e);
  }

  /** install_trans followed by clearing the header is a recovery. */
  lemma InstallKeepsHeader(l: Layout, d: Disk, e: Disk)
    requires Formatted(l, d)
    requires e == Apply(d, InstallWrites(l, d, Logged(d[l.start])))
    ensures Formatted(l, e) && e.Keys == d.Keys && e[l.start] == d[l.start]
    ensures e[l.start := Header(d[l.start], [])] == Recovered(l, d)
  {
    var inst := InstallWrites(l, d, Logged(d[l.start]));
    assert inst[..|inst|] == inst;
    PartialInstall(l, d, |inst|);
    ApplyFrame(d, inst, l.start);
    ApplyAppend(d, inst, [Write(l.start, Header(d[l.start], []))]);
    ClearWrite(e, Write(l.start, Header(d[l.start], [])));
  }

  lemma EmptyLogRecovers(l: Layout, d: Disk)
    requires Formatted(l, d) && Logged(d[l.start]) == []
    ensures Recovered(l, d) == d[l.start := Header(d[l.start], [])]
    ensures d[l.start] == Header(d[l.start], []) && Recovered(l, d) == d
    ensures Home(l, Recovered(l, d)) == Home(l, d)
  {
    var h := d[l.start];
    assert h[0] == 0;
    assert Header(h, []) == h;
    assert RecoveryWrites(l, d) == [Write(l.start, h)];
    ClearWrite(d, Write(l.start, h));
  }

  // ---------- commit ----------

  predicate Committable(l: Layout, d: Disk, lh: seq<int>, data: seq<Block>) {
    && Formatted(l, d) && Logged(d[l.start]) == []
    && |lh| == |data| && HomeBlocks(l, d, lh)
  }

  /** Before the header is written the log still reads as empty: nothing was committed. */
  lemma CrashBeforeHeader(l: Layout, d: Disk, lh: seq<int>, data: seq<Block>, k: nat)
    requires Committable(l, d, lh, data) && k <= |lh|
    ensures var e := Apply(d, Cut(CommitWrites(l, d, lh, data), k));
            Formatted(l, e) && e.Keys == d.Keys && Home(l, Recovered(l, e)) == Home(l, d)
  {
    var ws := Cut(CommitWrites(l, d, lh, data), k);
    assert lh != [] ==> ws == LogWrites(l, data)[..k];
    var e := Apply(d, ws);
    ApplyKeys(d, ws);
    forall b | b in d && (b == l.start || !InLog(l, b)) ensures e[b] == d[b] {
      ApplyFrame(d, ws, b);
    }
    EmptyLogRecovers(l, e);
  }

  /** write_log fills the slots and changes nothing else. */
  lemma LogFilled(l: Layout, d: Disk, data: seq<Block>)
    requires Formatted(l, d) && |data| <= l.size - 1
    ensures var f := Apply(d, LogWrites(l, data));
            && f.Keys == d.Keys && f[l.start] == d[l.start] && Home(l, f) == Home(l, d)
            && forall b :: l.start < b <= l.start + |data| ==> f[b] == data[b - l.start - 1]
  {
    var ws := LogWrites(l, data);
    var f := Apply(d, ws);
    ApplyKeys(d, ws);
    ApplyFrame(d, ws, l.start);
    forall b | b in d && !InLog(l, b) ensures f[b] == d[b] {
      ApplyFrame(d, ws, b);
    }
    forall b | l.start < b <= l.start + |data| ensures f[b] == data[b - l.start - 1] {
      LogWritesReach(l, d, data, b - l.start - 1);
    }
  }

  /** The writes up to and including the header. */
  function LogAndHeader(l: Layout, d: Disk, lh: seq<int>, data: seq<Block>): seq<Write>
    requires |lh| <= LOGSIZE && l.start in d
  {
    LogWrites(l, data) + [Write(l.start, Header(d[l.start], lh))]
  }

  /** The disk right after the header write: the log holds the whole transaction. */
  lemma HeaderWritten(l: Layout, d: Disk, lh: seq<int>, data: seq<Block>, e: Disk)
    requires Committable(l, d, lh, data)
    requires e == Apply(d, LogAndHeader(l, d, lh, data))
    ensures Formatted(l, e) && e.Keys == d.Keys && Home(l, e) == Home(l, d)
    ensures e[l.start] == Header(d[l.start], lh) && Logged(e[l.start]) == lh
    ensures InstallWrites(l, e, lh) == HomeWrites(lh, data)
  {
    hide Apply, Header, Logged;
    var h := Header(d[l.start], lh);
    var f := Apply(d, LogWrites(l, data));
    LogFilled(l, d, data);
    HeaderRoundTrip(d[l.start], lh);
    ApplyAppend(d, LogWrites(l, data), [Write(l.start, h)]);
    ClearWrite(f, Write(l.start, h));
    assert Home(l, f[l.start := h]) == Home(l, f);
  }

  lemma HeaderLast(l: Layout, d: Disk, lh: seq<int>, data: seq<Block>, f: Disk, e: Disk)
    requires Committable(l, d, lh, data)
    requires f == Apply(d, LogWrites(l, data)) && l.start in f && f[l.start] == d[l.start]
    requires e == f[l.start := Header(f[l.start], lh)]
    ensures e == Apply(d, LogAndHeader(l, d, lh, data))
    ensures Formatted(l, e) && e.Keys == d.Keys && e[l.start] == Header(d[l.start], lh) && Logged(e[l.start]) == lh
    ensures InstallWrites(l, e, lh) == HomeWrites(lh, data)
  {
    ApplyAppend(d, LogWrites(l, data), [Write(l.start, Header(d[l.start], lh))]);
    ClearWrite(f, Write(l.start, Header(d[l.start], lh)));
    HeaderWritten(l, d, lh, data, e);
  }

  /** The commit list is the log and the header, followed by what recovery would then do. */
  lemma CommitIsLogThenRecovery(l: Layout, d: Disk, lh: seq<int>, data: seq<Block>, e: Disk)
    requires Committable(l, d, lh, data) && lh != []
    requires e == Apply(d, LogAndHeader(l, d, lh, data))
    ensures Formatted(l, e) && e.Keys == d.Keys
    ensures CommitWrites(l, d, lh, data) == LogAndHeader(l, d, lh, data) + RecoveryWrites(l, e)
    ensures Home(l, Recovered(l, e)) == Home(l, Apply(d, HomeWrites(lh, data)))
  {
    hide Apply, Home, Header, HeaderOk, InLog;
    HeaderWritten(l, d, lh, data, e);
    RecoveryClearsHeader(l, e);
    HomeApply(l, e, HomeWrites(lh, data));
    HomeApply(l, d, HomeWrites(lh, data));
  }

  /** Writes outside the log act on the home blocks alone. */
  lemma HomeApply(l: Layout, d: Disk, ws: seq<Write>)
    requires forall i :: 0 <= i < |ws| ==> ws[i].blockno in d && !InLog(l, ws[i].blockno)
    ensures Home(l, Apply(d, ws)) == Apply(Home(l, d), ws) && Apply(d, ws).Keys == d.Keys
  {
  }

  /** From the header write on, recovery produces the whole transaction. */
  lemma CrashAfterHeader(l: Layout, d: Disk, lh: seq<int>, data: seq<Block>, k: nat)
    requires Committable(l, d, lh, data) && lh != [] && k > |lh|
    ensures var e := Apply(d, Cut(CommitWrites(l, d, lh, data), k));
            && Formatted(l, e) && e.Keys == d.Keys
            && Home(l, Recovered(l, e)) == Home(l, Apply(d, HomeWrites(lh, data)))
  {
    var first := LogAndHeader(l, d, lh, data);
    var e, j := Apply(d, first), k - |lh| - 1;
    CommitIsLogThenRecovery(l, d, lh, data, e);
    var rest := RecoveryWrites(l, e);
    assert Cut(first + rest, k) == first + Cut(rest, j);
    ApplyAppend(d, first, Cut(rest, j));
    RecoveryIsIdempotent(l, e, j);
  }

  /**
   Crash atomicity of commit.  Stop commit after `k` writes, stop any number of recoveries
   after `cuts[0]`, `cuts[1]`, ... writes, and let one recovery finish: the home blocks hold
   the transaction exactly when the non-empty header had been written, and otherwise are as
   they were before.  The log is empty again.
   */
  lemma CommitIsAtomic(l: Layout, d: Disk, lh: seq<int>, data: seq<Block>, k: nat, cuts: seq<nat>)
    requires Committable(l, d, lh, data)
    ensures var e := Apply(d, Cut(CommitWrites(l, d, lh, data), k));
            && Formatted(l, e)
            && var r := Recovered(l, CrashedRecoveries(l, e, cuts));
               && Formatted(l, r) && Logged(r[l.start]) == [] && r.Keys == d.Keys
               && Home(l, r) == (if k > |lh| then Home(l, Apply(d, HomeWrites(lh, data))) else Home(l, d))
  {
    if k <= |lh| {
      CrashBeforeHeader(l, d, lh, data, k);
    } else if lh == [] {
      CrashBeforeHeader(l, d, lh, data, 0);
      assert CommitWrites(l, d, lh, data) == [];
      assert HomeWrites(lh, data) == [];
    } else {
      CrashAfterHeader(l, d, lh, data, k);
    }
    var e := Apply(d, Cut(CommitWrites(l, d, lh, data), k));
    RecoveryClearsHeader(l, e);
  }

  lemma CommitDone(l: Layout, d: Disk, lh: seq<int>, data: seq<Block>, e: Disk, g: Disk, none: seq<int>)
    requires Committable(l, d, lh, data) && lh != [] && none == []
    requires e == Apply(d, LogAndHeader(l, d, lh, data)) && Formatted(l, e) && Logged(e[l.start]) == lh
    requires e[l.start] == Header(d[l.start], lh)
    requires g == Apply(e, InstallWrites(l, e, lh)) && l.start in g && g[l.start] == e[l.start]
    ensures g[l.start := Header(g[l.start], none)] == Apply(d, CommitWrites(l, d, lh, data))
    ensures forall ws: seq<Write> ::
              ws + LogWrites(l, data) + [Write(l.start, Header(d[l.start], lh))] + HomeWrites(lh, data)
              + [Write(l.start, Header(g[l.start], none))] == ws + CommitWrites(l, d, lh, data)
  {
    hide Apply, Home, HeaderOk, InLog, Logged;
    CommitIsLogThenRecovery(l, d, lh, data, e);
    ApplyAppend(d, LogAndHeader(l, d, lh, data), RecoveryWrites(l, e));
    InstallKeepsHeader(l, e, g);
  }

  /** A commit that is not interrupted installs the transaction and leaves the log empty. */
  lemma CommitCompletes(l: Layout, d: Disk, lh: seq<int>, data: seq<Block>)
    requires Committable(l, d, lh, data)
    ensures var e := Apply(d, CommitWrites(l, d, lh, data));
            && Formatted(l, e) && Logged(e[l.start]) == [] && e.Keys == d.Keys
            && Home(l, e) == Home(l, Apply(d, HomeWrites(lh, data)))
  {
    if lh == [] {
      assert HomeWrites(lh, data) == [];
    } else {
      var first := LogAndHeader(l, d, lh, data);
      var e := Apply(d, first);
      CommitIsLogThenRecovery(l, d, lh, data, e);
      ApplyAppend(d, first, RecoveryWrites(l, e));
      RecoveryClearsHeader(l, e);
    }
  }

  // ---------- the operations ----------

  /** log_write's effect on the list of logged blocks: a block is listed once. */
  function Absorb(lh: seq<int>, b: int): (r: seq<int>) {
    if b in lh then lh else lh + [b]
  }

  predicate Distinct(s: seq<int>) {
    forall i, j :: 0 <= i < j < |s| ==> s[i] != s[j]
  }

  /** What the buffer cache holds for the blocks of a list. */
  function Cached(d: Disk, pinned: map<int, Block>, lh: seq<int>): (data: seq<Block>)
    requires forall i :: 0 <= i < |lh| ==> lh[i] in d
  {
    seq(|lh|, i requires 0 <= i < |lh| => if lh[i] in pinned then pinned[lh[i]] else d[lh[i]])
  }

  /** The first `k` of the writes `ws` have led from (d0, w0) to (d, w): disk contents and writes performed. */
  ghost predicate Performed(d0: Disk, w0: seq<Write>, d: Disk, w: seq<Write>, ws: seq<Write>, k: nat)
    requires k <= |ws|
  {
    d == Apply(d0, ws[..k]) && w == w0 + ws[..k]
  }

  lemma PerformedNone(d: Disk, w: seq<Write>, ws: seq<Write>)
    ensures Performed(d, w, d, w, ws, 0)
  {
  }

  lemma PerformedNext(d0: Disk, w0: seq<Write>, d: Disk, w: seq<Write>, ws: seq<Write>, k: nat)
    requires k < |ws| && Performed(d0, w0, d, w, ws, k)
    ensures Performed(d0, w0, d[ws[k].blockno := ws[k].data], w + [ws[k]], ws, k + 1)
  {
    ApplyNext(d0, ws, k);
    assert ws[..k + 1] == ws[..k] + [ws[k]];
  }

  lemma PerformedAll(d0: Disk, w0: seq<Write>, d: Disk, w: seq<Write>, ws: seq<Write>)
    requires Performed(d0, w0, d, w, ws, |ws|)
    ensures d == Apply(d0, ws) && w == w0 + ws
  {
    assert ws[..|ws|] == ws;
  }

  /** Blocks that the writes do not touch are as they were, and no block disappears. */
  lemma PerformedFrame(d0: Disk, w0: seq<Write>, d: Disk, w: seq<Write>, ws: seq<Write>, k: nat, b: int)
    requires k <= |ws| && Performed(d0, w0, d, w, ws, k) && forall i :: 0 <= i < |ws| ==> ws[i].blockno in d0
    ensures d.Keys == d0.Keys && (b in d && (forall i :: 0 <= i < |ws| ==> ws[i].blockno != b) ==> d[b] == d0[b])
  {
    ApplyKeys(d0, ws[..k]);
    if forall i :: 0 <= i < |ws| ==> ws[i].blockno != b {
      ApplyFrame(d0, ws[..k], b);
    }
  }

  /** The pinned blocks other than the first `k` of a list. */
  function Without(pinned: map<int, Block>, lh: seq<int>, k: nat): (r: map<int, Block>)
    requires k <= |lh|
    ensures forall b :: b in r ==> b in pinned
  {
    pinned - (set b | b in lh[..k])
  }

  lemma WithoutNone(pinned: map<int, Block>, lh: seq<int>)
    ensures Without(pinned, lh, 0) == pinned && Without(pinned, lh, |lh|) == pinned - (set b | b in lh)
  {
    assert lh[..|lh|] == lh;
  }

  lemma WithoutNext(pinned: map<int, Block>, lh: seq<int>, k: nat)
    requires k < |lh|
    ensures Without(pinned, lh, k + 1) == Without(pinned, lh, k) - {lh[k]}
  {
    assert lh[..k + 1] == lh[..k] + [lh[k]];
  }

  class Log {
    const layout: Layout
    const block: array<int>
    var n: int
    var disk: Disk
    /** Cached blocks that carry B_DIRTY: newer than the disk and not to be evicted. */
    var pinned: map<int, Block>
    /** Every bwrite so far, in order. */
    ghost var writes: seq<Write>

    ghost predicate Valid()
      reads this, block
    {
      && block.Length == LOGSIZE && 0 <= n <= LOGSIZE
      && Formatted(layout, disk)
      && pinned.Keys <= disk.Keys
    }

    constructor (l: Layout, d: Disk)
      requires Formatted(l, d)
      ensures Valid() && layout == l && disk == d && pinned == map[] && writes == [] && n == 0
      ensures fresh(block)
    {
      layout, disk, pinned, writes, n := l, d, map[], [], 0;
      block := new int[LOGSIZE];
    }

    function Lh(): seq<int>
      requires block.Length == LOGSIZE && 0 <= n <= LOGSIZE
      reads this, block
    {
      block[..n]
    }

    /** bread: the cached copy if there is one. */
    function Bread(b: int): Block
      requires b in disk
      reads this
    {
      if b in pinned then pinned[b] else disk[b]
    }

    function LoggedData(): seq<Block>
      requires block.Length == LOGSIZE && 0 <= n <= LOGSIZE
      requires forall i :: 0 <= i < n ==> block[i] in disk
      reads this, block
    {
      Cached(disk, pinned, Lh())
    }

    method Bwrite(b: int, data: Block)
      requires b in disk
      modifies this`disk, this`pinned, this`writes
      ensures disk == old(disk)[b := data] && pinned == old(pinned) - {b}
      ensures writes == old(writes) + [Write(b, data)]
    {
      disk := disk[b := data];
      pinned := pinned - {b};
      writes := writes + [Write(b, data)];
    }

    method WriteLog()
      requires block.Length == LOGSIZE && 0 <= n <= LOGSIZE && HomeBlocks(layout, disk, Lh())
      requires forall b :: layout.start <= b < layout.start + layout.size ==> b in disk && b !in pinned
      modifies this`disk, this`pinned, this`writes
      ensures disk == Apply(old(disk), LogWrites(layout, old(LoggedData())))
      ensures writes == old(writes) + LogWrites(layout, old(LoggedData()))
      ensures pinned == old(pinned)
    {
      var tail := 0;
      ghost var data := LoggedData();
      ghost var ws := LogWrites(layout, data);
      assert |ws| == n && forall i :: 0 <= i < n ==> ws[i] == Write(layout.start + 1 + i, Bread(block[i]));
      assert forall i :: 0 <= i < n ==> block[i] in disk && !InLog(layout, block[i]);
      hide Apply, LogWrites, HomeBlocks, Cached, LoggedData, Performed;
      PerformedNone(disk, writes, ws);
      while tail < n
        invariant 0 <= tail <= n && pinned == old(pinned)
        invariant Performed(old(disk), old(writes), disk, writes, ws, tail)
      {
        PerformedFrame(old(disk), old(writes), disk, writes, ws, tail, block[tail]);
        PerformedNext(old(disk), old(writes), disk, writes, ws, tail);
        var from := Bread(block[tail]);
        Bwrite(layout.start + tail + 1, from);
        tail := tail + 1;
      }
      PerformedAll(old(disk), old(writes), disk, writes, ws);
    }

    method WriteHead()
      requires block.Length == LOGSIZE && 0 <= n <= LOGSIZE
      requires layout.start in disk && layout.start !in pinned
      modifies this`disk, this`pinned, this`writes
      ensures disk == old(disk)[layout.start := Header(old(disk)[layout.start], Lh())]
      ensures writes == old(writes) + [Write(layout.start, Header(old(disk)[layout.start], Lh()))]
      ensures pinned == old(pinned)
    {
      var buf := Bread(layout.start);
      var hb: seq<int> := buf[0 := n];
      for i := 0 to n
        invariant |hb| == BLOCK_WORDS && hb == [n] + block[..i] + buf[1 + i..]
      {
        hb := hb[i + 1 := block[i]];
      }
      Bwrite(layout.start, hb);
    }

    method InstallTrans()
      requires block.Length == LOGSIZE && 0 <= n <= LOGSIZE
      requires HomeBlocks(layout, disk, Lh())
      requires forall b :: layout.start <= b < layout.start + layout.size ==> b in disk && b !in pinned
      modifies this`disk, this`pinned, this`writes
      ensures disk == Apply(old(disk), InstallWrites(layout, old(disk), Lh()))
      ensures writes == old(writes) + InstallWrites(layout, old(disk), Lh())
      ensures pinned == old(pinned) - (set b | b in Lh())
    {
      var tail := 0;
      ghost var ws := InstallWrites(layout, disk, Lh());
      assert |ws| == n && forall i :: 0 <= i < n ==> ws[i] == Write(block[i], disk[layout.start + 1 + i]);
      assert forall i :: 0 <= i < n ==> block[i] in disk && !InLog(layout, block[i]);
      ghost var lh := Lh();
      hide Apply, InstallWrites, HomeBlocks, Performed, Without;
      PerformedNone(disk, writes, ws);
      WithoutNone(pinned, lh);
      while tail < n
        invariant 0 <= tail <= n && pinned == Without(old(pinned), lh, tail)
        invariant Performed(old(disk), old(writes), disk, writes, ws, tail)
      {
        PerformedFrame(old(disk), old(writes), disk, writes, ws, tail, layout.start + tail + 1);
        PerformedNext(old(disk), old(writes), disk, writes, ws, tail);
        WithoutNext(old(pinned), lh, tail);
        var lbuf := Bread(layout.start + tail + 1);
        Bwrite(block[tail], lbuf);
        tail := tail + 1;
      }
      PerformedAll(old(disk), old(writes), disk, writes, ws);
    }

    method ReadHead()
      requires Valid() && layout.start !in pinned
      modifies this`n, block
      ensures block.Length == LOGSIZE && 0 <= n <= LOGSIZE && Lh() == Logged(disk[layout.start])
    {
      var buf := Bread(layout.start);
      n := buf[0];
      for i := 0 to n
        invariant n == buf[0]
        invariant block[..i] == buf[1..1 + i]
      {
        block[i] := buf[i + 1];
      }
    }

    /** recover_from_log performs exactly the list `RecoveryWrites`. */
    method RecoverFromLog()
      requires Valid() && pinned == map[]
      modifies this, block
      ensures Valid() && n == 0 && pinned == map[]
      ensures disk == Recovered(layout, old(disk))
      ensures writes == old(writes) + RecoveryWrites(layout, old(disk))
    {
      hide Apply, InstallWrites, Header, HomeBlocks, Home, Logged, InLog, Recovered;
      ghost var d := disk;
      RecoveryClearsHeader(layout, d);
      ReadHead();
      InstallTrans();
      ghost var e := disk;
      InstallKeepsHeader(layout, d, e);
      n := 0;
      WriteHead();
      assert block[..0] == [];
    }

    /**
     commit performs exactly the list `CommitWrites`, so `CommitIsAtomic` speaks about every
     point at which it can stop; when it returns the transaction is installed and unpinned.
     */
    method Commit()
      requires Valid() && HomeBlocks(layout, disk, Lh()) && Logged(disk[layout.start]) == []
      requires forall b :: b in pinned ==> !InLog(layout, b)
      modifies this, block
      ensures Valid() && n == 0 && Logged(disk[layout.start]) == []
      ensures writes == old(writes) + CommitWrites(layout, old(disk), old(Lh()), old(LoggedData()))
      ensures disk == Apply(old(disk), CommitWrites(layout, old(disk), old(Lh()), old(LoggedData())))
      ensures Home(layout, disk) == Home(layout, Apply(old(disk), HomeWrites(old(Lh()), old(LoggedData()))))
      ensures pinned == old(pinned) - (set b | b in old(Lh()))
    {
      ghost var d, lh, data := disk, Lh(), LoggedData();
      CommitCompletes(layout, d, lh, data);
      if n > 0 {
        WriteLog();
        LogFilled(layout, d, data);
        ghost var f := disk;
        WriteHead();
        ghost var e := disk;
        HeaderLast(layout, d, lh, data, f, e);
        InstallTrans();
        ghost var g := disk;
        InstallKeepsHeader(layout, e, g);
        n := 0;
        WriteHead();
        CommitDone(layout, d, lh, data, e, g, block[..0]);
      }
    }

    /**
     log_write.  `panicked` covers the two panics, which are tested before the lock is taken;
     otherwise the block is listed once and pinned with its new content.
     */
    method LogWrite(b: int, data: Block, outstanding: int) returns (panicked: bool)
      requires Valid() && b in disk
      modifies this`n, this`pinned, block
      ensures panicked <==> old(n) >= LOGSIZE || old(n) >= layout.size - 1 || outstanding < 1
      ensures panicked ==> n == old(n) && block[..] == old(block[..]) && pinned == old(pinned)
      ensures !panicked ==> Valid() && Lh() == Absorb(old(Lh()), b) && pinned == old(pinned)[b := data]
      ensures !panicked && Distinct(old(Lh())) ==> Distinct(Lh())
    {
      if n >= LOGSIZE || n >= layout.size - 1 || outstanding < 1 {
        return true;
      }
      var i := 0;
      while i < n && block[i] != b
        invariant 0 <= i <= n && b !in block[..i]
      {
        i := i + 1;
      }
      block[i] := b;
      if i == n {
        n := n + 1;
      }
      pinned := pinned[b := data];
      return false;
    }
  }
}
