/**
 What a crash leaves of the operations of one process (log.c under fs.c and file.c).

 The file system sees blocks of bytes, the log blocks of 32-bit words.  The operations of a process
 run one after another; each logs the blocks that it changes.  A run of the log protocol that logs
 what these operations log recovers, from a crash at any point, to the state between two of them.
 */
module CrashSafety {
  import opened FsLayout
  import opened BlockMap
  import opened Counting
  import opened FileSystem
  import opened FileWrite
  import L = LogProtocol
  import W = WriteAheadLog

  // ---------- bytes and words ----------

  ghost function WordsOf(b: Block): (w: W.Block)
    ensures forall i :: 0 <= i < NINDIRECT ==> w[i] == Word(b, i)
  {
    var w: seq<int> := seq(W.BLOCK_WORDS, i requires 0 <= i < NINDIRECT => Word(b, i));
    w
  }

  /** The words of a block determine its bytes. */
  lemma WordsDetermine(b: Block, c: Block)
    requires WordsOf(b) == WordsOf(c)
    ensures b == c
  {
    forall i | 0 <= i < NINDIRECT ensures Word(b, i) == Word(c, i) {
      assert WordsOf(b)[i] == Word(b, i);
    }
    hide WordsOf;
    forall k | 0 <= k < BSIZE ensures b[k] == c[k] {
      var i := k / 4;
      assert Word(b, i) == Word(c, i);
      SameBytes(b, c, 4 * i);
    }
  }

  lemma SameBytes(b: Block, c: Block, off: nat)
    requires off + 4 <= BSIZE && Read32(b, off) == Read32(c, off)
    ensures forall k :: off <= k < off + 4 ==> b[k] == c[k]
  {
    var b0: int, b1: int, b2: int, b3: int := b[off], b[off + 1], b[off + 2], b[off + 3];
    var c0: int, c1: int, c2: int, c3: int := c[off], c[off + 1], c[off + 2], c[off + 3];
    LowByte(b0, b1 + 256 * b2 + 65536 * b3, c0, c1 + 256 * c2 + 65536 * c3);
    LowByte(b1, b2 + 256 * b3, c1, c2 + 256 * c3);
    LowByte(b2, b3, c2, c3);
  }

  lemma LowByte(a: byte, x: int, c: byte, y: int)
    ensures a + 256 * x == c + 256 * y ==> a == c && x == y
  {
  }

  /** The home blocks `h` of the log's disk hold the file system's disk `d`. */
  ghost predicate Shows(l: W.Layout, h: W.Disk, d: Disk) {
    && (forall b :: b in h <==> 0 <= b < |d| && !W.InLog(l, b))
    && forall b: nat :: b in h ==> h[b] == WordsOf(d[b])
  }

  /** Overwriting the blocks of one operation gives the disk after it. */
  lemma Overlay(l: W.Layout, h: W.Disk, d: Disk, w: W.Disk, e: Disk, tx: set<nat>)
    requires Shows(l, h, d) && ConfinedTo(d, e, tx)
    requires (forall b :: b in w ==> 0 <= b < |e| && !W.InLog(l, b)) && (forall b: nat :: b in w <==> b in tx)
    requires forall b: nat :: b in w && b < |e| ==> w[b] == WordsOf(e[b])
    ensures Shows(l, h + w, e)
  {
    hide WordsOf;
  }

  // ---------- the history of operations that run one after another ----------

  function Before(h: seq<L.Logged>, j: nat): seq<L.Logged> {
    if h == [] then []
    else var n := |h| - 1; Before(h[..n], j) + if h[n].op < j then [h[n]] else []
  }

  function Of(h: seq<L.Logged>, j: nat): seq<L.Logged> {
    if h == [] then []
    else var n := |h| - 1; Of(h[..n], j) + if h[n].op == j then [h[n]] else []
  }

  predicate InOrder(h: seq<L.Logged>) {
    forall i, k :: 0 <= i < k < |h| ==> h[i].op <= h[k].op
  }

  lemma {:induction false} BeforeCut(h: seq<L.Logged>, j: nat, n: nat)
    requires n <= |h| && (forall i :: 0 <= i < n ==> h[i].op < j) && (forall i :: n <= i < |h| ==> h[i].op >= j)
    ensures Before(h, j) == h[..n]
  {
    if h != [] {
      var last := |h| - 1;
      if n == |h| {
        BeforeCut(h[..last], j, last);
        assert h[..n] == h[..last][..last] + [h[last]];
      } else {
        BeforeCut(h[..last], j, n);
        assert h[..last][..n] == h[..n];
      }
    }
  }

  lemma {:induction false} NoneOf(h: seq<L.Logged>, j: nat)
    requires forall i :: 0 <= i < |h| ==> h[i].op < j
    ensures Of(h, j) == []
  {
    if h != [] {
      NoneOf(h[..|h| - 1], j);
    }
  }

  lemma {:induction false} BeforeNext(h: seq<L.Logged>, j: nat)
    requires InOrder(h)
    ensures Before(h, j + 1) == Before(h, j) + Of(h, j)
  {
    if h != [] {
      var n := |h| - 1;
      BeforeNext(h[..n], j);
      if h[n].op < j {
        NoneOf(h[..n], j);
      }
    }
  }

  /** What operation `j` leaves in the blocks that it logged. */
  ghost function Left(h: seq<L.Logged>, j: nat): W.Disk {
    W.Apply(map[], L.Writes(Of(h, j)))
  }

  lemma NextResult(m: L.Machine, h: seq<L.Logged>, j: nat)
    requires InOrder(h)
    ensures L.Result(m, Before(h, j + 1)) == L.Result(m, Before(h, j)) + Left(h, j)
  {
    BeforeNext(h, j);
    var a, b := Before(h, j), Of(h, j);
    assert L.Writes(a + b) == L.Writes(a) + L.Writes(b);
    W.ApplyAppend(W.Home(m.l, m.d0), L.Writes(a), L.Writes(b));
    W.ApplyMerges(L.Result(m, a), L.Writes(b));
  }

  // ---------- the theorem ----------

  /** Operation `j` has logged exactly the blocks of `tx`, and last of all with their contents in `d`. */
  ghost predicate HasLogged(m: L.Machine, h: seq<L.Logged>, j: nat, tx: set<nat>, d: Disk) {
    && (forall b :: b in Left(h, j) ==> 0 <= b < |d| && !W.InLog(m.l, b))
    && (forall b: nat :: b in Left(h, j) <==> b in tx)
    && forall b: nat :: b in Left(h, j) && b < |d| ==> Left(h, j)[b] == WordsOf(d[b])
  }

  /**
   The run that ends in `s` has performed the first of the given operations, one after another: at most the
   newest one is outstanding, and each of the others has logged the blocks that it changed.
   */
  ghost predicate Performs(m: L.Machine, s: L.State, states: seq<FsState>, txs: seq<set<nat>>) {
    && Operations(states, txs) && s.nextOp <= |txs| && Shows(m.l, W.Home(m.l, m.d0), states[0].0)
    && InOrder(s.history) && (forall i :: 0 <= i < |s.history| ==> s.history[i].op < s.nextOp)
    && (forall op :: op in s.ops ==> op == s.nextOp - 1)
    && (forall j, k :: 0 <= j < k < |states| && Follows(j, k) && j < s.nextOp && j !in s.ops ==>
          HasLogged(m, s.history, j, txs[j], states[k].0))
  }

  lemma {:induction false} OperationsShow(m: L.Machine, s: L.State, states: seq<FsState>, txs: seq<set<nat>>, j: nat)
    requires Performs(m, s, states, txs) && j <= s.nextOp && forall op :: op in s.ops ==> op >= j
    ensures Shows(m.l, L.Result(m, Before(s.history, j)), states[j].0)
  {
    if j == 0 {
      BeforeCut(s.history, 0, 0);
      assert L.Writes([]) == [];
    } else {
      OperationsShow(m, s, states, txs, j - 1);
      assert Follows(j - 1, j) && j - 1 !in s.ops;
      assert HasLogged(m, s.history, j - 1, txs[j - 1], states[j].0);
      assert ConfinedTo(states[j - 1].0, states[j].0, txs[j - 1]);
      NextResult(m, s.history, j - 1);
      hide Shows, Left, ConfinedTo, L.Result;
      Overlay(m.l, L.Result(m, Before(s.history, j - 1)), states[j - 1].0, Left(s.history, j - 1), states[j].0, txs[j - 1]);
    }
  }

  /**
   Operations of one process are atomic and ordered across crashes.  Stopping the machine anywhere and
   recovering leaves the file system as it was after the first `c` operations, for some `c`; after all
   of them if none is outstanding and the log is empty.
   */
  lemma CrashRecovers(m: L.Machine, trace: seq<L.State>, s: L.State, states: seq<FsState>, txs: seq<set<nat>>) returns (c: nat)
    requires L.Bootable(m) && L.Run(m, trace) && L.NoOverrun(m, trace) && s == trace[|trace| - 1]
    requires Performs(m, s, states, txs)
    ensures c <= s.nextOp && W.Formatted(m.l, s.disk)
    ensures Shows(m.l, W.Home(m.l, W.Recovered(m.l, s.disk)), states[c].0)
    ensures s.lh == [] && s.ops == map[] ==> c == s.nextOp
  {
    hide L.Run, L.Bootable, L.NoOverrun, Shows, W.Formatted;
    L.OperationsAreAtomic(m, trace);
    L.EmptyListCommitted(m, trace);
    var h, n := s.history, s.committed;
    if s.ops == map[] && n == |h| {
      c := s.nextOp;
    } else {
      c := if n == 0 then 0 else h[n - 1].op + 1;
    }
    BeforeCut(h, c, n);
    OperationsShow(m, s, states, txs, c);
  }

  /**
   A crash before or during a filewrite, the operations of which follow the first `first` ones, leaves the file
   with a whole number of chunks of the write, or with all `n` bytes, and every other file as it was.
   */
  lemma CrashDuringFilewrite(m: L.Machine, trace: seq<L.State>, s: L.State, states: seq<FsState>, txs: seq<set<nat>>,
                             first: nat, sb: Super, ip: nat, off: nat, addr: seq<byte>, n: nat) returns (c: nat)
    requires L.Bootable(m) && m.l.size > W.LOGSIZE && L.Run(m, trace) && s == trace[|trace| - 1]
    requires Performs(m, s, states, txs) && first <= |txs|
    requires Chunked(sb, states[first..], txs[first..], ip, off, addr, n)
    ensures c <= s.nextOp && W.Formatted(m.l, s.disk)
    ensures Shows(m.l, W.Home(m.l, W.Recovered(m.l, s.disk)), states[c].0)
    ensures c >= first ==> Holds(sb, states[first], states[c], ip, off, addr, BytesAfter(c - first, n))
    ensures s.lh == [] && s.ops == map[] ==> c == s.nextOp
  {
    hide L.Run, L.Bootable, Shows, Holds, HasLogged, ConfinedTo, InOrder, W.Formatted;
    L.LargeLogFits(m, trace);
    c := CrashRecovers(m, trace, s, states, txs);
    if c >= first {
      assert states[first..][c - first] == states[c];
    }
  }
}
