/**
 filewrite of file.c: a long write is cut into chunks, each a log operation of its own.
 */
module FileWrite {
  import opened FsLayout
  import opened BlockMap
  import opened Counting
  import opened FileSystem
  import WriteAheadLog

  /** The largest chunk that one operation writes: ((MAXOPBLOCKS - 1 - 1 - 2) / 2) * 512. */
  const CHUNK := 1536

  class File {
    const ip: nat
    const writable: bool
    var off: uint32

    constructor (ip: nat, writable: bool)
      ensures this.ip == ip && this.writable == writable && off == 0
    {
      this.ip, this.writable, off := ip, writable, 0;
    }
  }

  /** How many of `n` bytes fit: all, or the whole chunks that fit before the largest file ends. */
  function Accepted(size: nat, off: nat, n: nat): (done: nat)
    requires size <= MAXFILE * BSIZE
    ensures done <= n && (off <= size ==> off + done <= MAXFILE * BSIZE) && (off > size ==> done == 0)
    ensures done == n <==> n == 0 || (off <= size && off + n <= MAXFILE * BSIZE)
  {
    if n == 0 || off > size then 0
    else if off + n <= MAXFILE * BSIZE then n
    else (MAXFILE * BSIZE - off) / CHUNK * CHUNK
  }

  /** Two adjacent writes are one. */
  lemma OverwriteTwice(c: seq<byte>, off: nat, a: seq<byte>, b: seq<byte>)
    requires off <= |c|
    ensures off + |a| <= |Overwrite(c, off, a)|
    ensures Overwrite(Overwrite(c, off, a), off + |a|, b) == Overwrite(c, off, a + b)
  {
  }

  lemma StoredMore(d: Disk, t: Table, e: Disk, u: Table, f: Disk, v: Table, i: nat, off: nat, a: seq<byte>, b: seq<byte>)
    requires Stored(d, t, e, u, i, off, a) && Stored(e, u, f, v, i, off + |a|, b)
    ensures Stored(d, t, f, v, i, off, a + b)
  {
    hide Overwrite, Content;
    OverwriteTwice(Content(d, t, i), off, a, b);
  }

  /** Where the chunk loop stands after `i` bytes of file `ip`. */
  ghost predicate Progress(d: Disk, t: Table, e: Disk, u: Table, ip: nat, off: nat, addr: seq<byte>, n: int, i: nat) {
    && ip < |t| == |u| && u[ip].typ == t[ip].typ && i <= |addr| && (n >= 0 ==> i <= n) && (n < 0 ==> i == 0)
    && (i < n ==> i % CHUNK == 0) && (i == 0 ==> e == d && u == t)
    && if off <= t[ip].size then off + i <= MAXFILE * BSIZE && Stored(d, t, e, u, ip, off, addr[..i])
       else i == 0
  }

  function ChunkSize(n: int, i: nat): (n1: nat)
    requires i < n
    ensures 0 < n1 <= n - i && n1 <= CHUNK
  {
    if n - i > CHUNK then CHUNK else n - i
  }

  lemma ProgressStart(fs: Fs, ip: nat, off: nat, addr: seq<byte>, n: int)
    requires fs.Inv() && ip < |fs.inodes|
    ensures fs.inodes[ip].size <= MAXFILE * BSIZE
    ensures Progress(fs.disk, fs.inodes, fs.disk, fs.inodes, ip, off, addr, n, 0) && WithinReservation([])
  {
    hide Owned, Synced, NoHoles;
  }

  lemma ProgressStep(d: Disk, t: Table, e: Disk, u: Table, f: Disk, v: Table, ip: nat, off: nat, addr: seq<byte>,
                     n: int, i: nat)
    requires Progress(d, t, e, u, ip, off, addr, n, i) && i < n <= |addr|
    requires Stored(e, u, f, v, ip, off + i, addr[i..i + ChunkSize(n, i)]) && off + i + ChunkSize(n, i) <= MAXFILE * BSIZE
    ensures Progress(d, t, f, v, ip, off, addr, n, i + ChunkSize(n, i))
  {
    hide Stored, ChunkSize;
    var n1 := ChunkSize(n, i);
    StoredType(e, u, f, v, ip, off + i, addr[i..i + n1]);
    NextChunkStarts(n, i);
    Adjacent(addr, i, n1);
    if off <= t[ip].size {
      StoredMore(d, t, e, u, f, v, ip, off, addr[..i], addr[i..i + n1]);
    }
  }

  lemma StoredType(d: Disk, t: Table, e: Disk, u: Table, i: nat, off: nat, a: seq<byte>)
    requires Stored(d, t, e, u, i, off, a)
    ensures i < |t| == |u| && u[i].typ == t[i].typ && off <= t[i].size
  {
  }

  lemma NextChunkStarts(n: int, i: nat)
    requires i < n && i % CHUNK == 0
    ensures i + ChunkSize(n, i) < n ==> (i + ChunkSize(n, i)) % CHUNK == 0
  {
  }

  lemma Adjacent(addr: seq<byte>, i: nat, n: nat)
    requires i + n <= |addr|
    ensures addr[..i] + addr[i..i + n] == addr[..i + n]
  {
  }

  /** When the next chunk is refused, the loop has stored exactly the accepted bytes. */
  lemma Refused(d: Disk, t: Table, e: Disk, u: Table, ip: nat, off: nat, addr: seq<byte>, n: int, i: nat)
    requires Progress(d, t, e, u, ip, off, addr, n, i) && i < n && t[ip].size <= MAXFILE * BSIZE
    requires off + i > u[ip].size || off + i + ChunkSize(n, i) > MAXFILE * BSIZE
    ensures i == Accepted(t[ip].size, off, n) < n
  {
  }

  lemma ProgressFacts(d: Disk, t: Table, e: Disk, u: Table, ip: nat, off: nat, addr: seq<byte>, n: int, i: nat)
    requires Progress(d, t, e, u, ip, off, addr, n, i)
    ensures ip < |u| && u[ip].typ == t[ip].typ && i <= |addr|
  {
  }

  /** A chunk that writei does not refuse is one of those that fit. */
  lemma ChunkAccepted(d: Disk, t: Table, e: Disk, u: Table, ip: nat, off: nat, addr: seq<byte>, n: int, i: nat)
    requires Progress(d, t, e, u, ip, off, addr, n, i) && i < n && t[ip].size <= MAXFILE * BSIZE
    requires off + i <= u[ip].size && off + i + ChunkSize(n, i) <= MAXFILE * BSIZE
    ensures i + ChunkSize(n, i) <= Accepted(t[ip].size, off, n)
  {
    hide Stored;
  }

  // ---------- the state after each operation ----------

  type FsState = (Disk, Table)

  /** The bytes stored after `j` of the operations that store `n` bytes. */
  function BytesAfter(j: nat, n: nat): (k: nat)
    ensures k <= n
  {
    if j * CHUNK < n then j * CHUNK else n
  }

  /** The file system holds the first `k` bytes of the write, in memory and on disk. */
  ghost predicate Holds(sb: Super, start: FsState, now: FsState, ip: nat, off: nat, addr: seq<byte>, k: nat) {
    && Synced(sb, now.0, now.1) && k <= |addr| && ip < |start.1|
    && (k == 0 ==> now == start)
    && (off <= start.1[ip].size ==> Stored(start.0, start.1, now.0, now.1, ip, off, addr[..k]))
  }

  /** Each operation takes the file system from one state to the next, changing only the blocks that it logged. */
  ghost predicate Operations(states: seq<FsState>, txs: seq<set<nat>>) {
    && |states| == |txs| + 1
    && forall j, k :: 0 <= j < k < |states| && Follows(j, k) ==> ConfinedTo(states[j].0, states[k].0, txs[j])
  }

  /** After each operation the file holds a whole number of chunks, or all `n` bytes. */
  ghost predicate Chunked(sb: Super, states: seq<FsState>, txs: seq<set<nat>>, ip: nat, off: nat, addr: seq<byte>, n: nat) {
    && Operations(states, txs)
    && forall j :: 0 <= j < |states| ==> Holds(sb, states[0], states[j], ip, off, addr, BytesAfter(j, n))
  }

  lemma ChunkedStart(fs: Fs, ip: nat, off: nat, addr: seq<byte>)
    requires fs.Inv() && ip < |fs.inodes|
    ensures Chunked(fs.sb, [(fs.disk, fs.inodes)], [], ip, off, addr, 0)
  {
    hide Owned, NoHoles, Content;
    NothingStored(fs.disk, fs.inodes, ip, off);
    assert addr[..0] == [];
  }

  lemma NothingStored(d: Disk, t: Table, ip: nat, off: nat)
    requires Sizes(d, t) && ip < |t|
    ensures off <= t[ip].size ==> Stored(d, t, d, t, ip, off, [])
  {
  }

  lemma ChunkedNext(sb: Super, states: seq<FsState>, txs: seq<set<nat>>, ip: nat, off: nat, addr: seq<byte>, i: nat,
                    now: FsState, tx: set<nat>, i': nat)
    requires Chunked(sb, states, txs, ip, off, addr, i) && i <= i' <= i + CHUNK
    requires i == |txs| * CHUNK || (i' == i && i <= |txs| * CHUNK)
    requires Holds(sb, states[0], now, ip, off, addr, i') && ConfinedTo(states[|txs|].0, now.0, tx)
    ensures Chunked(sb, states + [now], txs + [tx], ip, off, addr, i')
  {
    hide Holds, ConfinedTo;
    var all := states + [now];
    forall j | 0 <= j < |all| ensures Holds(sb, all[0], all[j], ip, off, addr, BytesAfter(j, i')) {
      if j < |states| {
        assert Holds(sb, states[0], states[j], ip, off, addr, BytesAfter(j, i));
      }
    }
  }

  /** What filewrite has done to the files and to the offset when it returns `r`. */
  ghost predicate Finished(d: Disk, t: Table, e: Disk, u: Table, ip: nat, off: nat, off': nat, addr: seq<byte>,
                           n: int, r: int) {
    && ip < |t| && t[ip].size <= MAXFILE * BSIZE && n <= |addr|
    && if n < 0 then
         r == -1 && off' == off && e == d && u == t
       else
         var done := Accepted(t[ip].size, off, n);
         && off' == off + done && r == (if done == n then n else -1)
         && (done == 0 ==> e == d && u == t)
         && (off <= t[ip].size ==> Stored(d, t, e, u, ip, off, addr[..done]))
  }

  lemma ProgressFinished(d: Disk, t: Table, e: Disk, u: Table, ip: nat, off: nat, addr: seq<byte>, n: int, i: nat)
    requires Progress(d, t, e, u, ip, off, addr, n, i) && t[ip].size <= MAXFILE * BSIZE && n <= |addr|
    requires n <= i || i == Accepted(t[ip].size, off, n) < n
    ensures Finished(d, t, e, u, ip, off, off + i, addr, n, if i == n then n else -1)
    ensures n >= 0 ==> i == Accepted(t[ip].size, off, n)
  {
  }

  /** Every operation stayed within its reservation. */
  ghost predicate WithinReservation(txs: seq<set<nat>>) {
    forall k :: 0 <= k < |txs| ==> |txs[k]| <= WriteAheadLog.MAXOPBLOCKS
  }

  lemma WithinReservationAppend(txs: seq<set<nat>>, tx: set<nat>)
    requires WithinReservation(txs) && |tx| <= WriteAheadLog.MAXOPBLOCKS
    ensures WithinReservation(txs + [tx])
  {
  }

  /** One chunk: begin_op, writei at the offset, end_op. */
  method WriteChunk(fs: Fs, f: File, src: seq<byte>) returns (ok: bool, w: int, ghost tx: set<nat>)
    requires fs.Inv() && f.ip < |fs.inodes| && fs.inodes[f.ip].typ != T_DEV && |src| <= CHUNK
    modifies fs, f
    ensures ok ==> fs.Inv() && |tx| <= WriteAheadLog.MAXOPBLOCKS
    ensures ok ==> (w < 0 <==> old(f.off) > old(fs.inodes)[f.ip].size || old(f.off) + |src| > MAXFILE * BSIZE)
    ensures old(f.off) > old(fs.inodes)[f.ip].size ==> ok
    ensures ok && w < 0 ==> fs.disk == old(fs.disk) && fs.inodes == old(fs.inodes) && f.off == old(f.off)
    ensures !ok ==> f.off == old(f.off)
    ensures ok && w >= 0 ==>
              && w == |src| && f.off == old(f.off) + w
              && Stored(old(fs.disk), old(fs.inodes), fs.disk, fs.inodes, f.ip, old(f.off), src)
    ensures !ok ==> DiskFull(fs.sb, fs.disk)
    ensures ok ==> ConfinedTo(old(fs.disk), fs.disk, tx)
    ensures ok ==> Got(old(fs.owner), fs.owner, f.ip, if w < 0 then {} else Touched(old(f.off), |src|))
    ensures !ok ==> Stuck(fs.sb, old(fs.owner), fs.owner, f.ip, Touched(old(f.off), |src|))
    ensures !ok ==> old(f.off) <= old(fs.inodes)[f.ip].size && old(f.off) + |src| <= MAXFILE * BSIZE
  {
    hide Stored, Synced, Owned, Sizes, WriteCost, DiskFull, Got, Stuck, Touched, Missing, FreeBlocks, ConfinedTo;
    fs.BeginOp();
    ok, w := fs.Writei(f.ip, src, f.off);
    tx := fs.logged;
    if ok {
      if w >= 0 {
        assert fs.logged - {} == fs.logged;
        ChunkFitsReservation(f.off, |src|);
        f.off := f.off + w;
      } else {
        assert tx == {};
      }
    }
  }

  /** One iteration of the chunk loop. */
  method NextChunk(fs: Fs, f: File, addr: seq<byte>, n: int, i: nat, ghost d: Disk, ghost t: Table, ghost o: Owner,
                   ghost off0: nat)
      returns (ok: bool, w: int, ghost tx: set<nat>)
    requires fs.Inv() && f.ip < |t| && t[f.ip].typ != T_DEV && t[f.ip].size <= MAXFILE * BSIZE && i < n <= |addr|
    requires Progress(d, t, fs.disk, fs.inodes, f.ip, off0, addr, n, i) && f.off == off0 + i
    requires Got(o, fs.owner, f.ip, Touched(off0, i))
    modifies fs, f
    ensures ok ==> fs.Inv() && |tx| <= WriteAheadLog.MAXOPBLOCKS
    ensures ok ==> Progress(d, t, fs.disk, fs.inodes, f.ip, off0, addr, n, if w < 0 then i else i + w)
    ensures f.off == off0 + if !ok || w < 0 then i else i + w
    ensures ok && w >= 0 ==> 0 < w <= n - i
    ensures ok && w < 0 ==> i == Accepted(t[f.ip].size, off0, n) < n && fs.disk == old(fs.disk) && fs.inodes == old(fs.inodes)
    ensures ok && w >= 0 ==> w == ChunkSize(n, i)
    ensures !ok ==> DiskFull(fs.sb, fs.disk)
    ensures ok ==> ConfinedTo(old(fs.disk), fs.disk, tx)
    ensures ok ==> Got(o, fs.owner, f.ip, Touched(off0, if w < 0 then i else i + w))
    ensures !ok ==> Stuck(fs.sb, o, fs.owner, f.ip, Touched(off0, Accepted(t[f.ip].size, off0, n)))
  {
    hide *;
    ProgressFacts(d, t, fs.disk, fs.inodes, f.ip, off0, addr, n, i);
    var n1 := ChunkSize(n, i);
    ghost var e, u, p := fs.disk, fs.inodes, fs.owner;
    ok, w, tx := WriteChunk(fs, f, addr[i..i + n1]);
    if ok {
      if w < 0 {
        Refused(d, t, e, u, f.ip, off0, addr, n, i);
        GotTwice(o, p, fs.owner, f.ip, Touched(off0, i), {});
        assert Touched(off0, i) + {} == Touched(off0, i);
      } else {
        ProgressStep(d, t, e, u, fs.disk, fs.inodes, f.ip, off0, addr, n, i);
        GotMore(o, p, fs.owner, f.ip, off0, i, w);
      }
    } else {
      ChunkAccepted(d, t, e, u, f.ip, off0, addr, n, i);
      StuckInside(fs.sb, o, p, fs.owner, f.ip, off0, i, n1, Accepted(t[f.ip].size, off0, n));
    }
  }

  lemma ProgressHolds(fs: Fs, d: Disk, t: Table, ip: nat, off: nat, addr: seq<byte>, n: int, i: nat)
    requires fs.Inv() && Progress(d, t, fs.disk, fs.inodes, ip, off, addr, n, i)
    ensures Holds(fs.sb, (d, t), (fs.disk, fs.inodes), ip, off, addr, i)
  {
    hide Stored, Owned, Sizes, Synced;
  }

  /** The next operation of the loop; a chunk that was refused changes nothing. */
  lemma OneOperation(fs: Fs, d: Disk, t: Table, ip: nat, off: nat, addr: seq<byte>, n: int, i: nat, i': nat,
                     txs: seq<set<nat>>, states: seq<FsState>, e: Disk, tx: set<nat>)
    requires Chunked(fs.sb, states, txs, ip, off, addr, i) && states[0] == (d, t) && states[|txs|].0 == e
    requires fs.Inv() && Progress(d, t, fs.disk, fs.inodes, ip, off, addr, n, i') && ConfinedTo(e, fs.disk, tx)
    requires i == |txs| * CHUNK < n && (i' == i || i' == i + ChunkSize(n, i))
    ensures Chunked(fs.sb, states + [(fs.disk, fs.inodes)], txs + [tx], ip, off, addr, i')
    ensures i' < n && i' != i ==> i' == |txs + [tx]| * CHUNK
  {
    hide Chunked, Progress, ConfinedTo, Holds;
    ProgressHolds(fs, d, t, ip, off, addr, n, i');
    ChunkedNext(fs.sb, states, txs, ip, off, addr, i, (fs.disk, fs.inodes), tx, i');
  }

  /** The blocks that filewrite gets, or does not get, for the accepted bytes. */
  lemma BlocksFor(fs: Fs, d: Disk, t: Table, o: Owner, ip: nat, off: nat, done: nat)
    requires Owned(fs.sb, d, t, o, {}) && ip < |t|
    ensures fs.Good() && Got(o, fs.owner, ip, Touched(off, done)) ==> Missing(d, t, ip, off, done) <= |FreeBlocks(fs.sb, d)|
    ensures Stuck(fs.sb, o, fs.owner, ip, Touched(off, done)) ==> Missing(d, t, ip, off, done) > |FreeBlocks(fs.sb, d)|
  {
    hide Owned, Got, Stuck, Touched, Missing, FreeBlocks, Room;
    Enough(fs.sb, d, t, o, fs.owner, ip, off, done);
    if fs.Good() {
      DataBlocks(fs.sb, fs.disk, fs.inodes, fs.owner);
    }
  }

  lemma InvOwned(fs: Fs)
    requires fs.Inv()
    ensures fs.Good() && Owned(fs.sb, fs.disk, fs.inodes, fs.owner, {})
  {
  }

  /**
   filewrite to an inode.  The file becomes the one contiguous write of the accepted bytes and the
   offset advances by them, unless more blocks are missing for these bytes than are free; exactly then
   it panics.  Each of the operations in `txs` logs at most MAXOPBLOCKS blocks and changes no other,
   and `states` are the states between them.  The result is `n` exactly when all bytes were accepted.
   */
  method Filewrite(fs: Fs, f: File, addr: seq<byte>, n: int)
      returns (ok: bool, r: int, ghost txs: seq<set<nat>>, ghost states: seq<FsState>)
    requires fs.Inv() && f.ip < |fs.inodes| && fs.inodes[f.ip].typ != T_DEV && fs.inodes[f.ip].size <= MAXFILE * BSIZE
    requires n <= |addr| < UINT
    modifies fs, f
    ensures ok ==> fs.Inv()
    ensures !f.writable ==> ok && r == -1 && fs.disk == old(fs.disk) && fs.inodes == old(fs.inodes) && f.off == old(f.off)
    ensures ok && f.writable ==>
              Finished(old(fs.disk), old(fs.inodes), fs.disk, fs.inodes, f.ip, old(f.off), f.off, addr, n, r)
    ensures ok <==> !f.writable || n < 0 ||
                    Missing(old(fs.disk), old(fs.inodes), f.ip, old(f.off), Accepted(old(fs.inodes)[f.ip].size, old(f.off), n))
                    <= |FreeBlocks(fs.sb, old(fs.disk))|
    ensures !ok ==> DiskFull(fs.sb, fs.disk)
    ensures WithinReservation(txs)
    ensures f.off >= old(f.off) && Chunked(fs.sb, states, txs, f.ip, old(f.off), addr, f.off - old(f.off))
    ensures states[0] == (old(fs.disk), old(fs.inodes)) && (ok ==> states[|txs|] == (fs.disk, fs.inodes))
  {
    hide *;
    txs, states := [], [(fs.disk, fs.inodes)];
    ghost var d, t, o, off0 := fs.disk, fs.inodes, fs.owner, f.off;
    InvOwned(fs);
    ProgressStart(fs, f.ip, off0, addr, n);
    ChunkedStart(fs, f.ip, off0, addr);
    TouchedNone(o, f.ip, off0);
    if !f.writable {
      return true, -1, txs, states;
    }
    var i := 0;
    while i < n
      invariant fs.Inv() && 0 <= i && f.off == off0 + i
      invariant Progress(d, t, fs.disk, fs.inodes, f.ip, off0, addr, n, i) && Got(o, fs.owner, f.ip, Touched(off0, i))
      invariant WithinReservation(txs) && Chunked(fs.sb, states, txs, f.ip, off0, addr, i) && |states| == |txs| + 1
      invariant states[0] == (d, t) && states[|txs|] == (fs.disk, fs.inodes) && (i < n ==> i == |txs| * CHUNK)
    {
      var w;
      ghost var tx, e := {}, fs.disk;
      ok, w, tx := NextChunk(fs, f, addr, n, i, d, t, o, off0);
      if !ok {
        BlocksFor(fs, d, t, o, f.ip, off0, Accepted(t[f.ip].size, off0, n));
        return false, -1, txs, states;
      }
      OneOperation(fs, d, t, f.ip, off0, addr, n, i, if w < 0 then i else i + w, txs, states, e, tx);
      WithinReservationAppend(txs, tx);
      txs, states := txs + [tx], states + [(fs.disk, fs.inodes)];
      if w < 0 {
        break;
      }
      i := i + w;
    }
    ProgressFinished(d, t, fs.disk, fs.inodes, f.ip, off0, addr, n, i);
    InvOwned(fs);
    BlocksFor(fs, d, t, o, f.ip, off0, i);
    r := if i == n then n else -1;
    ok := true;
  }
}
