/**
 Files of fs.c: the block allocator, block addressing through direct and indirect pointers, and
 reading, writing and truncating file contents, over a disk of byte blocks.

 `disk` is the logical disk that the buffer cache and the log present; a log_write updates it
 and records the block number in `logged`.  `inodes` is the in-memory copy of every inode.
 A panic (out of blocks, block index out of range) halts the machine: methods report it as
 `ok == false` and promise nothing about the state left behind beyond its cause.
 */
module FileSystem {
  import opened FsLayout
  import opened BlockMap
  import opened Counting
  import opened Options

  const T_DEV := 3

  // ---------- file contents ----------

  /** Block `bn` of file `i`, if it is allocated. */
  function FileBlock(d: Disk, t: Table, i: nat, bn: nat): Option<Block>
    requires i < |t| && bn < MAXFILE
  {
    var a := Ptr(d, t, i, Slot(bn));
    if 0 < a < |d| then Some(d[a]) else None
  }

  function FileByte(d: Disk, t: Table, i: nat, k: nat): byte
    requires i < |t| && k < MAXFILE * BSIZE
  {
    var fb := FileBlock(d, t, i, k / BSIZE);
    if fb.Some? then fb.value[k % BSIZE] else 0
  }

  /** A file as a byte sequence. */
  function Content(d: Disk, t: Table, i: nat): (c: seq<byte>)
    requires i < |t| && t[i].size <= MAXFILE * BSIZE
    ensures |c| == t[i].size
  {
    seq(t[i].size, k requires 0 <= k < t[i].size => FileByte(d, t, i, k))
  }

  /** `c` with `src` stored at `off`, growing if it must. */
  function Overwrite(c: seq<byte>, off: nat, src: seq<byte>): (r: seq<byte>)
    requires off <= |c|
  {
    c[..off] + src + if off + |src| < |c| then c[off + |src|..] else []
  }

  /** Every block below the size of the file is allocated. */
  ghost predicate NoHoles(d: Disk, t: Table, i: nat)
    requires i < |t|
  {
    forall bn :: 0 <= bn < MAXFILE && bn * BSIZE < t[i].size ==> FileBlock(d, t, i, bn).Some?
  }

  /** The inodes in memory are those on disk. */
  ghost predicate Synced(sb: Super, d: Disk, t: Table) {
    ValidSuper(sb, d) && |t| == sb.ninodes && forall i :: 0 <= i < |t| ==> t[i] == GetInode(sb, d, i)
  }

  ghost predicate Sizes(d: Disk, t: Table) {
    forall i :: 0 <= i < |t| ==> t[i].size <= MAXFILE * BSIZE && NoHoles(d, t, i)
  }

  /** Every block of every file is as before, except block `bn` of file `i`. */
  ghost predicate SameFilesBut(d: Disk, t: Table, e: Disk, u: Table, i: nat, bn: nat) {
    && |u| == |t|
    && forall j, m :: 0 <= j < |t| && 0 <= m < MAXFILE && !(j == i && m == bn) ==>
         FileBlock(e, u, j, m) == FileBlock(d, t, j, m)
  }

  /** Only the addresses of inode `i` may differ. */
  ghost predicate SameButAddrs(t: Table, u: Table, i: nat) {
    && |u| == |t| && i < |t|
    && u[i] == Inode(t[i].typ, t[i].major, t[i].minor, t[i].nlink, t[i].size, u[i].addrs)
    && forall j :: 0 <= j < |t| && j != i ==> u[j] == t[j]
  }

  /** Pointers kept and owned data blocks kept mean files kept. */
  lemma FilesKept(sb: Super, d: Disk, t: Table, owner: Owner, pending: set<nat>, e: Disk, u: Table, i: nat, bn: nat)
    requires Owned(sb, d, t, owner, pending) && |u| == |t| && |e| == |d|
    requires forall j, x :: 0 <= j < |t| && 0 <= x < NSLOT && x != NDIRECT && !(j == i && bn < MAXFILE && x == Slot(bn)) ==>
               Ptr(e, u, j, x) == Ptr(d, t, j, x)
    requires forall a :: a in owner && a < |d| && owner[a].1 != NDIRECT
                         && !(owner[a].0 == i && bn < MAXFILE && owner[a].1 == Slot(bn)) ==>
               e[a] == d[a]
    ensures SameFilesBut(d, t, e, u, i, bn)
  {
  }

  ghost predicate DiskFull(sb: Super, d: Disk) {
    ValidSuper(sb, d) && forall c :: 0 <= c < sb.size ==> Bit(sb, d, c)
  }

  /** The step from (d, t, o) to (e, u, p) links the fresh zeroed block `r` at slot `x` of inode `i`. */
  ghost predicate Linked(sb: Super, d: Disk, t: Table, o: Owner, e: Disk, u: Table, p: Owner, i: nat, x: nat, r: nat) {
    && ValidSuper(sb, d) && ValidSuper(sb, e)
    && SameButAddrs(t, u, i) && x < NSLOT
    && DataStart(sb) <= r < sb.size && r !in o && p == o[r := (i, x)] && e[r] == ZeroBlock()
    && (forall j, y :: 0 <= j < |t| && 0 <= y < NSLOT ==>
          Ptr(e, u, j, y) == if j == i && y == x then r else Ptr(d, t, j, y))
    && (forall a :: a in o && a < sb.size && o[a].1 != NDIRECT ==> e[a] == d[a])
    && (forall c :: 0 <= c < sb.bmapstart ==> e[c] == d[c])
    && Owned(sb, e, u, p, {})
  }

  lemma AddrLinked(sb: Super, d: Disk, t: Table, o: Owner, i: nat, x: nat, r: nat)
    requires Owned(sb, d, t, o, {}) && i < |t| && x <= NDIRECT && t[i].addrs[x] == 0
    requires r < sb.size && !Bit(sb, d, r)
    ensures Linked(sb, d, t, o, Flip(sb, d, r)[r := ZeroBlock()], SetAddr(t, i, x, r), o[r := (i, x)], i, x, r)
  {
    Regions(sb, d, 0, r);
    Alloc(sb, d, t, o, {}, r);
    LinkAddr(sb, Flip(sb, d, r)[r := ZeroBlock()], t, o, {} + {r}, i, x, r);
    assert {} + {r} - {r} == {};
  }

  lemma EntryLinked(sb: Super, d: Disk, t: Table, o: Owner, i: nat, k: nat, r: nat, e: Disk)
    requires Owned(sb, d, t, o, {}) && i < |t| && k < NINDIRECT && r < sb.size && !Bit(sb, d, r)
    requires t[i].addrs[NDIRECT] != 0 && Ptr(d, t, i, k + NDIRECT + 1) == 0
    requires e == Flip(sb, d, r)[r := ZeroBlock()]
    ensures t[i].addrs[NDIRECT] < |d|
    ensures var a := t[i].addrs[NDIRECT];
            Linked(sb, d, t, o, e[a := SetWord(e[a], k, r)], t, o[r := (i, k + NDIRECT + 1)], i, k + NDIRECT + 1, r)
  {
    hide Bit;
    var a := t[i].addrs[NDIRECT];
    IndirectOwned(sb, d, t, o, {}, i);
    Regions(sb, d, 0, r);
    Alloc(sb, d, t, o, {}, r);
    assert Ptr(e, t, i, k + NDIRECT + 1) == Word(e[a], k);
    LinkEntry(sb, e, t, o, {} + {r}, i, k, r);
    assert {} + {r} - {r} == {};
  }

  /** Linking a fresh block leaves all other file blocks as they were. */
  lemma LinkedFiles(sb: Super, d: Disk, t: Table, o: Owner, e: Disk, u: Table, p: Owner, i: nat, x: nat, r: nat, bn: nat)
    requires Owned(sb, d, t, o, {}) && Linked(sb, d, t, o, e, u, p, i, x, r)
    requires if x == NDIRECT then bn == MAXFILE else bn < MAXFILE && x == Slot(bn)
    ensures SameFilesBut(d, t, e, u, i, bn)
    ensures bn < MAXFILE ==> FileBlock(e, u, i, bn) == Some(ZeroBlock())
  {
    hide Owned, Ptr;
    FilesKept(sb, d, t, o, {}, e, u, i, bn);
    if bn < MAXFILE {
      assert Ptr(e, u, i, Slot(bn)) == r;
    }
  }

  /** The outcome of bmap: block `bn` of file `i` is at `r`, and was made of zeroes if it was missing. */
  ghost predicate Mapped(sb: Super, d: Disk, t: Table, o: Owner, e: Disk, u: Table, p: Owner, i: nat, bn: nat, r: nat) {
    && ValidSuper(sb, d) && ValidSuper(sb, e)
    && SameButAddrs(t, u, i) && bn < MAXFILE
    && SameFilesBut(d, t, e, u, i, bn)
    && 0 < r < |e| && Ptr(e, u, i, Slot(bn)) == r
    && FileBlock(e, u, i, bn) == Some(e[r])
    && FileBlock(e, u, i, bn) == Some(if FileBlock(d, t, i, bn).Some? then FileBlock(d, t, i, bn).value else ZeroBlock())
    && (FileBlock(d, t, i, bn).Some? ==> e == d && u == t && p == o)
    && (forall c :: 0 <= c < sb.bmapstart ==> e[c] == d[c])
    && Owned(sb, e, u, p, {})
  }

  lemma AlreadyMapped(sb: Super, d: Disk, t: Table, o: Owner, i: nat, bn: nat)
    requires Owned(sb, d, t, o, {}) && i < |t| && bn < MAXFILE && Ptr(d, t, i, Slot(bn)) != 0
    ensures Mapped(sb, d, t, o, d, t, o, i, bn, Ptr(d, t, i, Slot(bn))) && FileBlock(d, t, i, bn).Some?
  {
  }

  lemma MappedThere(sb: Super, d: Disk, t: Table, o: Owner, e: Disk, u: Table, p: Owner, i: nat, bn: nat, r: nat)
    requires Mapped(sb, d, t, o, e, u, p, i, bn, r) && FileBlock(d, t, i, bn).Some?
    ensures e == d && u == t && p == o && r < |d| && FileBlock(d, t, i, bn) == Some(d[r])
  {
  }

  lemma NewlyMapped(sb: Super, d: Disk, t: Table, o: Owner, e: Disk, u: Table, p: Owner, i: nat, bn: nat, r: nat)
    requires Owned(sb, d, t, o, {}) && bn < MAXFILE && Linked(sb, d, t, o, e, u, p, i, Slot(bn), r)
    requires Ptr(d, t, i, Slot(bn)) == 0
    ensures Mapped(sb, d, t, o, e, u, p, i, bn, r) && FileBlock(d, t, i, bn) == None
  {
    LinkedFiles(sb, d, t, o, e, u, p, i, Slot(bn), r, bn);
  }

  lemma DirectPtr(d: Disk, t: Table, i: nat, bn: nat)
    requires i < |t| && bn < NDIRECT
    ensures Ptr(d, t, i, bn) == t[i].addrs[bn] && Slot(bn) == bn
    ensures t[i].addrs[bn] == 0 ==> FileBlock(d, t, i, bn).None?
  {
  }

  lemma NoIndirect(d: Disk, t: Table, i: nat, bn: nat)
    requires i < |t| && NDIRECT <= bn < MAXFILE && t[i].addrs[NDIRECT] == 0
    ensures FileBlock(d, t, i, bn).None?
  {
  }

  lemma EntryPtr(d: Disk, t: Table, i: nat, bn: nat)
    requires i < |t| && NDIRECT <= bn < MAXFILE && 0 < t[i].addrs[NDIRECT] < |d|
    ensures Ptr(d, t, i, Slot(bn)) == Word(d[t[i].addrs[NDIRECT]], bn - NDIRECT) && Slot(bn) == bn - NDIRECT + NDIRECT + 1
    ensures Ptr(d, t, i, Slot(bn)) == 0 ==> FileBlock(d, t, i, bn).None?
  {
  }

  /** An indirect block is present and no file block changed; nothing changed if it was there before. */
  ghost predicate Ready(sb: Super, d: Disk, t: Table, o: Owner, e: Disk, u: Table, p: Owner, i: nat) {
    && ValidSuper(sb, d) && ValidSuper(sb, e)
    && SameButAddrs(t, u, i) && SameFilesBut(d, t, e, u, i, MAXFILE)
    && 0 < u[i].addrs[NDIRECT] < |e|
    && (t[i].addrs[NDIRECT] != 0 ==> e == d && u == t && p == o)
    && (forall c :: 0 <= c < sb.bmapstart ==> e[c] == d[c])
    && Owned(sb, e, u, p, {})
  }

  lemma AlreadyReady(sb: Super, d: Disk, t: Table, o: Owner, i: nat)
    requires Owned(sb, d, t, o, {}) && i < |t| && t[i].addrs[NDIRECT] != 0
    ensures Ready(sb, d, t, o, d, t, o, i)
  {
    IndirectOwned(sb, d, t, o, {}, i);
  }

  lemma MappedAfterReady(sb: Super, d: Disk, t: Table, o: Owner, e: Disk, u: Table, p: Owner, f: Disk, v: Table, q: Owner,
                         i: nat, bn: nat, r: nat)
    requires Ready(sb, d, t, o, e, u, p, i) && NDIRECT <= bn < MAXFILE && Mapped(sb, e, u, p, f, v, q, i, bn, r)
    ensures Mapped(sb, d, t, o, f, v, q, i, bn, r)
  {
    assert FileBlock(e, u, i, bn) == FileBlock(d, t, i, bn);
    forall j, m | 0 <= j < |t| && 0 <= m < MAXFILE && !(j == i && m == bn)
      ensures FileBlock(f, v, j, m) == FileBlock(d, t, j, m)
    {
      assert FileBlock(e, u, j, m) == FileBlock(d, t, j, m);
    }
  }

  /** The blocks that hold the addresses beyond the direct ones. */
  function Indirect(n: Inode): set<nat> {
    if n.addrs[NDIRECT] == 0 then {} else {n.addrs[NDIRECT]}
  }

  // ---------- the effect of writei on the blocks of a file ----------

  /** The first `tot` bytes of `src` have been stored at `off0` and nothing else has changed. */
  ghost predicate Written(d: Disk, t: Table, e: Disk, u: Table, i: nat, off0: nat, src: seq<byte>, tot: nat)
  {
    && |u| == |t| && i < |t| && tot <= |src| && off0 + |src| <= MAXFILE * BSIZE
    && (forall j, m :: 0 <= j < |t| && 0 <= m < MAXFILE && j != i ==> FileBlock(e, u, j, m) == FileBlock(d, t, j, m))
    && (forall m :: 0 <= m < MAXFILE && FileBlock(d, t, i, m).Some? ==> FileBlock(e, u, i, m).Some?)
    && (forall k :: off0 <= k < off0 + tot ==>
          FileBlock(e, u, i, k / BSIZE).Some? && FileByte(e, u, i, k) == src[k - off0])
    && (forall k :: 0 <= k < MAXFILE * BSIZE && !(off0 <= k < off0 + tot) && FileBlock(d, t, i, k / BSIZE).Some? ==>
          FileByte(e, u, i, k) == FileByte(d, t, i, k))
  }

  lemma WrittenStep(d: Disk, t: Table, e: Disk, u: Table, f: Disk, v: Table,
                    i: nat, off0: nat, src: seq<byte>, tot: nat, m: nat, base: Block)
    requires Written(d, t, e, u, i, off0, src, tot) && tot + m <= |src| && 0 < m
    requires (off0 + tot) % BSIZE + m <= BSIZE
    requires var bn := (off0 + tot) / BSIZE;
             && bn < MAXFILE && SameFilesBut(e, u, f, v, i, bn)
             && (FileBlock(e, u, i, bn).Some? ==> FileBlock(e, u, i, bn).value == base)
             && FileBlock(f, v, i, bn) == Some(Splice(base, (off0 + tot) % BSIZE, src[tot..tot + m]))
    ensures Written(d, t, f, v, i, off0, src, tot + m)
  {
    var off := off0 + tot;
    var bn := off / BSIZE;
    forall k | 0 <= k < MAXFILE * BSIZE && k / BSIZE != bn ensures FileByte(f, v, i, k) == FileByte(e, u, i, k) {
      assert FileBlock(f, v, i, k / BSIZE) == FileBlock(e, u, i, k / BSIZE);
    }
    forall k | off0 <= k < off0 + tot + m
      ensures FileBlock(f, v, i, k / BSIZE).Some? && FileByte(f, v, i, k) == src[k - off0]
    {
      if k >= off {
        assert k / BSIZE == bn && k % BSIZE == off % BSIZE + (k - off);
      } else if k / BSIZE == bn {
        assert FileByte(e, u, i, k) == src[k - off0];
      } else {
        assert FileBlock(f, v, i, k / BSIZE) == FileBlock(e, u, i, k / BSIZE);
      }
    }
    forall k | 0 <= k < MAXFILE * BSIZE && !(off0 <= k < off0 + tot + m) && FileBlock(d, t, i, k / BSIZE).Some?
      ensures FileByte(f, v, i, k) == FileByte(d, t, i, k)
    {
      assert FileByte(e, u, i, k) == FileByte(d, t, i, k);
      if k / BSIZE == bn {
        assert FileBlock(e, u, i, bn).Some?;
        assert !(off <= k < off + m);
      }
    }
  }

  /** A completed write is the abstract overwrite, and leaves no holes. */
  lemma WrittenContent(d: Disk, t: Table, e: Disk, u: Table, i: nat, off0: nat, src: seq<byte>)
    requires Written(d, t, e, u, i, off0, src, |src|) && src != []
    requires t[i].size <= MAXFILE * BSIZE && off0 <= t[i].size && NoHoles(d, t, i)
    requires u[i].size == if off0 + |src| > t[i].size then off0 + |src| else t[i].size
    ensures Content(e, u, i) == Overwrite(Content(d, t, i), off0, src) && NoHoles(e, u, i)
  {
    forall k | 0 <= k < u[i].size ensures FileByte(e, u, i, k) == Overwrite(Content(d, t, i), off0, src)[k] {
      if !(off0 <= k < off0 + |src|) {
        assert FileBlock(d, t, i, k / BSIZE).Some?;
      }
    }
    forall bn | 0 <= bn < MAXFILE && bn * BSIZE < u[i].size ensures FileBlock(e, u, i, bn).Some? {
      if bn * BSIZE >= t[i].size {
        assert (bn * BSIZE) / BSIZE == bn;
      }
    }
  }

  /**
   The abstract effect of a write: `src` is in file `i` at `off`, its other bytes, all other files
   and all inode fields but the size and the addresses are as they were.
   */
  ghost predicate Stored(d: Disk, t: Table, e: Disk, u: Table, i: nat, off: nat, src: seq<byte>) {
    && |u| == |t| && i < |t| && off <= t[i].size
    && (forall j :: 0 <= j < |t| ==> t[j].size <= MAXFILE * BSIZE && u[j].size <= MAXFILE * BSIZE)
    && Content(e, u, i) == Overwrite(Content(d, t, i), off, src)
    && u[i] == Inode(t[i].typ, t[i].major, t[i].minor, t[i].nlink, u[i].size, u[i].addrs)
    && (forall j :: 0 <= j < |t| && j != i ==> u[j] == t[j] && Content(e, u, j) == Content(d, t, j))
  }

  /** Files whose blocks and sizes are kept have their contents kept. */
  lemma SameContent(d: Disk, t: Table, e: Disk, u: Table, j: nat)
    requires |u| == |t| && j < |t| && u[j].size == t[j].size <= MAXFILE * BSIZE
    requires forall m :: 0 <= m < MAXFILE ==> FileBlock(e, u, j, m) == FileBlock(d, t, j, m)
    ensures Content(e, u, j) == Content(d, t, j)
    ensures NoHoles(d, t, j) ==> NoHoles(e, u, j)
  {
  }

  // ---------- how many blocks a write logs ----------

  /** The number of file blocks that [off, off + n) touches. */
  function Span(off: nat, n: nat): nat {
    if n == 0 then 0 else (off + n - 1) / BSIZE - off / BSIZE + 1
  }

  /** Block numbers that a write of `n` bytes at `off` may log, by kind: data, bit map, indirect, inode. */
  function WriteCost(off: nat, n: nat): nat {
    if n == 0 then 0 else Span(off, n) + (Span(off, n) - (if off % BSIZE == 0 then 0 else 1) + 1) + 1 + 1
  }

  /** Every chunk that filewrite passes to writei fits the reservation of one operation. */
  lemma ChunkFitsReservation(off: nat, n: nat)
    requires n <= (10 - 1 - 1 - 2) / 2 * 512
    ensures WriteCost(off, n) <= 10
  {
  }

  /** How much of the remaining bytes fits the block at offset `o`. */
  function PieceSize(o: nat, left: nat): nat {
    if left < BSIZE - o % BSIZE then left else BSIZE - o % BSIZE
  }

  /** One more piece of a write touches one more block. */
  lemma SpanStep(off: nat, tot: nat, m: nat)
    requires 0 < m && (off + tot) % BSIZE + m <= BSIZE && (tot == 0 || (off + tot) % BSIZE == 0)
    ensures Span(off, tot + m) == Span(off, tot) + 1
  {
  }

  /**
   The account of the copying loop: the blocks logged since `before` are data blocks, bit map blocks
   and the indirect block; `added` data blocks were missing, and `grown` says that the indirect one was.
   */
  ghost predicate Accounted(before: set<nat>, after: set<nat>, data: set<nat>, maps: set<nat>, indirect: set<nat>,
                            added: nat, grown: bool, off: nat, tot: nat) {
    && after <= before + data + maps + indirect
    && |data| <= Span(off, tot)
    && |maps| <= added + (if grown then 1 else 0)
    && added <= Span(off, tot) - (if tot > 0 && off % BSIZE != 0 then 1 else 0)
  }

  lemma AccountStep(before: set<nat>, after: set<nat>, data: set<nat>, maps: set<nat>, indirect: set<nat>,
                    added: nat, grown: bool, off: nat, tot: nat,
                    after': set<nat>, a: nat, more: set<nat>, indirect': set<nat>, missing: bool, grown': bool, m: nat)
    requires Accounted(before, after, data, maps, indirect, added, grown, off, tot)
    requires after' <= after + more + {a} + indirect' && indirect <= indirect'
    requires |more| <= (if missing then 1 else 0) + (if grown' && !grown then 1 else 0) && (grown ==> grown')
    requires tot == 0 && off % BSIZE != 0 ==> !missing
    requires Span(off, tot + m) == Span(off, tot) + 1 && m > 0
    ensures Accounted(before, after', data + {a}, maps + more, indirect',
                      added + (if missing then 1 else 0), grown', off, tot + m)
  {
  }

  lemma AccountStart(before: set<nat>, indirect: set<nat>, off: nat)
    ensures Accounted(before, before, {}, {}, indirect, 0, false, off, 0)
  {
  }

  lemma AccountEnd(before: set<nat>, after: set<nat>, data: set<nat>, maps: set<nat>, indirect: set<nat>,
                   added: nat, grown: bool, off: nat, tot: nat)
    requires Accounted(before, after, data, maps, indirect, added, grown, off, tot)
    ensures after <= before + data + maps + indirect && |data| <= Span(off, tot)
    ensures tot > 0 ==> |maps| <= Span(off, tot) - (if off % BSIZE == 0 then 0 else 1) + 1
  {
  }

  lemma CountLogged(before: set<nat>, after: set<nat>, data: set<nat>, maps: set<nat>, indirect: set<nat>, inode: set<nat>)
    requires after <= before + data + maps + indirect + inode
    ensures |after - before| <= |data| + |maps| + |indirect| + |inode|
  {
    Subset(after - before, data + maps + indirect + inode);
  }

  lemma {:induction false} Subset(a: set<nat>, b: set<nat>)
    requires a <= b
    ensures |a| <= |b|
  {
    if a != {} {
      var x :| x in a;
      Subset(a - {x}, b - {x});
    }
  }

  /** A new size alone moves no block. */
  lemma SizeOnly(sb: Super, d: Disk, t: Table, o: Owner, i: nat, size: uint32)
    requires Owned(sb, d, t, o, {}) && i < |t|
    ensures var u := t[i := t[i].(size := size)];
            && Owned(sb, d, u, o, {})
            && SameFilesBut(d, t, d, u, i, MAXFILE)
  {
    var u := t[i := t[i].(size := size)];
    assert forall j, x :: 0 <= j < |t| && 0 <= x < NSLOT ==> Ptr(d, u, j, x) == Ptr(d, t, j, x);
    forall j, m | 0 <= j < |t| && 0 <= m < MAXFILE ensures FileBlock(d, u, j, m) == FileBlock(d, t, j, m) {
      assert Ptr(d, u, j, Slot(m)) == Ptr(d, t, j, Slot(m));
    }
  }

  /** iupdate moves no block. */
  lemma InodeOnly(sb: Super, d: Disk, t: Table, o: Owner, i: nat)
    requires Owned(sb, d, t, o, {}) && i < |t|
    ensures var e := PutInode(sb, d, i, t[i]);
            Owned(sb, e, t, o, {}) && SameFilesBut(d, t, e, t, i, MAXFILE)
  {
    Regions(sb, d, i, 0);
    InodeWrite(sb, d, t, o, {}, i, t[i]);
    FilesKept(sb, d, t, o, {}, PutInode(sb, d, i, t[i]), t, i, MAXFILE);
  }

  /** Storing into a mapped data block. */
  lemma StoreData(sb: Super, d: Disk, t: Table, o: Owner, i: nat, bn: nat, data: Block)
    requires Owned(sb, d, t, o, {}) && i < |t| && bn < MAXFILE && Ptr(d, t, i, Slot(bn)) != 0
    ensures var a := Ptr(d, t, i, Slot(bn));
            && DataStart(sb) <= a < |d| && Owned(sb, d[a := data], t, o, {})
            && SameFilesBut(d, t, d[a := data], t, i, bn)
            && FileBlock(d[a := data], t, i, bn) == Some(data)
  {
    var a := Ptr(d, t, i, Slot(bn));
    DataWrite(sb, d, t, o, {}, a, data);
    FilesKept(sb, d, t, o, {}, d[a := data], t, i, bn);
  }

  lemma MappedBelowSize(d: Disk, t: Table, i: nat, k: nat)
    requires i < |t| && k < t[i].size <= MAXFILE * BSIZE && NoHoles(d, t, i)
    ensures FileBlock(d, t, i, k / BSIZE).Some?
  {
  }

  /** Within one block, the bytes of the file are the bytes of the block. */
  lemma ReadPiece(d: Disk, t: Table, i: nat, o: nat, m: nat)
    requires i < |t| && o + m <= t[i].size <= MAXFILE * BSIZE && o % BSIZE + m <= BSIZE && o < MAXFILE * BSIZE
    requires FileBlock(d, t, i, o / BSIZE).Some?
    ensures FileBlock(d, t, i, o / BSIZE).value[o % BSIZE..o % BSIZE + m] == Content(d, t, i)[o..o + m]
  {
  }

  /** What the copying loop of writei keeps: `tot` bytes are in place, and the inode has changed only past its size. */
  ghost predicate Copying(sb: Super, d: Disk, t: Table, e: Disk, u: Table, o: Owner, i: nat, off: nat,
                          src: seq<byte>, tot: nat) {
    && ValidSuper(sb, d) && ValidSuper(sb, e)
    && SameButAddrs(t, u, i)
    && Written(d, t, e, u, i, off, src, tot)
    && (forall c :: 0 <= c < sb.bmapstart ==> e[c] == d[c])
    && (u != t ==> off + tot > t[i].size)
    && Owned(sb, e, u, o, {})
  }

  lemma CopyingStart(sb: Super, d: Disk, t: Table, o: Owner, i: nat, off: nat, src: seq<byte>)
    requires Owned(sb, d, t, o, {}) && i < |t| && off + |src| <= MAXFILE * BSIZE
    ensures Copying(sb, d, t, d, t, o, i, off, src, 0) && Span(off, 0) == 0
  {
  }

  lemma CopyingStep(sb: Super, d: Disk, t: Table, d1: Disk, t1: Table, o1: Owner, d2: Disk, t2: Table, o2: Owner, e: Disk,
                    i: nat, a: nat, off: nat, src: seq<byte>, tot: nat, m: nat)
    requires Copying(sb, d, t, d1, t1, o1, i, off, src, tot) && NoHoles(d, t, i) && 0 < m && off + tot < MAXFILE * BSIZE
    requires Mapped(sb, d1, t1, o1, d2, t2, o2, i, (off + tot) / BSIZE, a)
    requires DataStart(sb) <= a < |e| && |e| == |d2| && forall c :: 0 <= c < |e| && c != a ==> e[c] == d2[c]
    requires Owned(sb, e, t2, o2, {}) && Written(d, t, e, t2, i, off, src, tot + m)
    ensures Copying(sb, d, t, e, t2, o2, i, off, src, tot + m)
  {
    hide Owned, FileBlock, Written, NoHoles, SameFilesBut, Ptr;
    if t2 != t1 {
      MissingBeyondSize(d, t, d1, t1, i, off, src, tot, (off + tot) / BSIZE);
    }
  }

  /** A block that is missing in the middle of a write lies past the end of the file. */
  lemma MissingBeyondSize(d: Disk, t: Table, e: Disk, u: Table, i: nat, off: nat, src: seq<byte>, tot: nat, bn: nat)
    requires Written(d, t, e, u, i, off, src, tot) && NoHoles(d, t, i)
    requires bn < MAXFILE && !FileBlock(e, u, i, bn).Some?
    ensures bn * BSIZE >= t[i].size
  {
  }

  /** The bytes that the blocks of a file of this size hold. */
  function Capacity(size: nat): nat {
    (size + BSIZE - 1) / BSIZE * BSIZE
  }

  /** Below the capacity of the file no block is missing. */
  lemma NoneMissing(d: Disk, t: Table, e: Disk, u: Table, i: nat, off: nat, src: seq<byte>, tot: nat)
    requires Written(d, t, e, u, i, off, src, tot) && NoHoles(d, t, i) && off + tot < MAXFILE * BSIZE
    ensures off + tot < Capacity(t[i].size) ==> FileBlock(e, u, i, (off + tot) / BSIZE).Some?
  {
    var bn := (off + tot) / BSIZE;
    assert off + tot < Capacity(t[i].size) ==> bn * BSIZE < t[i].size;
    if !FileBlock(e, u, i, bn).Some? {
      MissingBeyondSize(d, t, e, u, i, off, src, tot, bn);
    }
  }

  /** One iteration of the copying loop of writei. */
  lemma PieceWritten(sb: Super, d: Disk, t: Table, d1: Disk, t1: Table, o1: Owner, d2: Disk, t2: Table, o2: Owner,
                     i: nat, a: nat, off: nat, src: seq<byte>, tot: nat, m: nat)
    requires Written(d, t, d1, t1, i, off, src, tot) && 0 < m && tot + m <= |src|
    requires (off + tot) % BSIZE + m <= BSIZE
    requires Mapped(sb, d1, t1, o1, d2, t2, o2, i, (off + tot) / BSIZE, a)
    ensures DataStart(sb) <= a < |d2|
    ensures var e := d2[a := Splice(d2[a], (off + tot) % BSIZE, src[tot..tot + m])];
            Owned(sb, e, t2, o2, {}) && Written(d, t, e, t2, i, off, src, tot + m)
  {
    var bn := (off + tot) / BSIZE;
    var piece := Splice(d2[a], (off + tot) % BSIZE, src[tot..tot + m]);
    StoreData(sb, d2, t2, o2, i, bn, piece);
    var e := d2[a := piece];
    forall j, x | 0 <= j < |t1| && 0 <= x < MAXFILE && !(j == i && x == bn)
      ensures FileBlock(e, t2, j, x) == FileBlock(d1, t1, j, x)
    {
      assert FileBlock(d2, t2, j, x) == FileBlock(d1, t1, j, x);
    }
    WrittenStep(d, t, d1, t1, e, t2, i, off, src, tot, m, d2[a]);
  }

  /** The bytes from `o` to `o + m` are in one block. */
  predicate Fits(o: nat, m: nat) {
    o % BSIZE + m <= BSIZE
  }

  function WithPiece(b: Block, o: nat, piece: seq<byte>): Block
    requires Fits(o, |piece|)
  {
    Splice(b, o % BSIZE, piece)
  }

  /** The size of a piece, and what is known of the block it goes to. */
  lemma NextPiece(d: Disk, t: Table, e: Disk, u: Table, i: nat, off: nat, tot: nat, len: nat, m: nat)
    requires i < |t| == |u| && NoHoles(d, t, i) && off <= t[i].size <= MAXFILE * BSIZE && off + tot < MAXFILE * BSIZE
    requires tot < len && (tot == 0 || (off + tot) % BSIZE == 0) && (tot == 0 ==> e == d && u == t)
    requires m == PieceSize(off + tot, len - tot)
    ensures 0 < m <= len - tot && (tot + m < len ==> (off + tot + m) % BSIZE == 0) && Fits(off + tot, m)
    ensures Span(off, tot + m) == Span(off, tot) + 1
    ensures tot == 0 && off % BSIZE != 0 ==> FileBlock(e, u, i, (off + tot) / BSIZE).Some?
  {
    hide NoHoles, FileBlock, Span;
    FirstPiece(d, t, i, off);
    SpanStep(off, tot, m);
  }

  lemma CopiedPiece(sb: Super, d: Disk, t: Table, d1: Disk, t1: Table, o1: Owner, d2: Disk, t2: Table, o2: Owner,
                    i: nat, a: nat, off: nat, src: seq<byte>, tot: nat, m: nat)
    requires Copying(sb, d, t, d1, t1, o1, i, off, src, tot) && NoHoles(d, t, i) && 0 < m && tot + m <= |src|
    requires off + |src| <= MAXFILE * BSIZE && Fits(off + tot, m)
    requires Mapped(sb, d1, t1, o1, d2, t2, o2, i, (off + tot) / BSIZE, a)
    ensures a < |d2| && |t2| == |t|
    ensures Copying(sb, d, t, d2[a := WithPiece(d2[a], off + tot, src[tot..tot + m])], t2, o2, i, off, src, tot + m)
  {
    hide Owned, Written, NoHoles, Mapped;
    PieceWritten(sb, d, t, d1, t1, o1, d2, t2, o2, i, a, off, src, tot, m);
    var e := d2[a := Splice(d2[a], (off + tot) % BSIZE, src[tot..tot + m])];
    CopyingStep(sb, d, t, d1, t1, o1, d2, t2, o2, e, i, a, off, src, tot, m);
  }

  lemma CopyingRoom(sb: Super, d: Disk, t: Table, e: Disk, u: Table, o: Owner, i: nat, off: nat, src: seq<byte>)
    requires Copying(sb, d, t, e, u, o, i, off, src, |src|)
    ensures |o| <= Room(sb)
  {
    hide Owned, Written;
    DataBlocks(sb, e, u, o);
  }

  lemma CopyingFacts(sb: Super, d: Disk, t: Table, e: Disk, u: Table, o: Owner, i: nat, off: nat, src: seq<byte>, tot: nat)
    requires Copying(sb, d, t, e, u, o, i, off, src, tot) && NoHoles(d, t, i) && off + tot < MAXFILE * BSIZE
    ensures Owned(sb, e, u, o, {}) && i < |u| == |t|
    ensures off + tot < Capacity(t[i].size) ==> FileBlock(e, u, i, (off + tot) / BSIZE).Some?
  {
    hide Owned, NoHoles, Capacity;
    NoneMissing(d, t, e, u, i, off, src, tot);
  }

  /** A write that does not start at the start of a block starts in a block that is there. */
  lemma FirstPiece(d: Disk, t: Table, i: nat, off: nat)
    requires i < |t| && NoHoles(d, t, i) && off <= t[i].size <= MAXFILE * BSIZE
    ensures off % BSIZE != 0 ==> FileBlock(d, t, i, off / BSIZE).Some?
  {
    hide NoHoles, FileBlock;
    if off % BSIZE != 0 {
      MappedBelowSize(d, t, i, off - 1);
      assert (off - 1) / BSIZE == off / BSIZE;
    }
  }

  /** The states before a write (d, t), after its loop (e, u) and after iupdate (f, v). */
  lemma WriteFinished(sb: Super, d: Disk, t: Table, e: Disk, u: Table, f: Disk, v: Table, i: nat, off: nat, src: seq<byte>)
    requires Written(d, t, e, u, i, off, src, |src|) && SameButAddrs(t, u, i)
    requires Sizes(d, t) && off <= t[i].size
    requires v == if |src| > 0 && off + |src| > t[i].size then u[i := u[i].(size := off + |src|)] else u
    requires SameFilesBut(e, u, f, v, i, MAXFILE)
    ensures Sizes(f, v) && Stored(d, t, f, v, i, off, src)
  {
    assert Written(d, t, f, v, i, off, src, |src|) by {
      assert forall k :: 0 <= k < MAXFILE * BSIZE ==> FileByte(f, v, i, k) == FileByte(e, u, i, k);
    }
    if src != [] {
      WrittenContent(d, t, f, v, i, off, src);
    } else {
      assert forall k :: 0 <= k < t[i].size ==> FileBlock(d, t, i, k / BSIZE).Some?;
      assert Content(f, v, i) == Content(d, t, i) == Overwrite(Content(d, t, i), off, src);
    }
    forall j | 0 <= j < |t| && j != i ensures Content(f, v, j) == Content(d, t, j) && NoHoles(f, v, j) {
      SameContent(d, t, f, v, j);
    }
  }

  // ---------- truncation ----------

  /** The blocks that inode `i` owns. */
  ghost function OwnedBy(o: Owner, i: nat): set<nat> {
    set b | b in o && o[b].0 == i
  }

  /** (e, u, p) is (d, t, o) with the slots that hold the blocks of `gone`, all of inode `i`, cleared and the blocks free. */
  ghost predicate Dropped(sb: Super, d: Disk, t: Table, o: Owner, e: Disk, u: Table, p: Owner, i: nat, gone: set<nat>) {
    && ValidSuper(sb, d) && ValidSuper(sb, e)
    && SameButAddrs(t, u, i) && p == o - gone && gone <= OwnedBy(o, i)
    && (forall j, y :: 0 <= j < |t| && 0 <= y < NSLOT ==>
          Ptr(e, u, j, y) == if Ptr(d, t, j, y) in gone then 0 else Ptr(d, t, j, y))
    && (forall c :: 0 <= c < sb.bmapstart || DataStart(sb) <= c < sb.size ==> e[c] == d[c])
    && Owned(sb, e, u, p, {})
  }

  lemma DroppedNone(sb: Super, d: Disk, t: Table, o: Owner, i: nat)
    requires Owned(sb, d, t, o, {}) && i < |t|
    ensures Dropped(sb, d, t, o, d, t, o, i, {})
  {
  }

  /** Clearing a direct address takes exactly its block out of the map. */
  lemma ClearAddr(sb: Super, e: Disk, u: Table, p: Owner, i: nat, x: nat)
    requires Owned(sb, e, u, p, {}) && i < |u| && x < NDIRECT && u[i].addrs[x] != 0
    ensures u[i].addrs[x] in p && p[u[i].addrs[x]] == (i, x)
    ensures forall j, y :: 0 <= j < |u| && 0 <= y < NSLOT ==>
              Ptr(e, SetAddr(u, i, x, 0), j, y) == if Ptr(e, u, j, y) == u[i].addrs[x] then 0 else Ptr(e, u, j, y)
  {
  }

  lemma DropAddr(sb: Super, d: Disk, t: Table, o: Owner, e: Disk, u: Table, p: Owner, i: nat, gone: set<nat>, x: nat)
    requires Dropped(sb, d, t, o, e, u, p, i, gone)
    requires x < NDIRECT && u[i].addrs[x] != 0
    ensures var b := u[i].addrs[x];
            && b < sb.size && Bit(sb, e, b)
            && Dropped(sb, d, t, o, Flip(sb, e, b), SetAddr(u, i, x, 0), p - {b}, i, gone + {b})
  {
    hide Bit, Ptr;
    var b, v := u[i].addrs[x], SetAddr(u, i, x, 0);
    ClearAddr(sb, e, u, p, i, x);
    Unlink(sb, e, u, v, p, {}, {b});
    assert {} + {b} == {b} && {b} - {b} == {};
    Free(sb, e, v, p - {b}, {b}, b);
    Regions(sb, e, 0, b);
    assert o - gone - {b} == o - (gone + {b});
  }

  /** The entries of an indirect block from `k` on. */
  ghost function Entries(b: Block, k: nat): set<nat> {
    set j: nat | k <= j < NINDIRECT && Word(b, j) != 0 :: Word(b, j)
  }

  /** Taking the indirect block out of its inode leaves it and its entries pending. */
  lemma DetachIndirect(sb: Super, e: Disk, u: Table, p: Owner, i: nat)
    requires Owned(sb, e, u, p, {}) && i < |u| && u[i].addrs[NDIRECT] != 0
    ensures var a := u[i].addrs[NDIRECT];
            && a < |e| && a >= DataStart(sb)
            && var gone := {a} + Entries(e[a], 0);
               && gone <= OwnedBy(p, i)
               && a !in Entries(e[a], 0)
               && Owned(sb, e, SetAddr(u, i, NDIRECT, 0), p - gone, gone)
               && forall j, y :: 0 <= j < |u| && 0 <= y < NSLOT ==>
                    Ptr(e, SetAddr(u, i, NDIRECT, 0), j, y) == if Ptr(e, u, j, y) in gone then 0 else Ptr(e, u, j, y)
  {
    var a := u[i].addrs[NDIRECT];
    IndirectOwned(sb, e, u, p, {}, i);
    var gone := {a} + Entries(e[a], 0);
    forall j | 0 <= j < NINDIRECT && Word(e[a], j) != 0
      ensures Word(e[a], j) in p && p[Word(e[a], j)] == (i, j + NDIRECT + 1)
    {
      assert Ptr(e, u, i, j + NDIRECT + 1) == Word(e[a], j);
    }
    forall j, y | 0 <= j < |u| && 0 <= y < NSLOT
      ensures Ptr(e, SetAddr(u, i, NDIRECT, 0), j, y) == if Ptr(e, u, j, y) in gone then 0 else Ptr(e, u, j, y)
    {
      if j == i && y > NDIRECT {
        assert Ptr(e, u, i, y) == Word(e[a], y - NDIRECT - 1);
      } else {
        assert Ptr(e, u, j, y) != 0 ==> p[Ptr(e, u, j, y)] == (j, y);
      }
    }
    Unlink(sb, e, u, SetAddr(u, i, NDIRECT, 0), p, {}, gone);
    assert {} + gone == gone;
  }

  /** Entries of an indirect block are distinct, so freeing one leaves the later ones pending. */
  lemma EntriesStep(sb: Super, e: Disk, u: Table, p: Owner, i: nat, b: Block, k: nat)
    requires Owned(sb, e, u, p, {}) && i < |u| && 0 < u[i].addrs[NDIRECT] < |e| && b == e[u[i].addrs[NDIRECT]]
    requires k < NINDIRECT
    ensures Entries(b, k) == Entries(b, k + 1) + (if Word(b, k) == 0 then {} else {Word(b, k)})
    ensures Word(b, k) != 0 ==> Word(b, k) !in Entries(b, k + 1) && Word(b, k) != u[i].addrs[NDIRECT]
  {
    forall j | 0 <= j < NINDIRECT && Word(b, j) != 0 ensures Word(b, j) in p && p[Word(b, j)] == (i, j + NDIRECT + 1) {
      assert Ptr(e, u, i, j + NDIRECT + 1) == Word(b, j);
    }
    IndirectOwned(sb, e, u, p, {}, i);
  }

  /** While the blocks of `pending` are freed one by one, only the bit map changes. */
  ghost predicate Freeing(sb: Super, d: Disk, v: Table, q: Owner, e: Disk, pending: set<nat>) {
    && ValidSuper(sb, d) && ValidSuper(sb, e)
    && (forall c :: 0 <= c < sb.bmapstart || DataStart(sb) <= c < sb.size ==> e[c] == d[c])
    && (forall j, y :: 0 <= j < |v| && 0 <= y < NSLOT ==> Ptr(e, v, j, y) == Ptr(d, v, j, y))
    && Owned(sb, e, v, q, pending)
  }

  lemma FreeingStep(sb: Super, d: Disk, v: Table, q: Owner, e: Disk, pending: set<nat>, b: nat)
    requires Freeing(sb, d, v, q, e, pending) && b in pending
    ensures b < sb.size && Bit(sb, e, b) && Freeing(sb, d, v, q, Flip(sb, e, b), pending - {b})
  {
    hide Ptr, Bit;
    Free(sb, e, v, q, pending, b);
    Regions(sb, e, 0, b);
  }

  lemma FreedIndirect(sb: Super, d: Disk, t: Table, o: Owner, e: Disk, i: nat, gone: set<nat>)
    requires Owned(sb, d, t, o, {}) && i < |t| && t[i].addrs[NDIRECT] != 0 && gone <= OwnedBy(o, i)
    requires Freeing(sb, d, SetAddr(t, i, NDIRECT, 0), o - gone, e, {})
    requires forall j, y :: 0 <= j < |t| && 0 <= y < NSLOT ==>
               Ptr(d, SetAddr(t, i, NDIRECT, 0), j, y) == if Ptr(d, t, j, y) in gone then 0 else Ptr(d, t, j, y)
    ensures Dropped(sb, d, t, o, e, SetAddr(t, i, NDIRECT, 0), o - gone, i, gone)
  {
  }

  lemma DroppedTwice(sb: Super, d: Disk, t: Table, o: Owner, e: Disk, u: Table, p: Owner, f: Disk, v: Table, q: Owner,
                     i: nat, gone: set<nat>, more: set<nat>)
    requires Dropped(sb, d, t, o, e, u, p, i, gone) && Dropped(sb, e, u, p, f, v, q, i, more)
    ensures Dropped(sb, d, t, o, f, v, q, i, gone + more)
  {
  }

  /** Once no slot of an inode is left, it owns nothing and every other file is as it was. */
  lemma DroppedAll(sb: Super, d: Disk, t: Table, o: Owner, e: Disk, u: Table, p: Owner, i: nat, gone: set<nat>)
    requires Owned(sb, d, t, o, {}) && Dropped(sb, d, t, o, e, u, p, i, gone)
    requires forall x :: 0 <= x <= NDIRECT ==> u[i].addrs[x] == 0
    ensures gone == OwnedBy(o, i)
    ensures forall b :: 0 <= b < sb.size ==> Bit(sb, e, b) == (Bit(sb, d, b) && b !in OwnedBy(o, i))
  {
  }

  lemma DroppedOthers(sb: Super, d: Disk, t: Table, o: Owner, e: Disk, u: Table, p: Owner, i: nat, gone: set<nat>)
    requires Owned(sb, d, t, o, {}) && Dropped(sb, d, t, o, e, u, p, i, gone)
    ensures forall j, m :: 0 <= j < |t| && 0 <= m < MAXFILE && j != i ==> FileBlock(e, u, j, m) == FileBlock(d, t, j, m)
  {
  }

  lemma NoEntries(b: Block)
    ensures Entries(b, NINDIRECT) == {}
  {
  }

  /** The inode of a truncated file, in memory and on disk. */
  lemma TruncatedInode(sb: Super, d: Disk, t: Table, e: Disk, u: Table, f: Disk, v: Table, i: nat)
    requires Synced(sb, d, t) && SameButAddrs(t, u, i) && ValidSuper(sb, e)
    requires forall x :: 0 <= x <= NDIRECT ==> u[i].addrs[x] == 0
    requires forall c :: 0 <= c < sb.bmapstart ==> e[c] == d[c]
    requires v == u[i := u[i].(size := 0)] && f == PutInode(sb, e, i, v[i])
    ensures v == t[i := t[i].(size := 0, addrs := seq(NDIRECT + 1, _ => 0))]
    ensures Synced(sb, f, v) && forall b :: 0 <= b < sb.size ==> Bit(sb, f, b) == Bit(sb, e, b)
  {
    hide GetInode;
    assert v[i].addrs == seq(NDIRECT + 1, _ => 0);
    InodesFrame(sb, d, e);
    Regions(sb, e, i, 0);
    BitsFrame(sb, e, f);
  }

  /** The files before a truncation (d, t), with its blocks freed (e, u), and after iupdate (f, v). */
  lemma Truncated(d: Disk, t: Table, e: Disk, u: Table, f: Disk, v: Table, i: nat)
    requires Sizes(d, t) && SameButAddrs(t, u, i) && v == u[i := u[i].(size := 0)]
    requires forall j, m :: 0 <= j < |t| && 0 <= m < MAXFILE && j != i ==> FileBlock(e, u, j, m) == FileBlock(d, t, j, m)
    requires SameFilesBut(e, u, f, v, i, MAXFILE)
    ensures Sizes(f, v) && Content(f, v, i) == []
    ensures forall j :: 0 <= j < |t| && j != i ==> Content(f, v, j) == Content(d, t, j)
  {
    hide FileBlock, Content;
    forall j | 0 <= j < |t| && j != i ensures Content(f, v, j) == Content(d, t, j) && NoHoles(f, v, j) {
      SameContent(d, t, f, v, j);
    }
  }

  // ---------- how many blocks a write takes ----------

  ghost function FreeBlocks(sb: Super, d: Disk): set<nat>
    requires ValidSuper(sb, d)
  {
    set b: nat | b < sb.size && !Bit(sb, d, b)
  }

  /** The slots of inode `i` that have a block. */
  ghost function Held(d: Disk, t: Table, i: nat): set<nat>
    requires i < |t|
  {
    set x: nat | x < NSLOT && Ptr(d, t, i, x) != 0
  }

  /** The slots that must have a block for block `bn` of a file: its own, and that of the indirect block. */
  ghost function Slots(bn: nat): set<nat>
    requires bn < MAXFILE
  {
    if bn < NDIRECT then {Slot(bn)} else {NDIRECT, Slot(bn)}
  }

  ghost predicate ByteSlot(k: nat, x: nat) {
    k / BSIZE < MAXFILE && x in Slots(k / BSIZE)
  }

  ghost predicate Touches(off: nat, n: nat, x: nat) {
    exists k: nat :: off <= k < off + n && ByteSlot(k, x)
  }

  /** The slots for the bytes from `off` to `off + n`. */
  ghost function Touched(off: nat, n: nat): set<nat> {
    set x: nat | x < NSLOT && Touches(off, n, x)
  }

  /** The blocks that a write of `n` bytes at `off` must allocate. */
  ghost function Missing(d: Disk, t: Table, i: nat, off: nat, n: nat): nat
    requires i < |t|
  {
    |Touched(off, n) - Held(d, t, i)|
  }

  lemma TouchedSum(off: nat, a: nat, b: nat)
    ensures Touched(off, a + b) == Touched(off, a) + Touched(off + a, b)
  {
    hide ByteSlot;
    forall x: nat ensures Touches(off, a + b, x) <==> Touches(off, a, x) || Touches(off + a, b, x) {
      if Touches(off, a + b, x) {
        var k: nat :| off <= k < off + a + b && ByteSlot(k, x);
        assert k < off + a || off + a <= k;
      }
    }
  }

  lemma TouchedPiece(o: nat, m: nat)
    requires 0 < m && Fits(o, m) && o < MAXFILE * BSIZE
    ensures o / BSIZE < MAXFILE && Touched(o, m) == Slots(o / BSIZE)
  {
    forall k | o <= k < o + m ensures k / BSIZE == o / BSIZE {
    }
    forall x: nat ensures Touches(o, m, x) <==> x in Slots(o / BSIZE) {
      if x in Slots(o / BSIZE) {
        assert ByteSlot(o, x);
      }
    }
  }

  /** The slots of inode `i` that own a block. */
  ghost function SlotsOf(o: Owner, i: nat): set<nat> {
    set x: nat | x < NSLOT && OwnsSlot(o, i, x)
  }

  ghost predicate OwnsSlot(o: Owner, i: nat, x: nat) {
    exists b :: b in o && o[b] == (i, x)
  }

  /** Blocks were allocated for new slots of inode `i` only, one for each. */
  ghost predicate Kept(o: Owner, p: Owner, i: nat) {
    |p| + |SlotsOf(o, i)| == |o| + |SlotsOf(p, i)|
  }

  /** The number of data blocks. */
  ghost function Room(sb: Super): int {
    sb.size - DataStart(sb)
  }

  /** Inode `i` has got blocks for `slots`. */
  ghost predicate Got(o: Owner, p: Owner, i: nat, slots: set<nat>) {
    Kept(o, p, i) && SlotsOf(p, i) == SlotsOf(o, i) + slots
  }

  /** All blocks are in use, and inode `i` still lacks one for `slots`. */
  ghost predicate Stuck(sb: Super, o: Owner, p: Owner, i: nat, slots: set<nat>) {
    Kept(o, p, i) && SlotsOf(p, i) < SlotsOf(o, i) + slots && |p| == Room(sb)
  }

  lemma GotNone(o: Owner, i: nat)
    ensures Got(o, o, i, {})
  {
  }

  lemma SlotHeld(sb: Super, d: Disk, t: Table, o: Owner, i: nat, x: nat)
    requires Owned(sb, d, t, o, {}) && i < |t| && x < NSLOT
    ensures x in SlotsOf(o, i) <==> Ptr(d, t, i, x) != 0
  {
  }

  lemma GotHeld(sb: Super, d: Disk, t: Table, o: Owner, i: nat, x: nat)
    requires Owned(sb, d, t, o, {}) && i < |t| && x < NSLOT && Ptr(d, t, i, x) != 0
    ensures Got(o, o, i, {x})
  {
    hide Owned, SlotsOf;
    SlotHeld(sb, d, t, o, i, x);
    assert SlotsOf(o, i) + {x} == SlotsOf(o, i);
  }

  lemma GotOne(sb: Super, d: Disk, t: Table, o: Owner, i: nat, x: nat, r: nat)
    requires Owned(sb, d, t, o, {}) && i < |t| && x < NSLOT && Ptr(d, t, i, x) == 0 && r !in o
    ensures Got(o, o[r := (i, x)], i, {x})
  {
    hide Owned, SlotsOf;
    SlotHeld(sb, d, t, o, i, x);
    MoreSlots(o, i, x, r);
    assert o[r := (i, x)].Keys == o.Keys + {r};
  }

  lemma MoreSlots(o: Owner, i: nat, x: nat, r: nat)
    requires x < NSLOT && r !in o
    ensures SlotsOf(o[r := (i, x)], i) == SlotsOf(o, i) + {x}
  {
    var p := o[r := (i, x)];
    forall y: nat ensures OwnsSlot(p, i, y) <==> OwnsSlot(o, i, y) || y == x {
      if OwnsSlot(o, i, y) {
        var b :| b in o && o[b] == (i, y);
        assert b in p && p[b] == (i, y);
      }
      assert r in p && p[r] == (i, x);
    }
  }

  lemma IndirectHeld(sb: Super, d: Disk, t: Table, o: Owner, i: nat)
    requires Owned(sb, d, t, o, {}) && i < |t|
    ensures t[i].addrs[NDIRECT] != 0 ==> Got(o, o, i, {NDIRECT})
  {
    hide Owned, Got;
    if t[i].addrs[NDIRECT] != 0 {
      GotHeld(sb, d, t, o, i, NDIRECT);
    }
  }

  lemma DataBlocks(sb: Super, d: Disk, t: Table, o: Owner)
    requires Owned(sb, d, t, o, {})
    ensures |o| <= Room(sb) && |FreeBlocks(sb, d)| == Room(sb) - |o|
  {
    hide Ptr, Bit;
    var free := FreeBlocks(sb, d);
    assert o.Keys + free == Numbers(DataStart(sb), sb.size);
    assert o.Keys !! free;
    HowMany(DataStart(sb), sb.size);
    assert |o| == |o.Keys|;
  }

  lemma StuckAt(sb: Super, d: Disk, t: Table, o: Owner, i: nat, x: nat)
    requires Owned(sb, d, t, o, {}) && i < |t| && x < NSLOT && Ptr(d, t, i, x) == 0 && DiskFull(sb, d)
    ensures Stuck(sb, o, o, i, {x})
  {
    SlotHeld(sb, d, t, o, i, x);
    DataBlocks(sb, d, t, o);
    hide Owned, Bit, Ptr;
    assert FreeBlocks(sb, d) == {};
  }

  lemma TouchedNone(o: Owner, i: nat, off: nat)
    ensures Got(o, o, i, Touched(off, 0))
  {
    assert Touched(off, 0) == {};
  }

  lemma GotMore(o: Owner, p: Owner, q: Owner, i: nat, off: nat, tot: nat, m: nat)
    requires Got(o, p, i, Touched(off, tot)) && Got(p, q, i, Touched(off + tot, m))
    ensures Got(o, q, i, Touched(off, tot + m))
  {
    hide Got, Touched;
    TouchedSum(off, tot, m);
    GotTwice(o, p, q, i, Touched(off, tot), Touched(off + tot, m));
  }

  lemma StuckInside(sb: Super, o: Owner, p: Owner, q: Owner, i: nat, off: nat, tot: nat, m: nat, n: nat)
    requires Got(o, p, i, Touched(off, tot)) && Stuck(sb, p, q, i, Touched(off + tot, m)) && tot + m <= n
    ensures Stuck(sb, o, q, i, Touched(off, n))
  {
    hide Got, Stuck, Touched;
    TouchedSum(off, tot, m);
    TouchedSum(off, tot + m, n - tot - m);
    StuckLater(sb, o, p, q, i, Touched(off, tot), Touched(off + tot, m), Touched(off, n));
  }

  lemma GotTwice(o: Owner, p: Owner, q: Owner, i: nat, a: set<nat>, b: set<nat>)
    requires Got(o, p, i, a)
    ensures Got(p, q, i, b) ==> Got(o, q, i, a + b)
  {
    hide SlotsOf;
  }

  lemma StuckLater(sb: Super, o: Owner, p: Owner, q: Owner, i: nat, a: set<nat>, b: set<nat>, all: set<nat>)
    requires Got(o, p, i, a) && a + b <= all
    ensures Stuck(sb, p, q, i, b) ==> Stuck(sb, o, q, i, all)
  {
    hide SlotsOf;
  }

  /** A write gets its blocks or gets stuck as the numbers of missing and free blocks say. */
  lemma Enough(sb: Super, d: Disk, t: Table, o: Owner, p: Owner, i: nat, off: nat, n: nat)
    requires Owned(sb, d, t, o, {}) && i < |t|
    ensures Got(o, p, i, Touched(off, n)) && |p| <= Room(sb) ==> Missing(d, t, i, off, n) <= |FreeBlocks(sb, d)|
    ensures Stuck(sb, o, p, i, Touched(off, n)) ==> Missing(d, t, i, off, n) > |FreeBlocks(sb, d)|
  {
    var slots := Touched(off, n);
    assert SlotsOf(o, i) == Held(d, t, i) by {
      forall x: nat | x < NSLOT ensures x in SlotsOf(o, i) <==> Ptr(d, t, i, x) != 0 {
        SlotHeld(sb, d, t, o, i, x);
      }
    }
    DataBlocks(sb, d, t, o);
    hide Owned, SlotsOf, Touched, FreeBlocks, Held;
    SizeOfSum(SlotsOf(o, i), slots);
    if SlotsOf(p, i) < SlotsOf(o, i) + slots {
      SizeOfSubset(SlotsOf(p, i), SlotsOf(o, i) + slots);
    }
  }

  // ---------- what an operation changes ----------

  /** `d` differs from `base` in the logged blocks only. */
  ghost predicate ConfinedTo(base: Disk, d: Disk, logged: set<nat>) {
    |d| == |base| && forall b: nat :: b < |d| && b !in logged ==> d[b] == base[b]
  }

  // ---------- an empty image ----------

  /** The byte whose `n` lowest bits are set. */
  function LowBits(n: nat): byte
    requires n <= 8
  {
    [0, 1, 3, 7, 15, 31, 63, 127, 255][n]
  }

  lemma {:induction false} LowBitsTest(n: nat, j: nat)
    requires n <= 8
    ensures TestBit(LowBits(n), j) <==> j < n
  {
    if n > 0 && j > 0 {
      LowBitsTest(n - 1, j - 1);
      assert LowBits(n) / 2 == LowBits(n - 1);
    } else if n == 0 && j > 0 {
      LowBitsTest(0, j - 1);
    }
  }

  /** Byte `k` of a bit map that marks the blocks below `used`. */
  function MarkByte(used: nat, k: nat): byte {
    LowBits(if used <= 8 * k then 0 else if used >= 8 * k + 8 then 8 else used - 8 * k)
  }

  function MarkBlock(used: nat, first: nat): (b: Block)
    ensures forall k :: 0 <= k < BSIZE ==> b[k] == MarkByte(used, first + k)
  {
    var b := seq(BSIZE, k requires 0 <= k < BSIZE => MarkByte(used, first + k));
    assert forall k :: 0 <= k < BSIZE ==> b[k] == MarkByte(used, first + k);
    b
  }

  /** A disk with no file: the bit map marks the metadata, all else is zero. */
  function EmptyImage(sb: Super): (d: Disk)
    ensures |d| == sb.size
  {
    seq(sb.size, (a: nat) => EmptyBlock(sb, a))
  }

  function EmptyBlock(sb: Super, a: nat): Block {
    if sb.bmapstart <= a < DataStart(sb) then MarkBlock(DataStart(sb), (a - sb.bmapstart) * BSIZE) else ZeroBlock()
  }

  function NoInodes(n: nat): Table {
    seq(n, _ => Inode(0, 0, 0, 0, 0, seq(NDIRECT + 1, _ => 0)))
  }

  lemma EmptyBits(sb: Super, b: nat)
    requires DataStart(sb) <= sb.size && ValidSuper(sb, EmptyImage(sb)) && b < sb.size
    ensures Bit(sb, EmptyImage(sb), b) <==> b < DataStart(sb)
  {
    var a, k := BBlock(sb, b), b % BPB / 8;
    assert sb.bmapstart <= a < DataStart(sb);
    var n := (a - sb.bmapstart) * BSIZE + k;
    assert b == 8 * n + b % BPB % 8 && EmptyImage(sb)[a][k] == MarkByte(DataStart(sb), n);
    var used := DataStart(sb);
    LowBitsTest(if used <= 8 * n then 0 else if used >= 8 * n + 8 then 8 else used - 8 * n, b % BPB % 8);
  }

  /** The empty image of every layout satisfies what file operations keep. */
  lemma EmptyImageOk(sb: Super)
    requires sb.size < UINT && 2 <= sb.inodestart && sb.inodestart + sb.ninodes / IPB + 1 <= sb.bmapstart
    requires DataStart(sb) <= sb.size
    ensures Owned(sb, EmptyImage(sb), NoInodes(sb.ninodes), map[], {})
    ensures Synced(sb, EmptyImage(sb), NoInodes(sb.ninodes)) && Sizes(EmptyImage(sb), NoInodes(sb.ninodes))
  {
    var d, t := EmptyImage(sb), NoInodes(sb.ninodes);
    forall b | 0 <= b < sb.size ensures Bit(sb, d, b) <==> b < DataStart(sb) {
      EmptyBits(sb, b);
    }
    forall i | 0 <= i < |t| ensures t[i] == GetInode(sb, d, i) {
      assert d[IBlock(sb, i)] == ZeroBlock();
      assert GetInode(sb, d, i).addrs == t[i].addrs;
    }
  }

  class Fs {
    const sb: Super
    var disk: Disk
    var inodes: Table
    ghost var owner: Owner
    ghost var base: Disk  // the disk when the current operation began
    ghost var logged: set<nat>

    /** The operation has changed only blocks that it logged. */
    ghost predicate Confined()
      reads this
    {
      ConfinedTo(base, disk, logged)
    }

    /** Block ownership holds; the inode being worked on need not be on disk yet. */
    ghost predicate Good()
      reads this
    {
      Owned(sb, disk, inodes, owner, {})
    }

    /** What holds between operations. */
    ghost predicate Inv()
      reads this
    {
      Good() && Synced(sb, disk, inodes) && Sizes(disk, inodes)
    }

    constructor (sb: Super, d: Disk, t: Table, ghost owner: Owner)
      requires Owned(sb, d, t, owner, {})
      ensures this.sb == sb && disk == d && inodes == t && this.owner == owner && logged == {} && Good()
      ensures Synced(sb, d, t) && Sizes(d, t) ==> Inv()
    {
      this.sb, disk, inodes, this.owner, base, logged := sb, d, t, owner, d, {};
    }

    /** begin_op: a new log operation, which has logged nothing. */
    method BeginOp()
      modifies this`base, this`logged
      ensures base == disk && logged == {} && Confined()
    {
      base, logged := disk, {};
    }

    method LogWrite(b: nat, data: Block)
      requires b < |disk|
      modifies this`disk, this`logged
      ensures disk == old(disk)[b := data] && logged == old(logged) + {b}
      ensures old(Confined()) ==> Confined()
    {
      disk := disk[b := data];
      logged := logged + {b};
    }

    /** Marks block `b` in use in its bit map block. */
    method SetMark(b: nat)
      requires ValidSuper(sb, disk) && b < sb.size && !Bit(sb, disk, b)
      modifies this`disk, this`logged
      ensures disk == Flip(sb, old(disk), b) && logged == old(logged) + {BBlock(sb, b)}
      ensures old(Confined()) ==> Confined()
    {
      hide TestBit, FlipBit, Mask, ConfinedTo;
      Regions(sb, disk, 0, b);
      var a, bi := BBlock(sb, b), b % BPB;
      LogWrite(a, disk[a][bi / 8 := SetBit(disk[a][bi / 8], bi % 8)]);
    }

    /** Marks block `b` free. */
    method ClearMark(b: nat)
      requires ValidSuper(sb, disk) && b < sb.size && Bit(sb, disk, b)
      modifies this`disk, this`logged
      ensures disk == Flip(sb, old(disk), b) && logged == old(logged) + {BBlock(sb, b)}
      ensures old(Confined()) ==> Confined()
    {
      hide TestBit, FlipBit, Mask, ConfinedTo;
      Regions(sb, disk, 0, b);
      var a, bi := BBlock(sb, b), b % BPB;
      LogWrite(a, disk[a][bi / 8 := ClearBit(disk[a][bi / 8], bi % 8)]);
    }

    /** balloc: the lowest free block, marked and zeroed; a panic means that none is free. */
    method Balloc() returns (ok: bool, r: nat)
      requires ValidSuper(sb, disk)
      modifies this`disk, this`logged
      ensures ok ==> r < sb.size && !Bit(sb, old(disk), r) && forall c :: 0 <= c < r ==> Bit(sb, old(disk), c)
      ensures ok ==> disk == Flip(sb, old(disk), r)[r := ZeroBlock()] && logged == old(logged) + {BBlock(sb, r), r}
      ensures !ok ==> disk == old(disk) && forall c :: 0 <= c < sb.size ==> Bit(sb, disk, c)
      ensures old(Confined()) ==> Confined()
    {
      hide Bit, Flip, BBlock, ZeroBlock, ConfinedTo;
      var b := 0;
      while b < sb.size
        invariant 0 <= b && disk == old(disk) && logged == old(logged)
        invariant forall c :: 0 <= c < b && c < sb.size ==> Bit(sb, disk, c)
      {
        var bi := 0;
        while bi < BPB && b + bi < sb.size
          invariant 0 <= bi <= BPB && disk == old(disk) && logged == old(logged)
          invariant forall c :: 0 <= c < b + bi && c < sb.size ==> Bit(sb, disk, c)
        {
          if !Bit(sb, disk, b + bi) {
            SetMark(b + bi);
            LogWrite(b + bi, ZeroBlock());
            return true, b + bi;
          }
          bi := bi + 1;
        }
        b := b + BPB;
      }
      return false, 0;
    }

    /** bfree: a panic means that the block was free already. */
    method Bfree(b: nat) returns (ok: bool)
      requires ValidSuper(sb, disk) && b < sb.size
      modifies this`disk, this`logged
      ensures ok <==> Bit(sb, old(disk), b)
      ensures ok ==> disk == Flip(sb, old(disk), b)
      ensures !ok ==> disk == old(disk)
    {
      if !Bit(sb, disk, b) {
        return false;
      }
      ClearMark(b);
      return true;
    }

    /** A fresh zeroed block stored in the empty address `x` of inode `i`. */
    method AllocAddr(i: nat, x: nat) returns (ok: bool, r: nat)
      requires Good() && i < |inodes| && x <= NDIRECT && inodes[i].addrs[x] == 0
      modifies this
      ensures ok ==> Linked(sb, old(disk), old(inodes), old(owner), disk, inodes, owner, i, x, r)
      ensures ok ==> inodes == SetAddr(old(inodes), i, x, r) && logged == old(logged) + {BBlock(sb, r), r}
      ensures !ok ==> DiskFull(sb, disk)
      ensures if ok then Got(old(owner), owner, i, {x}) else Stuck(sb, old(owner), owner, i, {x})
      ensures base == old(base) && (old(Confined()) ==> Confined())
    {
      hide Got, Stuck, ConfinedTo;
      ok, r := Balloc();
      if ok {
        AddrLinked(sb, old(disk), inodes, owner, i, x, r);
        GotOne(sb, old(disk), inodes, owner, i, x, r);
        inodes := SetAddr(inodes, i, x, r);
        owner := owner[r := (i, x)];
      } else {
        StuckAt(sb, disk, inodes, owner, i, x);
      }
    }

    /** A fresh zeroed block stored in the empty entry `k` of the indirect block of inode `i`. */
    method AllocEntry(i: nat, k: nat) returns (ok: bool, r: nat)
      requires Good() && i < |inodes| && k < NINDIRECT
      requires inodes[i].addrs[NDIRECT] != 0 && Ptr(disk, inodes, i, k + NDIRECT + 1) == 0
      modifies this
      ensures ok ==> Linked(sb, old(disk), old(inodes), old(owner), disk, inodes, owner, i, k + NDIRECT + 1, r)
      ensures ok ==> inodes == old(inodes) && logged == old(logged) + {BBlock(sb, r), r, inodes[i].addrs[NDIRECT]}
      ensures !ok ==> DiskFull(sb, disk)
      ensures if ok then Got(old(owner), owner, i, {k + NDIRECT + 1}) else Stuck(sb, old(owner), owner, i, {k + NDIRECT + 1})
      ensures base == old(base) && (old(Confined()) ==> Confined())
    {
      hide Got, Stuck, ConfinedTo;
      var a := inodes[i].addrs[NDIRECT];
      ok, r := Balloc();
      if ok {
        EntryLinked(sb, old(disk), inodes, owner, i, k, r, disk);
        GotOne(sb, old(disk), inodes, owner, i, k + NDIRECT + 1, r);
        LogWrite(a, SetWord(disk[a], k, r));
        owner := owner[r := (i, k + NDIRECT + 1)];
      } else {
        StuckAt(sb, disk, inodes, owner, i, k + NDIRECT + 1);
      }
    }

    /**
     bmap: the disk block that holds block `bn` of file `i`, allocated if it is missing.
     `maps` are the bit map blocks that it logs, one for each block that it allocates.
     */
    method Bmap(i: nat, bn: nat) returns (ok: bool, r: nat, ghost maps: set<nat>)
      requires Good() && i < |inodes|
      modifies this
      ensures ok ==> Mapped(sb, old(disk), old(inodes), old(owner), disk, inodes, owner, i, bn, r)
      ensures ok ==> logged <= old(logged) + maps + {r} + Indirect(inodes[i]) && Indirect(old(inodes)[i]) <= Indirect(inodes[i])
      ensures ok ==> |maps| <= (if FileBlock(old(disk), old(inodes), i, bn).Some? then 0 else 1)
                               + (if inodes[i].addrs[NDIRECT] == old(inodes)[i].addrs[NDIRECT] then 0 else 1)
      ensures ok && old(inodes)[i].addrs[NDIRECT] != 0 ==> inodes[i].addrs[NDIRECT] == old(inodes)[i].addrs[NDIRECT]
      ensures bn < MAXFILE && FileBlock(old(disk), old(inodes), i, bn).Some? ==> ok && logged == old(logged)
      ensures !ok ==> bn >= MAXFILE || DiskFull(sb, disk)
      ensures bn < MAXFILE ==> if ok then Got(old(owner), owner, i, Slots(bn)) else Stuck(sb, old(owner), owner, i, Slots(bn))
      ensures base == old(base) && (old(Confined()) ==> Confined())
    {
      hide Got, Stuck, ConfinedTo, Owned, Ptr, FileBlock, Mapped, Linked, DiskFull;
      maps := {};
      ghost var d, t, o := disk, inodes, owner;
      if bn < NDIRECT {
        DirectPtr(d, t, i, bn);
        r := inodes[i].addrs[bn];
        if r == 0 {
          ok, r := AllocAddr(i, bn);
          if ok {
            NewlyMapped(sb, d, t, o, disk, inodes, owner, i, bn, r);
            maps := {BBlock(sb, r)};
          }
          return;
        }
        AlreadyMapped(sb, disk, inodes, owner, i, bn);
        GotHeld(sb, disk, inodes, owner, i, bn);
        return true, r, maps;
      }
      if bn - NDIRECT < NINDIRECT {
        var a;
        ok, a, maps := LoadIndirect(i);
        if !ok {
          NoIndirect(d, t, i, bn);
          GotNone(o, i);
          StuckLater(sb, o, o, owner, i, {}, {NDIRECT}, Slots(bn));
          return false, 0, maps;
        }
        ghost var d1, t1, o1 := disk, inodes, owner;
        ghost var more;
        ok, r, more := BmapEntry(i, bn);
        GotTwice(o, o1, owner, i, {NDIRECT}, {Slot(bn)});
        StuckLater(sb, o, o1, owner, i, {NDIRECT}, {Slot(bn)}, Slots(bn));
        assert {NDIRECT} + {Slot(bn)} == Slots(bn);
        if ok {
          MappedAfterReady(sb, d, t, o, d1, t1, o1, disk, inodes, owner, i, bn, r);
          maps := maps + more;
        }
        return;
      }
      return false, 0, maps;
    }

    /** The address of the indirect block, allocated if it is missing. */
    method LoadIndirect(i: nat) returns (ok: bool, a: nat, ghost maps: set<nat>)
      requires Good() && i < |inodes|
      modifies this
      ensures ok ==> Ready(sb, old(disk), old(inodes), old(owner), disk, inodes, owner, i)
      ensures ok ==> a == inodes[i].addrs[NDIRECT] && logged <= old(logged) + maps + {a}
      ensures ok ==> |maps| <= if old(inodes)[i].addrs[NDIRECT] == 0 then 1 else 0
      ensures old(inodes)[i].addrs[NDIRECT] != 0 ==> ok && logged == old(logged)
      ensures !ok ==> DiskFull(sb, disk)
      ensures if ok then Got(old(owner), owner, i, {NDIRECT}) else Stuck(sb, old(owner), owner, i, {NDIRECT})
      ensures base == old(base) && (old(Confined()) ==> Confined())
    {
      hide Owned, Ptr, FileBlock, DiskFull, Got, Stuck, ConfinedTo;
      IndirectHeld(sb, disk, inodes, owner, i);
      maps := {};
      a := inodes[i].addrs[NDIRECT];
      ok := true;
      if a == 0 {
        ok, a := AllocAddr(i, NDIRECT);
        if ok {
          LinkedFiles(sb, old(disk), old(inodes), old(owner), disk, inodes, owner, i, NDIRECT, a, MAXFILE);
          maps := {BBlock(sb, a)};
        }
      } else {
        AlreadyReady(sb, disk, inodes, owner, i);
      }
    }

    /** bmap beyond the direct blocks, once the indirect block is there. */
    method BmapEntry(i: nat, bn: nat) returns (ok: bool, r: nat, ghost maps: set<nat>)
      requires Good() && i < |inodes| && NDIRECT <= bn < MAXFILE && 0 < inodes[i].addrs[NDIRECT] < |disk|
      modifies this
      ensures ok ==> Mapped(sb, old(disk), old(inodes), old(owner), disk, inodes, owner, i, bn, r)
      ensures ok ==> inodes == old(inodes) && logged <= old(logged) + maps + {r} + Indirect(inodes[i])
      ensures ok ==> |maps| <= if FileBlock(old(disk), old(inodes), i, bn).Some? then 0 else 1
      ensures FileBlock(old(disk), old(inodes), i, bn).Some? ==> ok && logged == old(logged)
      ensures !ok ==> DiskFull(sb, disk)
      ensures if ok then Got(old(owner), owner, i, {Slot(bn)}) else Stuck(sb, old(owner), owner, i, {Slot(bn)})
      ensures base == old(base) && (old(Confined()) ==> Confined())
    {
      hide Got, Stuck, ConfinedTo, Owned, Ptr, FileBlock, Mapped, Linked, Word, DiskFull;
      maps := {};
      ok := true;
      EntryPtr(disk, inodes, i, bn);
      r := Word(disk[inodes[i].addrs[NDIRECT]], bn - NDIRECT);
      if r == 0 {
        ok, r := AllocEntry(i, bn - NDIRECT);
        if ok {
          NewlyMapped(sb, old(disk), old(inodes), old(owner), disk, inodes, owner, i, bn, r);
          maps := {BBlock(sb, r)};
        }
      } else {
        AlreadyMapped(sb, disk, inodes, owner, i, bn);
        GotHeld(sb, disk, inodes, owner, i, Slot(bn));
      }
    }

    method Iupdate(i: nat)
      requires Good() && i < |inodes|
      modifies this`disk, this`logged
      ensures disk == PutInode(sb, old(disk), i, inodes[i]) && logged == old(logged) + {IBlock(sb, i)}
      ensures Good() && SameFilesBut(old(disk), inodes, disk, inodes, i, MAXFILE)
      ensures old(Confined()) ==> Confined()
    {
      hide ConfinedTo;
      InodeOnly(sb, disk, inodes, owner, i);
      Regions(sb, disk, i, 0);
      var e := PutInode(sb, disk, i, inodes[i]);
      assert e == disk[IBlock(sb, i) := e[IBlock(sb, i)]];
      LogWrite(IBlock(sb, i), e[IBlock(sb, i)]);
    }

    /** readi returns the slice of the file that it is asked for, and changes nothing. */
    method Readi(i: nat, off: uint32, n: uint32) returns (r: int, dst: seq<byte>)
      requires Inv() && i < |inodes| && inodes[i].typ != T_DEV
      modifies this
      ensures disk == old(disk) && inodes == old(inodes) && owner == old(owner) && logged == old(logged) && base == old(base)
      ensures r == -1 <==> off > inodes[i].size || off + n >= UINT
      ensures r != -1 ==> r == |dst|
      ensures r != -1 ==> dst == Content(disk, inodes, i)[off..if off + n > inodes[i].size then inodes[i].size else off + n]
    {
      hide Owned, NoHoles, Synced, Content, FileBlock, Mapped, Indirect, DiskFull, Got, Stuck, ConfinedTo, Slots;
      var size := inodes[i].size;
      if off > size || (off + n) % UINT < off {
        return -1, [];
      }
      var left: nat := if off + n > size then size - off else n;
      var tot := 0;
      dst := [];
      ghost var c := Content(disk, inodes, i);
      while tot < left
        invariant 0 <= tot <= left && off + left <= size
        invariant disk == old(disk) && inodes == old(inodes) && owner == old(owner) && logged == old(logged) && base == old(base)
        invariant dst == c[off..off + tot]
      {
        var o := off + tot;
        MappedBelowSize(disk, inodes, i, o);
        var ok, a, _ := Bmap(i, o / BSIZE);
        MappedThere(sb, old(disk), old(inodes), old(owner), disk, inodes, owner, i, o / BSIZE, a);
        var m := PieceSize(o, left - tot);
        ReadPiece(disk, inodes, i, o, m);
        dst := dst + disk[a][o % BSIZE..o % BSIZE + m];
        tot := tot + m;
      }
      r := left;
    }

    /**
     writei stores `src` at `off` and nothing else: the file becomes the abstract overwrite, all
     other files and inodes keep their contents, and the inode on disk is again the one in
     memory.  It logs at most WriteCost(off, n) distinct blocks and changes no other.  It panics
     exactly when more blocks are missing than are free.
     */
    method Writei(i: nat, src: seq<byte>, off: uint32) returns (ok: bool, r: int)
      requires Inv() && i < |inodes| && inodes[i].typ != T_DEV && |src| < UINT
      modifies this
      ensures ok ==> Inv()
      ensures r == -1 <==> !ok || off > old(inodes)[i].size || off + |src| > MAXFILE * BSIZE
      ensures off > old(inodes)[i].size || off + |src| > MAXFILE * BSIZE ==> ok
      ensures ok && r == -1 ==> disk == old(disk) && inodes == old(inodes) && logged == old(logged)
      ensures ok && r != -1 ==> r == |src| && Stored(old(disk), old(inodes), disk, inodes, i, off, src)
      ensures ok && r != -1 ==> |logged - old(logged)| <= WriteCost(off, |src|)
      ensures ok <==> off > old(inodes)[i].size || off + |src| > MAXFILE * BSIZE
                      || Missing(old(disk), old(inodes), i, off, |src|) <= |FreeBlocks(sb, old(disk))|
      ensures off + |src| <= Capacity(old(inodes)[i].size) ==> ok
      ensures !ok ==> DiskFull(sb, disk)
      ensures ok ==> Got(old(owner), owner, i, if r == -1 then {} else Touched(off, |src|))
      ensures !ok ==> Stuck(sb, old(owner), owner, i, Touched(off, |src|))
      ensures base == old(base) && (old(Confined()) ==> Confined())
    {
      hide Owned, Written, SameFilesBut, Synced, Content, FileBlock, Span, Stored, Capacity, Got, Stuck, ConfinedTo,
           Missing, FreeBlocks, Touched;
      GotNone(owner, i);
      var n := |src|;
      var size := inodes[i].size;
      if off > size || (off + n) % UINT < off {
        return true, -1;
      }
      if off + n > MAXFILE * BSIZE {
        return true, -1;
      }
      ghost var d, t, l := disk, inodes, logged;
      ghost var data, maps, inode;
      ok, data, maps := WriteBlocks(i, src, off);
      Enough(sb, d, t, old(owner), owner, i, off, n);
      if !ok {
        return false, -1;
      }
      CopyingRoom(sb, d, t, disk, inodes, owner, i, off, src);
      ghost var e, u := disk, inodes;
      inode := FinishSize(i, off, src, d, t);
      CountLogged(l, logged, data, maps, Indirect(inodes[i]), inode);
      assert n == 0 ==> logged - l == {};
      WriteFinished(sb, d, t, e, u, disk, inodes, i, off, src);
      return true, n;
    }

    /** The end of writei: a file that grew gets its new size, in memory and on disk. */
    method FinishSize(i: nat, off: nat, src: seq<byte>, ghost d: Disk, ghost t: Table) returns (ghost inode: set<nat>)
      requires Copying(sb, d, t, disk, inodes, owner, i, off, src, |src|) && Synced(sb, d, t)
      requires off <= t[i].size && off + |src| <= MAXFILE * BSIZE
      modifies this`disk, this`inodes, this`logged
      ensures Good() && Synced(sb, disk, inodes) && SameFilesBut(old(disk), old(inodes), disk, inodes, i, MAXFILE)
      ensures inodes == if |src| > 0 && off + |src| > t[i].size
                        then old(inodes)[i := old(inodes)[i].(size := off + |src|)] else old(inodes)
      ensures logged == old(logged) + inode && |inode| <= if |src| > 0 then 1 else 0
      ensures old(Confined()) ==> Confined()
    {
      hide Owned, Written, FileBlock, GetInode, PutInode, ConfinedTo;
      inode := {};
      InodesFrame(sb, d, disk);
      var end := off + |src|;
      if |src| > 0 && end > inodes[i].size {
        SizeOnly(sb, disk, inodes, owner, i, end);
        inodes := inodes[i := inodes[i].(size := end)];
        Iupdate(i);
        inode := {IBlock(sb, i)};
      }
    }

    /**
     One iteration of the copying loop: the piece of `src` from `tot` that fits the current block,
     which was `missing` if it had to be allocated.
     */
    method WritePiece(i: nat, src: seq<byte>, off: nat, tot: nat, ghost d: Disk, ghost t: Table)
        returns (ok: bool, m: nat, ghost a: nat, ghost maps: set<nat>, ghost missing: bool)
      requires Copying(sb, d, t, disk, inodes, owner, i, off, src, tot) && NoHoles(d, t, i) && tot < |src|
      requires off <= t[i].size <= MAXFILE * BSIZE && off + |src| <= MAXFILE * BSIZE
      requires tot == 0 || (off + tot) % BSIZE == 0
      requires tot == 0 ==> disk == d && inodes == t
      modifies this
      ensures ok ==> Copying(sb, d, t, disk, inodes, owner, i, off, src, tot + m) && |inodes| == |t|
      ensures 0 < m <= |src| - tot && (tot + m < |src| ==> (off + tot + m) % BSIZE == 0)
      ensures Span(off, tot + m) == Span(off, tot) + 1
      ensures ok ==> logged <= old(logged) + maps + {a} + Indirect(inodes[i]) && Indirect(old(inodes)[i]) <= Indirect(inodes[i])
      ensures ok ==> |maps| <= (if missing then 1 else 0)
                               + (if inodes[i].addrs[NDIRECT] == old(inodes)[i].addrs[NDIRECT] then 0 else 1)
      ensures ok && old(inodes)[i].addrs[NDIRECT] != 0 ==> inodes[i].addrs[NDIRECT] == old(inodes)[i].addrs[NDIRECT]
      ensures tot == 0 && off % BSIZE != 0 ==> !missing
      ensures off + tot < Capacity(t[i].size) ==> ok
      ensures !ok ==> DiskFull(sb, disk)
      ensures if ok then Got(old(owner), owner, i, Touched(off + tot, m))
              else Stuck(sb, old(owner), owner, i, Touched(off + tot, m))
      ensures base == old(base) && (old(Confined()) ==> Confined())
    {
      hide NoHoles, Copying, Owned, FileBlock, Span, Mapped, PieceSize, DiskFull, Indirect, Capacity, WithPiece, Fits,
           Got, Stuck, Touched, Slots, ConfinedTo;
      CopyingFacts(sb, d, t, disk, inodes, owner, i, off, src, tot);
      var o := off + tot;
      m := PieceSize(o, |src| - tot);
      NextPiece(d, t, disk, inodes, i, off, tot, |src|, m);
      TouchedPiece(o, m);
      missing := !FileBlock(disk, inodes, i, o / BSIZE).Some?;
      var b;
      ok, b, maps := Bmap(i, o / BSIZE);
      a := b;
      if ok {
        CopiedPiece(sb, d, t, old(disk), old(inodes), old(owner), disk, inodes, owner, i, b, off, src, tot, m);
        LogWrite(b, WithPiece(disk[b], o, src[tot..tot + m]));
      }
    }

    /** The copying loop of writei. */
    method WriteBlocks(i: nat, src: seq<byte>, off: nat) returns (ok: bool, ghost data: set<nat>, ghost maps: set<nat>)
      requires Good() && i < |inodes| && NoHoles(disk, inodes, i)
      requires off <= inodes[i].size <= MAXFILE * BSIZE && off + |src| <= MAXFILE * BSIZE
      modifies this
      ensures ok ==> Copying(sb, old(disk), old(inodes), disk, inodes, owner, i, off, src, |src|)
      ensures ok && |src| == 0 ==> logged == old(logged) && inodes == old(inodes)
      ensures ok ==> logged <= old(logged) + data + maps + Indirect(inodes[i])
      ensures ok && |src| > 0 ==> |data| <= Span(off, |src|)
      ensures ok && |src| > 0 ==> |maps| <= Span(off, |src|) - (if off % BSIZE == 0 then 0 else 1) + 1
      ensures off + |src| <= Capacity(old(inodes)[i].size) ==> ok
      ensures !ok ==> DiskFull(sb, disk)
      ensures if ok then Got(old(owner), owner, i, Touched(off, |src|)) else Stuck(sb, old(owner), owner, i, Touched(off, |src|))
      ensures base == old(base) && (old(Confined()) ==> Confined())
    {
      hide Copying, NoHoles, Span, DiskFull, Accounted, Indirect, Owned, Capacity, Got, Stuck, Touched, ConfinedTo;
      TouchedNone(owner, i, off);
      CopyingStart(sb, disk, inodes, owner, i, off, src);
      var tot := 0;
      data, maps := {}, {};
      ghost var d, t, added, grown := disk, inodes, 0, false;
      AccountStart(logged, Indirect(inodes[i]), off);
      while tot < |src|
        invariant 0 <= tot <= |src| && |inodes| == |t| && 0 <= added
        invariant Copying(sb, d, t, disk, inodes, owner, i, off, src, tot)
        invariant tot == 0 ==> logged == old(logged) && inodes == t && disk == d
        invariant tot < |src| ==> tot == 0 || (off + tot) % BSIZE == 0
        invariant grown == (inodes[i].addrs[NDIRECT] != t[i].addrs[NDIRECT]) && (grown ==> t[i].addrs[NDIRECT] == 0)
        invariant Accounted(old(logged), logged, data, maps, Indirect(inodes[i]), added, grown, off, tot)
        invariant Got(old(owner), owner, i, Touched(off, tot)) && base == old(base) && (old(Confined()) ==> Confined())
      {
        ghost var l, n, o := logged, inodes[i], owner;
        var m;
        ghost var a, more, missing;
        ok, m, a, more, missing := WritePiece(i, src, off, tot, d, t);
        if !ok {
          StuckInside(sb, old(owner), o, owner, i, off, tot, m, |src|);
          return;
        }
        GotMore(old(owner), o, owner, i, off, tot, m);
        ghost var grown' := inodes[i].addrs[NDIRECT] != t[i].addrs[NDIRECT];
        AccountStep(old(logged), l, data, maps, Indirect(n), added, grown, off, tot,
                    logged, a, more, Indirect(inodes[i]), missing, grown', m);
        data, maps, added, grown := data + {a}, maps + more, added + (if missing then 1 else 0), grown';
        tot := tot + m;
      }
      AccountEnd(old(logged), logged, data, maps, Indirect(inodes[i]), added, grown, off, tot);
      return true, data, maps;
    }

    /** The direct half of itrunc. */
    method FreeDirect(i: nat) returns (ghost gone: set<nat>)
      requires Good() && i < |inodes|
      modifies this
      ensures Dropped(sb, old(disk), old(inodes), old(owner), disk, inodes, owner, i, gone)
      ensures forall x :: 0 <= x < NDIRECT ==> inodes[i].addrs[x] == 0
      ensures inodes[i].addrs[NDIRECT] == old(inodes)[i].addrs[NDIRECT]
    {
      gone := {};
      ghost var d, t, o := disk, inodes, owner;
      DroppedNone(sb, d, t, o, i);
      hide Dropped;
      for x := 0 to NDIRECT
        invariant |inodes| == |t|
        invariant Dropped(sb, d, t, o, disk, inodes, owner, i, gone)
        invariant forall y :: 0 <= y < x ==> inodes[i].addrs[y] == 0
        invariant forall y :: x <= y <= NDIRECT ==> inodes[i].addrs[y] == t[i].addrs[y]
      {
        gone := FreeAddr(i, x, d, t, o, gone);
      }
    }

    method FreeAddr(i: nat, x: nat, ghost d: Disk, ghost t: Table, ghost o: Owner,
                    ghost was: set<nat>) returns (ghost gone: set<nat>)
      requires Dropped(sb, d, t, o, disk, inodes, owner, i, was) && x < NDIRECT
      modifies this
      ensures Dropped(sb, d, t, o, disk, inodes, owner, i, gone) && |inodes| == |old(inodes)|
      ensures inodes[i].addrs[x] == 0
      ensures forall y :: 0 <= y <= NDIRECT && y != x ==> inodes[i].addrs[y] == old(inodes)[i].addrs[y]
    {
      hide Owned, Bit, Flip, OwnedBy, Ptr;
      gone := was;
      var b := inodes[i].addrs[x];
      if b != 0 {
        DropAddr(sb, d, t, o, disk, inodes, owner, i, gone, x);
        var ok := Bfree(b);
        inodes := SetAddr(inodes, i, x, 0);
        owner := owner - {b};
        gone := gone + {b};
      }
    }

    /** The indirect half of itrunc: the entries, then the indirect block itself. */
    method FreeIndirect(i: nat) returns (ghost gone: set<nat>)
      requires Good() && i < |inodes| && inodes[i].addrs[NDIRECT] != 0
      modifies this
      ensures Dropped(sb, old(disk), old(inodes), old(owner), disk, inodes, owner, i, gone)
      ensures inodes == SetAddr(old(inodes), i, NDIRECT, 0)
    {
      ghost var d, t, o := disk, inodes, owner;
      var a := inodes[i].addrs[NDIRECT];
      DetachIndirect(sb, d, t, o, i);
      var b := disk[a];
      gone := {a} + Entries(b, 0);
      ghost var v := SetAddr(inodes, i, NDIRECT, 0);
      hide Owned, Ptr, Bit, Flip, Entries, OwnedBy;
      for j := 0 to NINDIRECT
        invariant inodes == t && owner == o
        invariant Freeing(sb, d, v, o - gone, disk, {a} + Entries(b, j))
      {
        EntriesStep(sb, d, t, o, i, b, j);
        if Word(b, j) != 0 {
          FreeingStep(sb, d, v, o - gone, disk, {a} + Entries(b, j), Word(b, j));
          var ok := Bfree(Word(b, j));
          assert {a} + Entries(b, j) - {Word(b, j)} == {a} + Entries(b, j + 1);
        } else {
          assert {a} + Entries(b, j) == {a} + Entries(b, j + 1);
        }
      }
      NoEntries(b);
      FreeingStep(sb, d, v, o - gone, disk, {a} + Entries(b, NINDIRECT), a);
      var ok := Bfree(a);
      assert {a} + Entries(b, NINDIRECT) - {a} == {};
      FreedIndirect(sb, d, t, o, disk, i, gone);
      inodes := SetAddr(inodes, i, NDIRECT, 0);
      owner := owner - gone;
    }

    /**
     itrunc: the inode is empty, in memory and on disk; exactly the blocks that it owned are free
     again; no other file changes; and no call of bfree meets a block that is free already.
     */
    method Itrunc(i: nat)
      requires Inv() && i < |inodes|
      modifies this
      ensures Inv()
      ensures inodes == old(inodes)[i := old(inodes)[i].(size := 0, addrs := seq(NDIRECT + 1, _ => 0))]
      ensures owner == old(owner) - OwnedBy(old(owner), i)
      ensures forall b :: 0 <= b < sb.size ==> Bit(sb, disk, b) == (Bit(sb, old(disk), b) && b !in OwnedBy(old(owner), i))
      ensures forall j :: 0 <= j < |inodes| && j != i ==> Content(disk, inodes, j) == Content(old(disk), old(inodes), j)
      ensures Content(disk, inodes, i) == []
    {
      ghost var d, t, o := disk, inodes, owner;
      ghost var gone := FreeDirect(i);
      if inodes[i].addrs[NDIRECT] != 0 {
        ghost var e, u, p := disk, inodes, owner;
        ghost var more := FreeIndirect(i);
        DroppedTwice(sb, d, t, o, e, u, p, disk, inodes, owner, i, gone, more);
        gone := gone + more;
      }
      DroppedAll(sb, d, t, o, disk, inodes, owner, i, gone);
      DroppedOthers(sb, d, t, o, disk, inodes, owner, i, gone);
      ghost var e, u := disk, inodes;
      SizeOnly(sb, disk, inodes, owner, i, 0);
      inodes := inodes[i := inodes[i].(size := 0)];
      Iupdate(i);
      TruncatedInode(sb, d, t, e, u, disk, inodes, i);
      Truncated(d, t, e, u, disk, inodes, i);
    }
  }
}
