/**
 Which inode owns which disk block.

 Every inode has NSLOT pointer slots: the direct addresses 0..11, the indirect address 12, and
 the entries of the indirect block from 13 on.  `Owned` says that the free bit map marks exactly
 the blocks reached by the slots, each by one slot, apart from the metadata and from `pending`
 blocks that an operation has allocated but not linked yet or unlinked but not freed yet.
 */
module BlockMap {
  import opened FsLayout

  const NSLOT := NDIRECT + 1 + NINDIRECT

  type Table = seq<Inode>

  /** The slot that holds each allocated data block. */
  type Owner = map<nat, (nat, nat)>

  /** The pointer in slot `x` of inode `i`; 0 means none. */
  function Ptr(d: Disk, t: Table, i: nat, x: nat): uint32
    requires i < |t| && x < NSLOT
  {
    var n := t[i];
    if x <= NDIRECT then n.addrs[x]
    else if n.addrs[NDIRECT] == 0 || n.addrs[NDIRECT] >= |d| then 0
    else Word(d[n.addrs[NDIRECT]], x - NDIRECT - 1)
  }

  /** The slot of block `bn` of a file. */
  function Slot(bn: nat): (x: nat)
    requires bn < MAXFILE
    ensures x < NSLOT && x != NDIRECT
  {
    if bn < NDIRECT then bn else bn + 1
  }

  ghost predicate Owned(sb: Super, d: Disk, t: Table, owner: Owner, pending: set<nat>) {
    && ValidSuper(sb, d) && |t| == sb.ninodes
    && (forall i, x :: 0 <= i < |t| && 0 <= x < NSLOT && Ptr(d, t, i, x) != 0 ==>
          Ptr(d, t, i, x) in owner && owner[Ptr(d, t, i, x)] == (i, x))
    && (forall b :: b in owner ==>
          && DataStart(sb) <= b < sb.size && owner[b].0 < |t| && owner[b].1 < NSLOT
          && Ptr(d, t, owner[b].0, owner[b].1) == b)
    && (forall b :: b in pending ==> DataStart(sb) <= b < sb.size && b !in owner)
    && (forall b :: 0 <= b < sb.size ==> Bit(sb, d, b) == (b < DataStart(sb) || b in owner || b in pending))
  }

  /** The bit map read off the slots: the same statement without the ghost inverse. */
  lemma BitsAreOwnership(sb: Super, d: Disk, t: Table, owner: Owner)
    requires Owned(sb, d, t, owner, {})
    ensures forall b :: DataStart(sb) <= b < sb.size ==>
              (Bit(sb, d, b) <==> exists i, x :: 0 <= i < |t| && 0 <= x < NSLOT && Ptr(d, t, i, x) == b)
    ensures forall i, x, j, y ::
              (0 <= i < |t| && 0 <= x < NSLOT && 0 <= j < |t| && 0 <= y < NSLOT
               && Ptr(d, t, i, x) == Ptr(d, t, j, y) != 0) ==> i == j && x == y
    ensures forall b :: 0 <= b < DataStart(sb) ==> Bit(sb, d, b)
    ensures forall i, x :: 0 <= i < |t| && 0 <= x < NSLOT && Ptr(d, t, i, x) != 0 ==>
              DataStart(sb) <= Ptr(d, t, i, x) < sb.size
  {
  }

  // ---------- one disk or inode update at a time ----------

  /** Two disks that agree on the bit map and on every indirect block. */
  ghost predicate SameMap(sb: Super, d: Disk, e: Disk, t: Table)
    requires ValidSuper(sb, d) && ValidSuper(sb, e)
  {
    && (forall b :: 0 <= b < sb.size ==> Bit(sb, e, b) == Bit(sb, d, b))
    && (forall i :: 0 <= i < |t| && 0 < t[i].addrs[NDIRECT] < |d| ==> e[t[i].addrs[NDIRECT]] == d[t[i].addrs[NDIRECT]])
  }

  lemma SameMapOwned(sb: Super, d: Disk, e: Disk, t: Table, owner: Owner, pending: set<nat>)
    requires Owned(sb, d, t, owner, pending) && ValidSuper(sb, e) && SameMap(sb, d, e, t)
    ensures Owned(sb, e, t, owner, pending)
    ensures forall i, x :: 0 <= i < |t| && 0 <= x < NSLOT ==> Ptr(e, t, i, x) == Ptr(d, t, i, x)
  {
    assert forall i, x :: 0 <= i < |t| && 0 <= x < NSLOT ==> Ptr(e, t, i, x) == Ptr(d, t, i, x);
  }

  /** An indirect block is owned, by slot 12 of its inode. */
  lemma IndirectOwned(sb: Super, d: Disk, t: Table, owner: Owner, pending: set<nat>, i: nat)
    requires Owned(sb, d, t, owner, pending) && i < |t|
    ensures t[i].addrs[NDIRECT] != 0 ==> t[i].addrs[NDIRECT] in owner && owner[t[i].addrs[NDIRECT]] == (i, NDIRECT)
    ensures t[i].addrs[NDIRECT] != 0 ==> DataStart(sb) <= t[i].addrs[NDIRECT] < sb.size
  {
  }

  /** Writing a block that is not metadata and not an indirect block. */
  lemma DataWrite(sb: Super, d: Disk, t: Table, owner: Owner, pending: set<nat>, b: nat, data: Block)
    requires Owned(sb, d, t, owner, pending) && DataStart(sb) <= b < sb.size
    requires b in owner ==> owner[b].1 != NDIRECT
    ensures Owned(sb, d[b := data], t, owner, pending)
    ensures forall i, x :: 0 <= i < |t| && 0 <= x < NSLOT ==> Ptr(d[b := data], t, i, x) == Ptr(d, t, i, x)
  {
    forall i | 0 <= i < |t| && 0 < t[i].addrs[NDIRECT] < |d| ensures t[i].addrs[NDIRECT] != b {
      IndirectOwned(sb, d, t, owner, pending, i);
    }
    BitsFrame(sb, d, d[b := data]);
    SameMapOwned(sb, d, d[b := data], t, owner, pending);
  }

  /** iupdate leaves the map alone. */
  lemma InodeWrite(sb: Super, d: Disk, t: Table, owner: Owner, pending: set<nat>, i: nat, n: Inode)
    requires Owned(sb, d, t, owner, pending) && i < sb.ninodes
    ensures Owned(sb, PutInode(sb, d, i, n), t, owner, pending)
    ensures forall j, x :: 0 <= j < |t| && 0 <= x < NSLOT ==> Ptr(PutInode(sb, d, i, n), t, j, x) == Ptr(d, t, j, x)
  {
    forall j | 0 <= j < |t| && 0 < t[j].addrs[NDIRECT] < |d| ensures t[j].addrs[NDIRECT] >= DataStart(sb) {
      IndirectOwned(sb, d, t, owner, pending, j);
    }
    Regions(sb, d, i, 0);
    var e := PutInode(sb, d, i, n);
    BitsFrame(sb, d, e);
    SameMapOwned(sb, d, e, t, owner, pending);
  }

  /** balloc: a free block becomes pending and holds zeroes. */
  lemma Alloc(sb: Super, d: Disk, t: Table, owner: Owner, pending: set<nat>, b: nat)
    requires Owned(sb, d, t, owner, pending) && b < sb.size && !Bit(sb, d, b)
    ensures var e := Flip(sb, d, b)[b := ZeroBlock()];
            && DataStart(sb) <= b && b !in owner && b !in pending
            && Owned(sb, e, t, owner, pending + {b})
            && (forall i, x :: 0 <= i < |t| && 0 <= x < NSLOT ==> Ptr(e, t, i, x) == Ptr(d, t, i, x))
  {
    var f := Flip(sb, d, b);
    forall i | 0 <= i < |t| && 0 < t[i].addrs[NDIRECT] < |d| ensures f[t[i].addrs[NDIRECT]] == d[t[i].addrs[NDIRECT]] {
      IndirectOwned(sb, d, t, owner, pending, i);
    }
    assert forall i, x :: 0 <= i < |t| && 0 <= x < NSLOT ==> Ptr(f, t, i, x) == Ptr(d, t, i, x);
    assert Owned(sb, f, t, owner, pending + {b});
    DataWrite(sb, f, t, owner, pending + {b}, b, ZeroBlock());
  }

  /** bfree: a pending block becomes free. */
  lemma Free(sb: Super, d: Disk, t: Table, owner: Owner, pending: set<nat>, b: nat)
    requires Owned(sb, d, t, owner, pending) && b in pending
    ensures Bit(sb, d, b)
    ensures Owned(sb, Flip(sb, d, b), t, owner, pending - {b})
    ensures forall i, x :: 0 <= i < |t| && 0 <= x < NSLOT ==> Ptr(Flip(sb, d, b), t, i, x) == Ptr(d, t, i, x)
  {
    FlipKeepsPtrs(sb, d, t, owner, pending, b);
    hide Ptr, Bit, Flip;
  }

  lemma FlipKeepsPtrs(sb: Super, d: Disk, t: Table, owner: Owner, pending: set<nat>, b: nat)
    requires Owned(sb, d, t, owner, pending) && b < sb.size
    ensures forall i, x :: 0 <= i < |t| && 0 <= x < NSLOT ==> Ptr(Flip(sb, d, b), t, i, x) == Ptr(d, t, i, x)
  {
    var f := Flip(sb, d, b);
    forall i | 0 <= i < |t| && 0 < t[i].addrs[NDIRECT] < |d| ensures f[t[i].addrs[NDIRECT]] == d[t[i].addrs[NDIRECT]] {
      IndirectOwned(sb, d, t, owner, pending, i);
    }
  }

  function SetAddr(t: Table, i: nat, x: nat, b: uint32): (r: Table)
    requires i < |t| && x <= NDIRECT
    ensures |r| == |t|
  {
    t[i := t[i].(addrs := t[i].addrs[x := b])]
  }

  /** Storing a pending block in an empty address of an inode. */
  lemma LinkAddr(sb: Super, d: Disk, t: Table, owner: Owner, pending: set<nat>, i: nat, x: nat, b: nat)
    requires Owned(sb, d, t, owner, pending) && i < |t| && x <= NDIRECT
    requires t[i].addrs[x] == 0 && b in pending && (x == NDIRECT ==> d[b] == ZeroBlock())
    ensures Owned(sb, d, SetAddr(t, i, x, b), owner[b := (i, x)], pending - {b})
    ensures forall j, y :: 0 <= j < |t| && 0 <= y < NSLOT ==>
              Ptr(d, SetAddr(t, i, x, b), j, y) == if j == i && y == x then b else Ptr(d, t, j, y)
  {
    var t' := SetAddr(t, i, x, b);
    forall j, y | 0 <= j < |t| && 0 <= y < NSLOT
      ensures Ptr(d, t', j, y) == if j == i && y == x then b else Ptr(d, t, j, y)
    {
      if j == i && x == NDIRECT < y {
        ZeroWord(y - NDIRECT - 1);
      }
    }
    LinkOwned(sb, d, t, d, t', owner, pending, i, x, b);
  }

  lemma ZeroWord(j: nat)
    requires j < NINDIRECT
    ensures Word(ZeroBlock(), j) == 0
  {
  }

  /** Storing a pending block in an empty entry of an indirect block. */
  lemma LinkEntry(sb: Super, d: Disk, t: Table, owner: Owner, pending: set<nat>, i: nat, k: nat, b: nat)
    requires Owned(sb, d, t, owner, pending) && i < |t| && k < NINDIRECT
    requires 0 < t[i].addrs[NDIRECT] < |d| && Word(d[t[i].addrs[NDIRECT]], k) == 0 && b in pending
    ensures var a := t[i].addrs[NDIRECT];
            var e := d[a := SetWord(d[a], k, b)];
            && Owned(sb, e, t, owner[b := (i, k + NDIRECT + 1)], pending - {b})
            && (forall j, y :: 0 <= j < |t| && 0 <= y < NSLOT ==>
                  Ptr(e, t, j, y) == if j == i && y == k + NDIRECT + 1 then b else Ptr(d, t, j, y))
  {
    var a := t[i].addrs[NDIRECT];
    var e := d[a := SetWord(d[a], k, b)];
    IndirectOwned(sb, d, t, owner, pending, i);
    forall j, y | 0 <= j < |t| && 0 <= y < NSLOT
      ensures Ptr(e, t, j, y) == if j == i && y == k + NDIRECT + 1 then b else Ptr(d, t, j, y)
    {
      IndirectOwned(sb, d, t, owner, pending, j);
    }
    BitsFrame(sb, d, e);
    LinkOwned(sb, d, t, e, t, owner, pending, i, k + NDIRECT + 1, b);
  }

  lemma LinkOwned(sb: Super, d: Disk, t: Table, e: Disk, t': Table, owner: Owner, pending: set<nat>, i: nat, x: nat, b: nat)
    requires Owned(sb, d, t, owner, pending) && ValidSuper(sb, e) && |t'| == |t|
    requires i < |t| && x < NSLOT && Ptr(d, t, i, x) == 0 && b in pending
    requires forall c :: 0 <= c < sb.size ==> Bit(sb, e, c) == Bit(sb, d, c)
    requires forall j, y :: 0 <= j < |t| && 0 <= y < NSLOT ==>
               Ptr(e, t', j, y) == if j == i && y == x then b else Ptr(d, t, j, y)
    ensures Owned(sb, e, t', owner[b := (i, x)], pending - {b})
  {
    hide Ptr, Bit, ValidSuper;
    var owner' := owner[b := (i, x)];
    forall j, y | 0 <= j < |t'| && 0 <= y < NSLOT && Ptr(e, t', j, y) != 0
      ensures Ptr(e, t', j, y) in owner' && owner'[Ptr(e, t', j, y)] == (j, y)
    {
      if !(j == i && y == x) {
        assert Ptr(d, t, j, y) in owner;
      }
    }
    forall c | c in owner'
      ensures DataStart(sb) <= c < sb.size && owner'[c].0 < |t'| && owner'[c].1 < NSLOT
      ensures Ptr(e, t', owner'[c].0, owner'[c].1) == c
    {
      if c != b {
        assert Ptr(d, t, owner[c].0, owner[c].1) == c != 0;
      }
    }
  }

  /** Clearing slots: the blocks that they held become pending. */
  lemma Unlink(sb: Super, d: Disk, t: Table, t': Table, owner: Owner, pending: set<nat>, gone: set<nat>)
    requires Owned(sb, d, t, owner, pending) && |t'| == |t| && gone <= owner.Keys
    requires forall j, y :: 0 <= j < |t| && 0 <= y < NSLOT ==>
               Ptr(d, t', j, y) == if Ptr(d, t, j, y) in gone then 0 else Ptr(d, t, j, y)
    ensures Owned(sb, d, t', owner - gone, pending + gone)
  {
  }
}
