/**
 The buffer cache of bio.c: a doubly linked ring of buffers in most-recent-release order, in front
 of a disk of blocks.

 Each method is one critical section under bcache.lock or under the sleep lock of one buffer, so
 that any interleaving of processes is some sequence of calls.  `logical` is the content that the
 file system has last given to each block; processes are numbered from 1.
 */
module BufferCache {

  type Block = seq<int>

  /** A block is named by its device and its number. */
  type Key = (nat, nat)

  class Buf {
    var dev: nat
    var blockno: nat
    var valid: bool
    var dirty: bool
    var refcnt: nat
    var holder: nat            // the process that holds the sleep lock, 0 if none
    var data: Block
    var prev: Buf?
    var next: Buf?
    ghost var claims: multiset<nat>  // the processes that refcnt counts
    ghost var stamp: nat             // when the buffer was last released

    constructor ()
      ensures dev == 0 && blockno == 0 && !valid && !dirty && refcnt == 0 && holder == 0 && claims == multiset{}
    {
      dev, blockno, valid, dirty, refcnt, holder, data := 0, 0, false, false, 0, 0, [];
      prev, next, claims, stamp := null, null, multiset{}, 0;
    }

    function Key(): Key
      reads this
    {
      (dev, blockno)
    }

    /** The state apart from the list pointers and the time stamp. */
    ghost function View(): Entry
      reads this
    {
      Entry(Key(), valid, dirty, refcnt, holder, data, claims)
    }
  }

  /** A buffer as a value. */
  datatype Entry = Entry(key: Key, valid: bool, dirty: bool, refcnt: nat, holder: nat, data: Block, claims: multiset<nat>)

  // ---------- rings ----------

  function Elems(r: seq<Buf>): set<Buf> {
    set x | x in r
  }

  ghost predicate Distinct(r: seq<Buf>) {
    forall i, j :: 0 <= i < j < |r| ==> r[i] != r[j]
  }

  /** The prev and next pointers run around `r` in this order. */
  ghost predicate Ring(r: seq<Buf>)
    reads r
  {
    && |r| > 0 && Distinct(r)
    && (forall i {:trigger r[i].next} :: 0 <= i < |r| - 1 ==> r[i].next == r[i + 1])
    && r[|r| - 1].next == r[0]
    && (forall i {:trigger r[i].prev} :: 1 <= i < |r| ==> r[i].prev == r[i - 1])
    && r[0].prev == r[|r| - 1]
  }

  ghost predicate SameBufs(o: seq<Buf>, all: seq<Buf>) {
    |o| == |all| && (forall b :: b in o ==> b in all) && (forall b :: b in all ==> b in o)
  }

  ghost predicate Decreasing(s: seq<nat>) {
    forall i, j :: 0 <= i < j < |s| ==> s[i] > s[j]
  }

  ghost function Stamps(r: seq<Buf>): (s: seq<nat>)
    reads r
    ensures |s| == |r|
  {
    seq(|r|, i requires 0 <= i < |r| reads r => r[i].stamp)
  }

  lemma DecreasingMoved(s: seq<nat>, k: nat, c: nat)
    requires Decreasing(s) && k < |s| && forall i :: 0 <= i < |s| ==> s[i] < c
    ensures Decreasing([c] + s[..k] + s[k + 1..])
  {
  }

  ghost function Without(r: seq<Buf>, k: nat): seq<Buf>
    requires k < |r|
  {
    r[..k] + r[k + 1..]
  }

  method Unlink(b: Buf, ghost r: seq<Buf>, ghost k: nat)
    requires Ring(r) && 1 <= k < |r| && r[k] == b
    modifies Elems(r)`next, Elems(r)`prev
    ensures Ring(Without(r, k))
    ensures forall x :: x in r && x != b ==>
            (x.next == old(x.next) || old(x.next) == b) && (x.prev == old(x.prev) || old(x.prev) == b)
  {
    b.next.prev := b.prev;
    b.prev.next := b.next;
  }

  method PushFront(head: Buf, b: Buf, ghost r: seq<Buf>)
    requires Ring(r) && r[0] == head && b !in r
    modifies Elems(r)`next, Elems(r)`prev, b`next, b`prev
    ensures Ring([head, b] + r[1..])
  {
    b.next := head.next;
    b.prev := head;
    head.next.prev := b;
    head.next := b;
  }

  twostate lemma RingSame(r: seq<Buf>)
    requires old(Ring(r)) && forall x :: x in r ==> x.next == old(x.next) && x.prev == old(x.prev)
    ensures Ring(r)
  {
  }

  ghost function Reverse(s: seq<Buf>): (r: seq<Buf>)
    ensures |r| == |s|
  {
    if s == [] then [] else [s[|s| - 1]] + Reverse(s[..|s| - 1])
  }

  lemma {:induction false} ReverseAt(s: seq<Buf>, j: nat)
    requires j < |s|
    ensures Reverse(s)[j] == s[|s| - 1 - j]
  {
    if j > 0 {
      ReverseAt(s[..|s| - 1], j - 1);
    }
  }

  lemma ReverseMore(s: seq<Buf>, i: nat)
    requires i < |s| && Distinct(s)
    ensures Reverse(s[..i + 1]) == [s[i]] + Reverse(s[..i]) && s[i] !in s[..i]
  {
    assert s[..i + 1][..i] == s[..i];
  }

  lemma WithoutInRing(head: Buf, o: seq<Buf>, k: nat)
    requires k < |o|
    ensures Without([head] + o, k + 1)[1..] == Without(o, k)
    ensures [head, o[k]] + Without(o, k) == [head] + ([o[k]] + Without(o, k))
  {
  }

  lemma FrontOfRing(head: Buf, b: Buf, o: seq<Buf>)
    ensures ([head] + o)[1..] == o && [head, b] + o == [head] + ([b] + o)
  {
  }

  /** The list part of brelse: out of its place and in behind the head. */
  method Move(head: Buf, b: Buf, ghost r: seq<Buf>, ghost k: nat)
    requires Ring(r) && r[0] == head && 1 <= k < |r| && r[k] == b
    modifies Elems(r)`next, Elems(r)`prev
    ensures Ring([head, b] + Without(r, k)[1..])
  {
    ghost var rest := Without(r, k);
    assert forall x :: x in rest ==> x in r;
    assert b !in rest;
    Unlink(b, r, k);
    PushFront(head, b, rest);
  }

  // ---------- coherence ----------

  /** What holds of each buffer, given the disk and the logical contents. */
  ghost predicate EntryOk(v: Entry, disk: map<Key, Block>, logical: map<Key, Block>) {
    && v.refcnt == |v.claims| && 0 !in v.claims && (v.holder != 0 ==> v.holder in v.claims)
    && (v.dirty ==> v.valid)
    && (v.valid && v.key.0 != 0 ==> v.key in disk && v.key in logical && v.data == logical[v.key])
    && (v.valid && v.key.0 != 0 && !v.dirty && v.holder == 0 ==> v.data == disk[v.key])
  }

  /** Some buffer has read block `k`. */
  ghost predicate IsCached(vs: seq<Entry>, k: Key) {
    exists i :: 0 <= i < |vs| && vs[i].key == k && vs[i].valid
  }

  /** No block is cached twice, cached contents are the logical ones, and uncached blocks are up to date on disk. */
  ghost predicate Coherent(vs: seq<Entry>, disk: map<Key, Block>, logical: map<Key, Block>) {
    && logical.Keys == disk.Keys
    && (forall i :: 0 <= i < |vs| ==> EntryOk(vs[i], disk, logical))
    && (forall i, j :: 0 <= i < j < |vs| && vs[i].key == vs[j].key ==> vs[i].key.0 == 0)
    && (forall k :: k in disk && k.0 != 0 && !IsCached(vs, k) ==> logical[k] == disk[k])
  }

  /** Changing one buffer and possibly the content of its block, on disk or logically. */
  lemma CoherentStep(vs: seq<Entry>, disk: map<Key, Block>, logical: map<Key, Block>, i: nat, v: Entry,
                     disk': map<Key, Block>, logical': map<Key, Block>)
    requires Coherent(vs, disk, logical) && i < |vs| && v.key == vs[i].key
    requires v.valid || v.valid == vs[i].valid
    requires disk'.Keys == disk.Keys && logical'.Keys == logical.Keys
    requires forall k :: k in disk && k != v.key ==> disk'[k] == disk[k] && logical'[k] == logical[k]
    requires (disk' == disk && logical' == logical) || (v.key.0 != 0 && v.valid)
    requires EntryOk(v, disk', logical')
    ensures Coherent(vs[i := v], disk', logical')
  {
    var ws := vs[i := v];
    forall k | k in disk' && k.0 != 0 && !IsCached(ws, k) ensures logical'[k] == disk'[k] {
      StillCached(vs, i, v, k);
      assert k == v.key ==> ws[i].key == k;
    }
    forall j | 0 <= j < |ws| ensures EntryOk(ws[j], disk', logical') {
      if j != i {
        assert vs[j].key == v.key ==> v.key.0 == 0;
      }
    }
  }

  lemma InitialCoherent(vs: seq<Entry>, disk: map<Key, Block>)
    requires forall i :: 0 <= i < |vs| ==> vs[i] == Entry((0, 0), false, false, 0, 0, vs[i].data, multiset{})
    ensures Coherent(vs, disk, disk)
  {
  }

  lemma DropClaim(v: Entry, disk: map<Key, Block>, logical: map<Key, Block>, pid: nat)
    requires EntryOk(v, disk, logical) && pid in v.claims && v.holder != pid
    ensures v.refcnt > 0 && EntryOk(v.(refcnt := v.refcnt - 1, claims := v.claims - multiset{pid}), disk, logical)
  {
  }

  lemma EntryAt(vs: seq<Entry>, disk: map<Key, Block>, logical: map<Key, Block>, i: nat)
    requires Coherent(vs, disk, logical) && i < |vs|
    ensures EntryOk(vs[i], disk, logical)
  {
  }

  lemma SameKeys(vs: seq<Entry>, disk: map<Key, Block>, logical: map<Key, Block>)
    requires Coherent(vs, disk, logical)
    ensures logical.Keys == disk.Keys
  {
  }

  /** A block whose only buffer has not been read is up to date on disk. */
  lemma UncachedOnDisk(vs: seq<Entry>, disk: map<Key, Block>, logical: map<Key, Block>, i: nat)
    requires Coherent(vs, disk, logical) && i < |vs| && !vs[i].valid && vs[i].key in disk && vs[i].key.0 != 0
    ensures vs[i].key in logical && logical[vs[i].key] == disk[vs[i].key]
  {
  }

  /** A buffer that nobody uses and that is not dirty may be given to another block. */
  lemma TakeOverCoherent(vs: seq<Entry>, disk: map<Key, Block>, logical: map<Key, Block>, i: nat, v: Entry)
    requires Coherent(vs, disk, logical) && i < |vs| && vs[i].refcnt == 0 && !vs[i].dirty
    requires forall j :: 0 <= j < |vs| ==> vs[j].key != v.key
    requires !v.valid && EntryOk(v, disk, logical)
    ensures Coherent(vs[i := v], disk, logical)
  {
    var ws := vs[i := v];
    assert vs[i].claims == multiset{};
    forall k | k in disk && k.0 != 0 && !IsCached(ws, k) ensures logical[k] == disk[k] {
      StillCached(vs, i, v, k);
      assert EntryOk(vs[i], disk, logical);
    }
  }

  /** Only the buffer that changes can stop caching a block. */
  lemma StillCached(vs: seq<Entry>, i: nat, v: Entry, k: Key)
    requires i < |vs|
    ensures IsCached(vs, k) ==> IsCached(vs[i := v], k) || (vs[i].key == k && vs[i].valid && !(v.key == k && v.valid))
  {
    if IsCached(vs, k) {
      var j :| 0 <= j < |vs| && vs[j].key == k && vs[j].valid;
      assert vs[i := v][j] == if i == j then v else vs[j];
      assert vs[i := v][i] == v;
    }
  }

  // ---------- the cache ----------

  /** `n` is `o` with `b` taken to the front. */
  ghost predicate InFront(b: Buf, o: seq<Buf>, n: seq<Buf>) {
    exists k :: 0 <= k < |o| && o[k] == b && n == [b] + Without(o, k)
  }

  class Cache {
    const head: Buf
    const bufs: seq<Buf>
    var disk: map<Key, Block>
    ghost var order: seq<Buf>  // most recently released first
    ghost var clock: nat
    ghost var logical: map<Key, Block>

    /** The ring holds every buffer once, in most-recent-release order. */
    ghost predicate RingOk()
      reads this, head, bufs, order
    {
      && head !in bufs && Distinct(bufs)
      && Ring([head] + order) && SameBufs(order, bufs)
      && Decreasing(Stamps(order)) && (forall b :: b in bufs ==> b.stamp <= clock)
    }

    ghost function Views(): (vs: seq<Entry>)
      reads this, bufs
      ensures |vs| == |bufs|
    {
      seq(|bufs|, i requires 0 <= i < |bufs| reads this, bufs => bufs[i].View())
    }

    ghost predicate Valid()
      reads this, head, bufs, order
    {
      RingOk() && Coherent(Views(), disk, logical)
    }

    /** Every buffer but `b` is as it was, apart from its list pointers. */
    twostate predicate OthersSame(b: Buf)
      reads bufs
    {
      forall x :: x in bufs && x != b ==> x.View() == old(x.View()) && x.stamp == old(x.stamp)
    }

    twostate lemma OneChanged(i: nat)
      requires i < |bufs| && Distinct(bufs) && OthersSame(bufs[i])
      ensures Views() == old(Views())[i := bufs[i].View()]
    {
    }

    /** binit: `n` buffers, each inserted at the front of the ring; all cache nothing. */
    constructor (n: nat, disk: map<Key, Block>)
      ensures Valid() && |bufs| == n && this.disk == disk == logical
      ensures fresh(head) && forall b :: b in bufs ==> fresh(b) && !b.valid && b.refcnt == 0
    {
      var h := new Buf();
      var a: seq<Buf> := [];
      for i := 0 to n
        invariant |a| == i && h !in a && Distinct(a) && fresh(h) && allocated(h)
        invariant forall b :: b in a ==> fresh(b) && b.View() == Entry((0, 0), false, false, 0, 0, b.data, multiset{})
      {
        var b := new Buf();
        a := a + [b];
      }
      head, bufs, this.disk, logical, order, clock := h, a, disk, disk, [], n;
      new;
      head.prev, head.next := head, head;
      InsertAll();
    }

    /** The loop of binit. */
    method InsertAll()
      requires order == [] && Ring([head]) && head !in bufs && Distinct(bufs) && clock == |bufs| && disk == logical
      requires forall b :: b in bufs ==> b.View() == Entry((0, 0), false, false, 0, 0, b.data, multiset{})
      modifies this`order, Elems(bufs)`next, Elems(bufs)`prev, Elems(bufs)`stamp, head`next, head`prev
      ensures Valid()
    {
      assert [head] + order == [head] && bufs[..0] == [] && order == Reverse(bufs[..0]);
      hide Ring, Reverse, Distinct, Valid;
      for i := 0 to |bufs|
        invariant Ring([head] + order) && order == Reverse(bufs[..i])
        invariant forall j :: 0 <= j < i ==> bufs[j].stamp == j + 1
        invariant forall x :: x in order ==> x in bufs[..i]
      {
        InsertInitial(i);
      }
      assert bufs[..|bufs|] == bufs;
      InitialValid();
    }

    lemma InitialValid()
      requires Ring([head] + order) && order == Reverse(bufs) && head !in bufs && Distinct(bufs)
      requires clock == |bufs| && disk == logical && forall j :: 0 <= j < |bufs| ==> bufs[j].stamp == j + 1
      requires forall b :: b in bufs ==> b.View() == Entry((0, 0), false, false, 0, 0, b.data, multiset{})
      ensures Valid()
    {
      hide Ring, Reverse, Distinct, Decreasing, Coherent;
      InitialOrder();
      InitialCoherent(Views(), disk);
    }

    lemma InitialOrder()
      requires order == Reverse(bufs) && Distinct(bufs) && forall j :: 0 <= j < |bufs| ==> bufs[j].stamp == j + 1
      ensures Decreasing(Stamps(order)) && SameBufs(order, bufs)
      ensures forall b :: b in bufs ==> b.stamp <= |bufs|
    {
      var n := |bufs|;
      forall j: nat | j < n ensures order[j] == bufs[n - 1 - j] && Stamps(order)[j] == n - j {
        ReverseAt(bufs, j);
      }
      forall b | b in bufs ensures b in order {
        var j :| 0 <= j < |bufs| && bufs[j] == b;
        assert order[n - 1 - j] == b;
      }
    }

    /** One iteration of binit. */
    method InsertInitial(i: nat)
      requires Ring([head] + order) && i < |bufs| && order == Reverse(bufs[..i]) && head !in bufs && Distinct(bufs)
      requires forall x :: x in order ==> x in bufs[..i]
      modifies this`order, Elems(bufs)`next, Elems(bufs)`prev, Elems(bufs)`stamp, head`next, head`prev
      ensures Ring([head] + order) && order == Reverse(bufs[..i + 1])
      ensures forall x :: x in order ==> x in bufs[..i + 1]
      ensures forall j :: 0 <= j < |bufs| && j != i ==> bufs[j].stamp == old(bufs[j].stamp)
      ensures bufs[i].stamp == i + 1
    {
      var b := bufs[i];
      ReverseMore(bufs, i);
      assert b in bufs;
      hide Reverse, Distinct;
      b.stamp := i + 1;
      RingSame([head] + order);
      FrontOfRing(head, b, order);
      hide Ring;
      PushFront(head, b, [head] + order);
      order := [b] + order;
    }

    /** bget's search for a cached block, from the most recently released buffer on. */
    method FindCached(dev: nat, blockno: nat) returns (b: Buf?)
      requires Valid()
      ensures b != null ==> b in bufs && b.Key() == (dev, blockno)
      ensures b == null ==> forall x :: x in bufs ==> x.Key() != (dev, blockno)
    {
      ghost var r, i := [head] + order, 1;
      b := head.next;
      while b != head
        invariant 1 <= i <= |r| && b == (if i < |r| then r[i] else head)
        invariant forall j :: 1 <= j < i ==> r[j].Key() != (dev, blockno)
        decreases |r| - i
      {
        if b.dev == dev && b.blockno == blockno {
          assert b in order;
          return;
        }
        b, i := b.next, i + 1;
      }
      forall x | x in bufs ensures x.Key() != (dev, blockno) {
        assert x in order;
        var j :| 0 <= j < |order| && order[j] == x;
        assert r[j + 1] == x;
      }
      b := null;
    }

    /** bget's search for a buffer to recycle, from the least recently released one on. */
    method FindFree() returns (b: Buf?)
      requires Valid()
      ensures b != null ==> b in bufs && b.refcnt == 0 && !b.dirty
      ensures b != null ==> forall x :: x in bufs && x.refcnt == 0 && !x.dirty ==> b.stamp <= x.stamp
      ensures b == null ==> forall x :: x in bufs ==> x.refcnt > 0 || x.dirty
    {
      ghost var r, i := [head] + order, |order|;
      b := head.prev;
      while b != head
        invariant 0 <= i < |r| && b == r[i]
        invariant forall j :: i < j < |r| ==> r[j].refcnt > 0 || r[j].dirty
        decreases i
      {
        if b.refcnt == 0 && !b.dirty {
          assert b in order;
          forall x | x in bufs && x.refcnt == 0 && !x.dirty ensures b.stamp <= x.stamp {
            assert x in order;
            var j :| 0 <= j < |order| && order[j] == x;
            assert r[j + 1] == x && b == order[i - 1];
            assert Stamps(order)[j] == x.stamp && Stamps(order)[i - 1] == b.stamp;
          }
          return;
        }
        b, i := b.prev, i - 1;
      }
      forall x | x in bufs ensures x.refcnt > 0 || x.dirty {
        assert x in order;
        var j :| 0 <= j < |order| && order[j] == x;
        assert r[j + 1] == x;
      }
      b := null;
    }

    /**
     The critical section of bget for process `pid`: the buffer of a cached block gains a claim;
     otherwise the least recently released buffer that nobody uses and that is not dirty is taken
     over.  A panic means that there is none.  No block changes its logical content.
     */
    method Bget(dev: nat, blockno: nat, pid: nat) returns (b: Buf?)
      requires Valid() && pid != 0
      modifies bufs
      ensures Valid() && order == old(order) && logical == old(logical) && disk == old(disk)
      ensures b == null <==> (forall x :: x in bufs ==> old(x.Key()) != (dev, blockno) && (old(x.refcnt) > 0 || old(x.dirty)))
      ensures b == null ==> forall x :: x in bufs ==> x.View() == old(x.View())
      ensures b != null ==> b in bufs && b.Key() == (dev, blockno) && OthersSame(b) && pid in b.claims
      ensures b != null && old(b.Key()) == (dev, blockno) ==>
                && b.claims == old(b.claims) + multiset{pid}
                && b.valid == old(b.valid) && b.dirty == old(b.dirty) && b.data == old(b.data) && b.holder == old(b.holder)
      ensures b != null && old(b.Key()) != (dev, blockno) ==>
                && old(b.refcnt) == 0 && !old(b.dirty) && !b.valid && b.claims == multiset{pid}
                && forall x :: x in bufs && old(x.refcnt) == 0 && !old(x.dirty) ==> old(b.stamp) <= old(x.stamp)
    {
      b := FindCached(dev, blockno);
      if b != null {
        Claim(b, pid);
        return;
      }
      b := FindFree();
      if b != null {
        TakeOver(b, dev, blockno, pid);
      }
    }

    /** One more process uses the buffer. */
    method Claim(b: Buf, pid: nat)
      requires Valid() && b in bufs && pid != 0
      modifies b`refcnt, b`claims
      ensures Valid() && b.claims == old(b.claims) + multiset{pid}
    {
      hide RingOk, Coherent;
      ghost var i :| 0 <= i < |bufs| && bufs[i] == b;
      EntryAt(Views(), disk, logical, i);
      RingDistinct();
      b.refcnt := b.refcnt + 1;
      b.claims := b.claims + multiset{pid};
      RingKept();
      OneChanged(i);
      CoherentStep(old(Views()), disk, logical, i, b.View(), disk, logical);
    }

    /** An unused clean buffer changes over to a block that is not cached. */
    method TakeOver(b: Buf, dev: nat, blockno: nat, pid: nat)
      requires Valid() && b in bufs && b.refcnt == 0 && !b.dirty && pid != 0
      requires forall x :: x in bufs ==> x.Key() != (dev, blockno)
      modifies b`dev, b`blockno, b`valid, b`dirty, b`refcnt, b`claims
      ensures Valid() && b.Key() == (dev, blockno) && !b.valid && !b.dirty && b.claims == multiset{pid}
    {
      hide RingOk, Coherent;
      ghost var i :| 0 <= i < |bufs| && bufs[i] == b;
      EntryAt(Views(), disk, logical, i);
      RingDistinct();
      b.dev := dev;
      b.blockno := blockno;
      b.valid, b.dirty := false, false;
      b.refcnt := 1;
      b.claims := multiset{pid};
      RingKept();
      OneChanged(i);
      TakeOverCoherent(old(Views()), disk, logical, i, b.View());
    }

    lemma RingDistinct()
      requires RingOk()
      ensures Distinct(bufs) && head !in bufs
    {
    }

    /** The ring depends on the list pointers and stamps only. */
    twostate lemma RingKept()
      requires old(RingOk()) && order == old(order) && clock == old(clock)
      requires head.next == old(head.next) && head.prev == old(head.prev)
      requires forall b :: b in bufs ==> b.next == old(b.next) && b.prev == old(b.prev) && b.stamp == old(b.stamp)
      ensures RingOk()
    {
      var r := [head] + order;
      assert forall i :: 0 <= i < |r| ==> r[i] == head || r[i] in bufs;
      RingSame(r);
      assert Stamps(order) == old(Stamps(order));
    }

    /** The part of bget after bcache.lock is released: the claimant gets the sleep lock when it is free. */
    method Acquire(b: Buf, pid: nat)
      requires Valid() && b in bufs && pid in b.claims && b.holder == 0
      modifies b`holder
      ensures Valid() && b.holder == pid
    {
      hide RingOk, Coherent;
      ghost var i :| 0 <= i < |bufs| && bufs[i] == b;
      EntryAt(Views(), disk, logical, i);
      RingDistinct();
      b.holder := pid;
      RingKept();
      OneChanged(i);
      CoherentStep(old(Views()), disk, logical, i, b.View(), disk, logical);
    }

    /**
     The rest of bread: a buffer that has not been read yet is read from disk.  In either case the
     holder now sees the last content that anyone gave to the block.
     */
    method Fill(b: Buf, pid: nat) returns (ok: bool)
      requires Valid() && b in bufs && b.holder == pid != 0 && b.dev != 0
      modifies b`valid, b`data
      ensures Valid() && (ok <==> b.Key() in disk)
      ensures ok ==> b.valid && b.data == logical[b.Key()]
      ensures !ok ==> b.View() == old(b.View())
    {
      hide RingOk, Coherent;
      ghost var i :| 0 <= i < |bufs| && bufs[i] == b;
      EntryAt(Views(), disk, logical, i);
      RingDistinct();
      if b.valid {
        return true;
      }
      if b.Key() !in disk {
        return false;
      }
      UncachedOnDisk(Views(), disk, logical, i);
      b.data := disk[b.Key()];
      b.valid := true;
      RingKept();
      OneChanged(i);
      CoherentStep(old(Views()), disk, logical, i, b.View(), disk, logical);
      return true;
    }

    /** The holder of a buffer changes its data: the only step that changes a logical content. */
    method Store(b: Buf, pid: nat, data: Block)
      requires Valid() && b in bufs && b.holder == pid != 0 && b.valid && b.dev != 0
      modifies this`logical, b`data
      ensures Valid() && b.data == data && logical == old(logical)[b.Key() := data]
    {
      hide RingOk, Coherent;
      ghost var i :| 0 <= i < |bufs| && bufs[i] == b;
      EntryAt(Views(), disk, logical, i);
      SameKeys(Views(), disk, logical);
      RingDistinct();
      b.data := data;
      logical := logical[b.Key() := data];
      RingKept();
      OneChanged(i);
      CoherentStep(old(Views()), disk, old(logical), i, b.View(), disk, logical);
    }

    /** bwrite: the data reach the disk and the buffer is clean.  A panic means that the caller does not hold it. */
    method Bwrite(b: Buf, pid: nat) returns (ok: bool)
      requires Valid() && b in bufs && pid != 0 && b.valid && b.dev != 0
      modifies this`disk, b`dirty
      ensures Valid() && (ok <==> b.holder == pid)
      ensures ok ==> disk == old(disk)[b.Key() := b.data] && !b.dirty
      ensures !ok ==> disk == old(disk) && b.dirty == old(b.dirty)
    {
      if b.holder != pid {
        return false;
      }
      hide RingOk, Coherent;
      ghost var i :| 0 <= i < |bufs| && bufs[i] == b;
      EntryAt(Views(), disk, logical, i);
      SameKeys(Views(), disk, logical);
      RingDistinct();
      disk := disk[b.Key() := b.data];
      b.dirty := false;
      RingKept();
      OneChanged(i);
      CoherentStep(old(Views()), old(disk), logical, i, b.View(), disk, logical);
      return true;
    }

    /** log_write's mark: the buffer must stay until the log has written it. */
    method Pin(b: Buf, pid: nat)
      requires Valid() && b in bufs && b.holder == pid != 0 && b.valid
      modifies b`dirty
      ensures Valid() && b.dirty
    {
      hide RingOk, Coherent;
      ghost var i :| 0 <= i < |bufs| && bufs[i] == b;
      EntryAt(Views(), disk, logical, i);
      RingDistinct();
      b.dirty := true;
      RingKept();
      OneChanged(i);
      CoherentStep(old(Views()), disk, logical, i, b.View(), disk, logical);
    }

    /**
     The first half of brelse gives up the sleep lock.  A holder that changed the data must have
     written or logged them before.  A panic means that the caller does not hold the buffer.
     */
    method Release(b: Buf, pid: nat) returns (ok: bool)
      requires Valid() && b in bufs && pid != 0
      requires b.holder == pid && b.valid && b.dev != 0 && !b.dirty ==> b.Key() in disk && b.data == disk[b.Key()]
      modifies b`holder
      ensures Valid() && (ok <==> old(b.holder) == pid)
      ensures b.holder == if ok then 0 else old(b.holder)
    {
      if b.holder != pid {
        return false;
      }
      hide RingOk, Coherent;
      ghost var i :| 0 <= i < |bufs| && bufs[i] == b;
      EntryAt(Views(), disk, logical, i);
      RingDistinct();
      b.holder := 0;
      RingKept();
      OneChanged(i);
      CoherentStep(old(Views()), disk, logical, i, b.View(), disk, logical);
      return true;
    }

    /** Takes a buffer out of the ring and inserts it behind the head, as the most recently released. */
    method MoveToFront(b: Buf)
      requires RingOk() && b in bufs
      modifies this`order, this`clock, b`stamp, Elems(bufs)`next, Elems(bufs)`prev, head`next, head`prev
      ensures RingOk()
      ensures forall x :: x in bufs && x != b ==> x.stamp == old(x.stamp)
      ensures Views() == old(Views()) && InFront(b, old(order), order)
    {
      StampsBelow();
      ghost var k := Relink(b);
      hide Ring, Distinct, Without;
      label relinked:
      clock := clock + 1;
      b.stamp := clock;
      RingSame@relinked([head] + order);
      StampsMoved(k);
      DecreasingMoved(old(Stamps(order)), k, clock);
      ViewsKept();
    }

    /** The pointer half of MoveToFront. */
    method Relink(b: Buf) returns (ghost k: nat)
      requires RingOk() && b in bufs
      modifies this`order, Elems(bufs)`next, Elems(bufs)`prev, head`next, head`prev
      ensures k < |old(order)| && old(order)[k] == b && order == [b] + Without(old(order), k)
      ensures Ring([head] + order) && SameBufs(order, bufs)
    {
      hide RingOk, Ring, Distinct, SameBufs, Without;
      k := PlaceOf(b);
      WithoutInRing(head, order, k);
      MovedOrder(order, k, bufs);
      Move(head, b, [head] + order, k + 1);
      order := [b] + Without(order, k);
    }

    lemma StampsBelow()
      requires RingOk()
      ensures forall i :: 0 <= i < |order| ==> Stamps(order)[i] <= clock
      ensures Distinct(order)
    {
      hide Decreasing;
      assert forall i :: 0 <= i < |order| ==> ([head] + order)[i + 1] == order[i];
    }

    twostate lemma StampsMoved(k: nat)
      requires k < |old(order)| && Distinct(old(order)) && order == [old(order)[k]] + Without(old(order), k)
      requires forall x :: x in old(order) && x != old(order)[k] ==> x.stamp == old(x.stamp)
      requires old(order)[k].stamp == clock
      ensures Stamps(order) == [clock] + old(Stamps(order))[..k] + old(Stamps(order))[k + 1..]
    {
    }

    lemma PlaceOf(b: Buf) returns (k: nat)
      requires RingOk() && b in bufs
      ensures k < |order| && order[k] == b && Distinct(order)
      ensures Ring([head] + order) && SameBufs(order, bufs)
      ensures forall x :: x in [head] + order ==> x == head || x in bufs
    {
      hide Decreasing;
      k :| 0 <= k < |order| && order[k] == b;
      StampsBelow();
    }

    lemma MovedOrder(o: seq<Buf>, k: nat, all: seq<Buf>)
      requires k < |o| && Distinct(o) && SameBufs(o, all)
      ensures SameBufs([o[k]] + Without(o, k), all)
    {
    }

    /** The second half of brelse drops a claim; a buffer without claims moves to the front of the ring. */
    method Put(b: Buf, pid: nat)
      requires Valid() && b in bufs && pid in b.claims && b.holder != pid
      modifies this`order, this`clock, b, Elems(bufs)`next, Elems(bufs)`prev, head`next, head`prev
      ensures Valid() && OthersSame(b)
      ensures b.claims == old(b.claims) - multiset{pid} && b.refcnt == old(b.refcnt) - 1
      ensures b.valid == old(b.valid) && b.dirty == old(b.dirty) && b.data == old(b.data) && b.Key() == old(b.Key())
      ensures b.holder == old(b.holder)
      ensures b.refcnt > 0 ==> order == old(order)
      ensures b.refcnt == 0 ==> InFront(b, old(order), order)
    {
      hide RingOk, Coherent, Views, InFront;
      Unclaim(b, pid);
      if b.refcnt == 0 {
        MoveToFront(b);
      }
    }

    /** One process less uses the buffer. */
    method Unclaim(b: Buf, pid: nat)
      requires Valid() && b in bufs && pid in b.claims && b.holder != pid
      modifies b`refcnt, b`claims
      ensures Valid() && b.claims == old(b.claims) - multiset{pid} && b.refcnt == old(b.refcnt) - 1
    {
      hide RingOk, Coherent;
      ghost var i :| 0 <= i < |bufs| && bufs[i] == b;
      EntryAt(Views(), disk, logical, i);
      RingDistinct();
      DropClaim(b.View(), disk, logical, pid);
      hide EntryOk;
      b.refcnt := b.refcnt - 1;
      b.claims := b.claims - multiset{pid};
      RingKept();
      OneChanged(i);
      CoherentStep(old(Views()), disk, logical, i, b.View(), disk, logical);
    }

    twostate lemma ViewsKept()
      requires forall x :: x in bufs ==> x.View() == old(x.View())
      ensures Views() == old(Views())
    {
    }
  }
}
