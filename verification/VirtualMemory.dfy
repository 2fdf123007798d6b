/**
 The page allocator and the address-space operations of kalloc.c and vm.c.

 Addresses are 32-bit and wrap around.  kfree gives a frame back by putting it at the head of a list
 whose links are kept in the free frames; `free` is that list, and `pool` all frames ever given to the
 allocator.  A frame of the pool is free or has an owner.
 */
module VirtualMemory {
  import opened Counting
  import opened Options
  import opened PageTables

  const WORD := 0x1_0000_0000
  const KERNBASE := 0x8000_0000
  const PTE_W := 2
  const PTE_U := 4

  function PageUp(a: nat): nat {
    (a + 4095) % 0x1_0000_0000 / 4096 * 4096
  }

  function PageDown(a: nat): nat {
    a / 4096 * 4096
  }

  /** The page of an address, and the last page of a range of addresses, which may wrap around. */
  function PageOf(a: nat): nat {
    a / 4096
  }

  function LastByte(va: nat, size: nat): (b: nat)
    ensures b < WORD
  {
    (va + size + WORD - 1) % WORD
  }

  /** The address of the next page. */
  function Onward(a: nat): (b: nat)
    ensures b < WORD
  {
    (a + 4096) % 0x1_0000_0000
  }

  function Pdx(a: nat): nat {
    a / 0x40_0000
  }

  function Ptx(a: nat): nat {
    a / 4096 % 1024
  }

  /** The number of the page that entry j of table i maps. */
  function PageNo(i: nat, j: nat): nat {
    i * 1024 + j
  }

  function TableOf(p: nat): nat {
    p / 1024
  }

  function SlotOf(p: nat): nat {
    p % 1024
  }

  datatype MapResult = Mapped | NoMemory | Remap

  /** The free list from `head` on. */
  ghost predicate Listed(free: seq<nat>, head: nat, next: map<nat, nat>) {
    && (free == [] ==> head == 0) && (free != [] ==> head == free[0])
    && (forall k :: 0 <= k < |free| ==> free[k] > 0 && free[k] in next)
    && (forall k, l :: 0 <= k < l < |free| && Follows(k, l) ==> next[free[k]] == free[l])
    && (free != [] ==> next[free[|free| - 1]] == 0)
    && (forall k, l :: 0 <= k < l < |free| ==> free[k] != free[l])
  }

  /** The frames of the pool are divided between the free list and the owners. */
  ghost predicate Divided(pool: set<nat>, free: seq<nat>, owner: Owners) {
    && (forall f :: f in pool <==> f in free || f in owner)
    && (forall f :: f in free ==> f !in owner)
  }

  /** Frame 0 is not given out, and frames have 20-bit numbers. */
  ghost predicate Bounded(pool: set<nat>) {
    forall f :: f in pool ==> 0 < f < 0x10_0000
  }

  lemma Pushed(pool: set<nat>, free: seq<nat>, head: nat, next: map<nat, nat>, owner: Owners, f: nat)
    requires Listed(free, head, next) && Divided(pool, free, owner) && Bounded(pool) && f in owner
    ensures Listed([f] + free, f, next[f := head]) && Divided(pool, [f] + free, owner - {f})
  {
  }

  lemma Popped(pool: set<nat>, free: seq<nat>, head: nat, next: map<nat, nat>, owner: Owners, use: Owner)
    requires Listed(free, head, next) && Divided(pool, free, owner) && free != []
    ensures Listed(free[1..], next[head], next) && Divided(pool, free[1..], owner[head := use]) && head !in owner && head > 0
  {
  }

  // ---------- ranges of pages, with wrap-around ----------

  /** The steps from page `first` up to page `p`, around the end of the address space. */
  function Steps(first: nat, p: nat): int {
    if p >= first then p - first else p - first + 0x10_0000
  }

  /** The page `k` steps after page `first`. */
  function After(first: nat, k: nat): nat {
    (first + k) % 0x10_0000
  }

  lemma PageOfAddress(a: nat, p: nat)
    requires a == p * 4096 && p < 0x10_0000
    ensures Pdx(a) < 1024 && Ptx(a) < 1024 && PageNo(Pdx(a), Ptx(a)) == p && a < WORD && PageOf(a) == p
  {
  }

  lemma NextPage(first: nat, k: nat, a: nat)
    requires first < 0x10_0000 && k < 0x10_0000 && a == After(first, k) * 4096
    ensures Onward(a) == After(first, k + 1) * 4096 && Onward(a) < WORD
  {
  }

  lemma StepsAfter(first: nat, k: nat)
    requires first < 0x10_0000 && k < 0x10_0000
    ensures Steps(first, After(first, k)) == k && After(first, k) < 0x10_0000
  {
  }

  lemma AfterSteps(first: nat, p: nat)
    requires first < 0x10_0000 && p < 0x10_0000
    ensures 0 <= Steps(first, p) < 0x10_0000 && After(first, Steps(first, p)) == p
  {
  }

  lemma FirstPage(a: nat, p: nat)
    requires a < WORD && p == PageOf(a)
    ensures PageDown(a) == After(p, 0) * 4096 && p < 0x10_0000 && After(p, 0) == p && PageOf(PageDown(a)) == p
    ensures a % 4096 == 0 ==> PageDown(a) == a
  {
  }

  /** The last page of a range is reached after the right number of steps and not before. */
  lemma LastPage(first: nat, k: nat, last: nat)
    requires first < 0x10_0000 && last < 0x10_0000 && k <= Steps(first, last)
    ensures After(first, k) == last <==> k == Steps(first, last)
  {
  }

  /** The `k` pages from `first` on were not mapped and are mapped to the frames from `frame` on; the rest is as before. */
  ghost predicate MapsRange(owner: Owners, mem: Mem, mem': Mem, d: nat, first: nat, k: nat, frame: nat, perm: nat)
    requires first < 0x10_0000
  {
    forall d': nat, i: nat, j: nat :: IsDir(owner, d') && i < 1024 && j < 1024 ==>
      if d' == d && Steps(first, PageNo(i, j)) < k then
        Mapping(mem, d, i, j).Absent? && Mapping(mem', d, i, j) == Page(After(frame, Steps(first, PageNo(i, j))), perm)
      else Mapping(mem', d', i, j) == Mapping(mem, d', i, j)
  }

  /** Only page tables of `d` have been added. */
  ghost predicate Grew(owner: Owners, owner': Owners, d: nat) {
    && (forall f :: f in owner ==> f in owner' && owner'[f] == owner[f])
    && (forall f :: f in owner' && f !in owner ==> owner'[f].Table? && owner'[f].dir == d)
  }

  lemma GrewTwice(owner: Owners, owner': Owners, owner'': Owners, d: nat)
    requires Grew(owner, owner', d) && Grew(owner', owner'', d)
    ensures Grew(owner, owner'', d)
  {
  }

  lemma GrewUsers(owner: Owners, owner': Owners, d: nat)
    requires Grew(owner, owner', d)
    ensures SameUsers(owner, owner') && forall d' :: IsDir(owner', d') <==> IsDir(owner, d')
  {
  }

  /** One more page of the range is mapped. */
  lemma MapsOneMore(owner: Owners, owner': Owners, mem: Mem, mem': Mem, mem'': Mem, d: nat, i: nat, j: nat,
                    first: nat, k: nat, frame: nat, perm: nat)
    requires first < 0x10_0000 && k < 0x10_0000 && MapsRange(owner, mem, mem', d, first, k, frame, perm)
    requires i < 1024 && j < 1024 && PageNo(i, j) == After(first, k) && IsDir(owner, d) && Mapping(mem', d, i, j).Absent?
    requires Grew(owner, owner', d) && MapsExcept(owner', mem', mem'', d, i, j, Page(After(frame, k), perm))
    ensures MapsRange(owner, mem, mem'', d, first, k + 1, frame, perm)
  {
    hide Mapping, Steps, After, PageNo;
    forall d': nat, i': nat, j': nat | IsDir(owner, d') && i' < 1024 && j' < 1024
      ensures Steps(first, PageNo(i', j')) == k <==> i' == i && j' == j
      ensures Mapping(mem'', d', i', j') ==
              if d' == d && i' == i && j' == j then Page(After(frame, k), perm) else Mapping(mem', d', i', j')
    {
      OneStep(first, k, i, j, i', j');
      assert IsDir(owner', d');
    }
  }

  /** The pages of a range are reached one at a time. */
  lemma OneStep(first: nat, k: nat, i: nat, j: nat, i': nat, j': nat)
    requires first < 0x10_0000 && k < 0x10_0000 && PageNo(i, j) == After(first, k)
    requires i < 1024 && j < 1024 && i' < 1024 && j' < 1024
    ensures Steps(first, PageNo(i', j')) == k <==> i' == i && j' == j
  {
    StepsAfter(first, k);
    AfterSteps(first, PageNo(i', j'));
    PlaceOf(i, j);
    PlaceOf(i', j');
  }

  ghost predicate SameMappings(owner: Owners, mem: Mem, mem': Mem) {
    forall d: nat, i: nat, j: nat :: IsDir(owner, d) ==> Mapping(mem', d, i, j) == Mapping(mem, d, i, j)
  }

  lemma MapsNone(owner: Owners, mem: Mem, d: nat, first: nat, frame: nat, perm: nat)
    requires first < 0x10_0000
    ensures MapsRange(owner, mem, mem, d, first, 0, frame, perm)
  {
  }

  lemma GrewNone(owner: Owners, d: nat)
    ensures Grew(owner, owner, d)
  {
  }

  lemma PlaceOf(i: nat, j: nat)
    requires j < 1024
    ensures TableOf(PageNo(i, j)) == i && SlotOf(PageNo(i, j)) == j
  {
  }

  /** The next page of the range has not been mapped by it. */
  lemma MapsSame(owner: Owners, owner': Owners, mem: Mem, mem': Mem, mem'': Mem, d: nat, i: nat, j: nat, first: nat,
                 k: nat, frame: nat, perm: nat)
    requires first < 0x10_0000 && k < 0x10_0000 && MapsRange(owner, mem, mem', d, first, k, frame, perm) && IsDir(owner, d)
    requires i < 1024 && j < 1024 && PageNo(i, j) == After(first, k)
    requires Grew(owner, owner', d) && SameMappings(owner', mem', mem'')
    ensures MapsRange(owner, mem, mem'', d, first, k, frame, perm)
    ensures Mapping(mem', d, i, j) == Mapping(mem, d, TableOf(After(first, k)), SlotOf(After(first, k)))
  {
    GrewUsers(owner, owner', d);
    StepsAfter(first, k);
    PlaceOf(i, j);
    hide After, Steps, PageNo, TableOf, SlotOf, Mapping;
    forall d': nat, i': nat, j': nat | IsDir(owner, d') && i' < 1024 && j' < 1024
      ensures Mapping(mem'', d', i', j') == Mapping(mem', d', i', j')
    {
      assert IsDir(owner', d');
    }
  }

  // ---------- how many frames it takes ----------

  /** The entries of directory `d` that have a page table. */
  ghost function Present(mem: Mem, d: nat): set<nat> {
    set i: nat | i < 1024 && Entry(mem, d, i).Page?
  }

  /** The entries that cover `n` pages from `first` on. */
  ghost function TablesOf(first: nat, n: nat): set<nat> {
    if n == 0 then {} else TablesOf(first, n - 1) + {TableOf(After(first, n - 1))}
  }

  /** The given entries have page tables now, and each new page table has taken one free frame. */
  ghost predicate Taken(free: seq<nat>, mem: Mem, free': seq<nat>, mem': Mem, d: nat, tables: set<nat>) {
    Present(mem', d) == Present(mem, d) + tables && |free'| + |Present(mem', d)| == |free| + |Present(mem, d)|
  }

  lemma TakenNone(free: seq<nat>, mem: Mem, d: nat)
    ensures Taken(free, mem, free, mem, d, {})
  {
  }

  lemma NoTables(free: seq<nat>, mem: Mem, d: nat, first: nat)
    ensures Taken(free, mem, free, mem, d, TablesOf(first, 0))
  {
  }

  lemma TakenPresent(free: seq<nat>, mem: Mem, d: nat, i: nat)
    requires i < 1024 && Entry(mem, d, i).Page?
    ensures Taken(free, mem, free, mem, d, {i})
  {
    assert Present(mem, d) + {i} == Present(mem, d);
  }

  lemma TakenTable(free: seq<nat>, mem: Mem, free': seq<nat>, mem': Mem, d: nat, i: nat, t: nat, perm: nat)
    requires Full(mem, d) && t != d && i < 1024 && Entry(mem, d, i).Absent? && free == [t] + free'
    requires mem' == mem[t := Zeros()][d := mem[d][i := Page(t, perm)]]
    ensures Taken(free, mem, free', mem', d, {i})
  {
    assert Present(mem', d) == Present(mem, d) + {i};
  }

  lemma PresentKept(mem: Mem, owner: Owners, d: nat, i: nat, t: nat, j: nat, pte: Pte)
    requires Tables(mem, owner) && IsDir(owner, d) && Entry(mem, d, i).Page? && t == Entry(mem, d, i).frame && j < 1024
    ensures t in mem && |mem[t]| == 1024 && Present(mem[t := mem[t][j := pte]], d) == Present(mem, d)
  {
    assert owner[t] == Table(d, i) && Full(mem, t);
  }

  lemma TakenSame(free: seq<nat>, mem: Mem, free': seq<nat>, mem': Mem, mem'': Mem, d: nat, tables: set<nat>)
    requires Taken(free, mem, free', mem', d, tables) && Present(mem'', d) == Present(mem', d)
    ensures Taken(free, mem, free', mem'', d, tables)
  {
  }

  lemma TakenMore(free: seq<nat>, mem: Mem, free': seq<nat>, mem': Mem, free'': seq<nat>, mem'': Mem, d: nat,
                  first: nat, k: nat)
    requires Taken(free, mem, free', mem', d, TablesOf(first, k))
    ensures Taken(free', mem', free'', mem'', d, {TableOf(After(first, k))}) ==>
              Taken(free, mem, free'', mem'', d, TablesOf(first, k + 1))
    ensures Taken(free', mem', free'', mem'', d, {}) ==> Taken(free, mem, free'', mem'', d, TablesOf(first, k))
  {
    hide Present, TableOf, After;
  }

  // ---------- unmapping ----------

  /** A user page of `d` in the page range [lo, hi). */
  predicate UserIn(o: Owner, d: nat, lo: nat, hi: nat) {
    o.User? && o.dir == d && lo <= PageNo(o.i, o.j) < hi
  }

  ghost predicate MapsCut(owner: Owners, mem: Mem, mem': Mem, d: nat, lo: nat, hi: nat) {
    forall d': nat, i: nat, j: nat :: IsDir(owner, d') && i < 1024 && j < 1024 ==>
      Mapping(mem', d', i, j) == if d' == d && lo <= PageNo(i, j) < hi then Absent else Mapping(mem, d', i, j)
  }

  /** The owners without the user pages of `d` in the range. */
  ghost predicate OwnersCut(owner: Owners, owner': Owners, d: nat, lo: nat, hi: nat) {
    && (forall f :: f in owner' <==> f in owner && !UserIn(owner[f], d, lo, hi))
    && (forall f :: f in owner' ==> owner'[f] == owner[f])
  }

  ghost predicate Cut(owner: Owners, mem: Mem, owner': Owners, mem': Mem, d: nat, lo: nat, hi: nat) {
    MapsCut(owner, mem, mem', d, lo, hi) && OwnersCut(owner, owner', d, lo, hi)
  }

  /** The frame of the page, if it is mapped. */
  function Victim(mem: Mem, d: nat, i: nat, j: nat): set<nat> {
    if Mapping(mem, d, i, j).Page? then {Mapping(mem, d, i, j).frame} else {}
  }

  /** What a frame that is no table holds does not matter. */
  lemma Erase(mem: Mem, owner: Owners, f: nat)
    requires Tables(mem, owner) && f in owner && !owner[f].Dir? && !owner[f].Table?
    ensures Tables(mem - {f}, owner) && SameMappings(owner, mem, mem - {f})
  {
    var m := mem - {f};
    forall g | g in owner && (owner[g].Dir? || owner[g].Table?) ensures Full(m, g) && m[g] == mem[g] {
      assert Full(mem, g);
    }
    forall d: nat, i: nat | IsDir(owner, d) ensures Entry(m, d, i) == Entry(mem, d, i) {
    }
    forall d: nat, i: nat, j: nat | IsDir(owner, d) ensures Mapping(m, d, i, j) == Mapping(mem, d, i, j) {
      assert Entry(m, d, i) == Entry(mem, d, i);
    }
  }

  /** Freeing a user page and clearing its entry. */
  lemma DropFacts(mem: Mem, owner: Owners, d: nat, i: nat, t: nat, j: nat, f: nat)
    requires Tables(mem, owner) && Users(mem, owner) && IsDir(owner, d) && i < 512 && j < 1024
    requires Entry(mem, d, i).Page? && t == Entry(mem, d, i).frame && Mapping(mem, d, i, j).Page? &&
             f == Mapping(mem, d, i, j).frame
    ensures f in owner && t in mem && |mem[t]| == 1024 && t != f && mem[t][j] == Mapping(mem, d, i, j) && f != d
    ensures Tables((mem - {f})[t := mem[t][j := Absent]], owner - {f}) &&
            Users((mem - {f})[t := mem[t][j := Absent]], owner - {f})
    ensures MapsExcept(owner, mem, (mem - {f})[t := mem[t][j := Absent]], d, i, j, Absent)
  {
    assert owner[f] == User(d, i, j) && owner[t] == Table(d, i) && Full(mem, t);
    var m := mem - {f};
    Erase(mem, owner, f);
    SetEntry(m, owner, d, i, t, j, Absent);
    var m' := m[t := mem[t][j := Absent]];
    assert MapsExcept(owner, mem, m', d, i, j, Absent);
    UnmapUser(mem, owner, m', d, i, j, f);
    TablesFrame(m', owner, owner - {f});
  }

  lemma DropNothing(mem: Mem, owner: Owners, d: nat, i: nat, j: nat)
    requires Mapping(mem, d, i, j).Absent?
    ensures MapsExcept(owner, mem, mem, d, i, j, Absent)
  {
  }

  lemma TableFull(mem: Mem, owner: Owners, d: nat, i: nat)
    requires Tables(mem, owner) && IsDir(owner, d) && Entry(mem, d, i).Page?
    ensures Entry(mem, d, i).frame in mem && |mem[Entry(mem, d, i).frame]| == 1024
  {
  }

  lemma CutOneMore(owner: Owners, mem: Mem, owner': Owners, mem': Mem, owner'': Owners, mem'': Mem,
                   d: nat, lo: nat, p: nat, i: nat, j: nat)
    requires Cut(owner, mem, owner', mem', d, lo, p) && lo <= p == PageNo(i, j) && i < 512 && j < 1024
    requires Tables(mem', owner') && Users(mem', owner') && IsDir(owner', d)
    requires MapsExcept(owner', mem', mem'', d, i, j, Absent) && owner'' == owner' - Victim(mem', d, i, j)
    ensures Cut(owner, mem, owner'', mem'', d, lo, p + 1)
  {
  }

  /** Pages without a page table are not mapped, so they can be passed over. */
  lemma CutSkip(owner: Owners, mem: Mem, owner': Owners, mem': Mem, d: nat, lo: nat, p: nat, q: nat, i: nat)
    requires Cut(owner, mem, owner', mem', d, lo, p) && lo <= p <= q && i * 1024 <= p && q <= i * 1024 + 1024
    requires Tables(mem', owner') && Users(mem', owner') && IsDir(owner', d) && Entry(mem', d, i).Absent?
    ensures Cut(owner, mem, owner', mem', d, lo, q)
  {
  }

  function Pages(sz: nat): nat {
    (sz + 4095) / 4096
  }

  lemma PageUpIs(sz: nat)
    requires sz < KERNBASE
    ensures PageUp(sz) == Pages(sz) * 4096 && Pages(sz) <= 0x8_0000
  {
  }

  /** A page starts below a size exactly when it is one of the pages of that size. */
  lemma StartsBelow(p: nat, sz: nat)
    requires sz <= KERNBASE
    ensures p * 4096 < sz <==> p < Pages(sz)
    ensures Pages(sz) <= 0x8_0000 && (p < Pages(sz) ==> p * 4096 < KERNBASE)
  {
  }

  lemma PagesOrder(sz: nat, sz': nat)
    requires sz <= sz'
    ensures Pages(sz) <= Pages(sz')
  {
  }

  lemma UserTable(p: nat)
    requires p < 0x8_0000
    ensures Pdx(p * 4096) < 512 && Ptx(p * 4096) < 1024 && PageNo(Pdx(p * 4096), Ptx(p * 4096)) == p
    ensures Pdx(p * 4096) * 1024 <= p < Pdx(p * 4096) * 1024 + 1024
  {
  }

  /** The address from which deallocuvm goes on when there is no page table: that of the last page it would cover. */
  function SkipTo(a: nat): nat {
    (Pdx(a) + 1) * 0x40_0000 - 4096
  }

  lemma SkipToIs(p: nat)
    requires p < 0x8_0000
    ensures SkipTo(p * 4096) == (Pdx(p * 4096) * 1024 + 1023) * 4096
  {
  }

  lemma CutNone(owner: Owners, mem: Mem, d: nat, lo: nat, hi: nat)
    requires hi <= lo
    ensures Cut(owner, mem, owner, mem, d, lo, hi)
  {
  }

  // ---------- giving up an address space ----------

  /** The frame belongs to the address space of `d`. */
  predicate Belongs(o: Owner, d: nat, f: nat) {
    f == d || (o.Table? && o.dir == d) || (o.User? && o.dir == d)
  }

  /** All of the address space of `d`, and nothing else, has been given up. */
  ghost predicate GivenUp(owner: Owners, owner': Owners, d: nat) {
    && (forall f :: f in owner' <==> f in owner && !Belongs(owner[f], d, f))
    && (forall f :: f in owner' ==> owner'[f] == owner[f])
  }

  /** The first `n` page tables of `d` have been freed. */
  ghost predicate TablesFreed(owner: Owners, mem: Mem, owner': Owners, mem': Mem, d: nat, n: nat) {
    && (forall f :: f in owner' <==> f in owner && !(owner[f].Table? && owner[f].dir == d && owner[f].i < n))
    && (forall f :: f in owner' ==> owner'[f] == owner[f] && (f in mem' <==> f in mem) && (f in mem ==> mem'[f] == mem[f]))
  }

  lemma NoneFreed(owner: Owners, mem: Mem, d: nat)
    ensures TablesFreed(owner, mem, owner, mem, d, 0)
  {
  }

  lemma FreeTable(owner: Owners, mem: Mem, owner': Owners, mem': Mem, d: nat, n: nat)
    requires Tables(mem, owner) && IsDir(owner, d) && n < 1024 && TablesFreed(owner, mem, owner', mem', d, n)
    ensures d in mem' && |mem'[d]| == 1024 && d in owner'
    ensures mem'[d][n].Absent? ==> TablesFreed(owner, mem, owner', mem', d, n + 1)
    ensures mem'[d][n].Page? ==>
              && mem'[d][n].frame in owner' && mem'[d][n].frame != d
              && TablesFreed(owner, mem, owner' - {mem'[d][n].frame}, mem' - {mem'[d][n].frame}, d, n + 1)
  {
    assert Full(mem, d);
    assert Entry(mem, d, n) == mem'[d][n];
    forall f | f in owner && owner[f] == Table(d, n) ensures mem'[d][n].Page? && f == mem'[d][n].frame {
    }
    if mem'[d][n].Page? {
      assert owner[mem'[d][n].frame] == Table(d, n);
    }
  }

  lemma AllTablesFreed(owner: Owners, mem: Mem, owner': Owners, mem': Mem, d: nat)
    requires Tables(mem, owner) && Users(mem, owner) && IsDir(owner, d) && TablesFreed(owner, mem, owner', mem', d, 1024)
    requires forall f :: f in owner && owner[f].User? ==> owner[f].dir != d
    ensures d in owner' && Tables(mem' - {d}, owner' - {d}) && Users(mem' - {d}, owner' - {d}) && GivenUp(owner, owner' - {d}, d)
    ensures SameMappings(owner' - {d}, mem, mem' - {d})
  {
    forall f | f in owner && owner[f].Table? && owner[f].dir == d ensures owner[f].i < 1024 {
      assert Full(mem, d) && Entry(mem, d, owner[f].i).Page?;
    }
    DropDir(mem, owner, d, mem' - {d}, owner' - {d});
  }

  /** After deallocuvm over all of user space no user page is left. */
  lemma NoUsersLeft(owner: Owners, mem: Mem, owner': Owners, mem': Mem, d: nat)
    requires Tables(mem, owner) && Users(mem, owner) && Cut(owner, mem, owner', mem', d, Pages(0), Pages(KERNBASE))
    ensures forall f :: f in owner' && owner'[f].User? ==> owner'[f].dir != d
    ensures forall f :: f in owner' <==> f in owner && !(owner[f].User? && owner[f].dir == d)
  {
  }

  lemma GivenUpAll(owner: Owners, mem: Mem, owner': Owners, mem': Mem, owner'': Owners, mem'': Mem, d: nat)
    requires Cut(owner, mem, owner', mem', d, Pages(0), Pages(KERNBASE)) && Tables(mem, owner) && Users(mem, owner)
    requires GivenUp(owner', owner'', d) && SameMappings(owner'', mem', mem'')
    ensures GivenUp(owner, owner'', d)
    ensures forall d': nat, i: nat, j: nat :: IsDir(owner'', d') && i < 1024 && j < 1024 ==>
            Mapping(mem'', d', i, j) == Mapping(mem, d', i, j)
  {
  }

  // ---------- growing an address space ----------

  /** How allocuvm ends. */
  datatype AllocEnd = TooBig | NotLarger | Grown | OutOfMemory | Panicked

  /** The pages [lo, hi) of `d`, unmapped before, are mapped for the user; everything else is mapped as before. */
  ghost predicate MapsAdded(owner: Owners, mem: Mem, mem': Mem, d: nat, lo: nat, hi: nat) {
    forall d': nat, i: nat, j: nat :: IsDir(owner, d') && i < 1024 && j < 1024 ==>
      if d' == d && lo <= PageNo(i, j) < hi then
        Mapping(mem, d', i, j).Absent? && Mapping(mem', d', i, j).Page? && Mapping(mem', d', i, j).perm == PTE_W + PTE_U
      else Mapping(mem', d', i, j) == Mapping(mem, d', i, j)
  }

  /** Frames have been added for page tables of `d` and for user pages in [lo, hi); `extra` is still loose. */
  ghost predicate OwnersAdded(owner: Owners, owner': Owners, d: nat, lo: nat, hi: nat, extra: set<nat>) {
    && (forall f :: f in owner ==> f in owner' && owner'[f] == owner[f])
    && (forall f :: f in owner' && f !in owner ==>
      f in extra || (owner'[f].Table? && owner'[f].dir == d) || UserIn(owner'[f], d, lo, hi))
  }

  ghost predicate Added(owner: Owners, mem: Mem, owner': Owners, mem': Mem, d: nat, lo: nat, hi: nat) {
    MapsAdded(owner, mem, mem', d, lo, hi) && OwnersAdded(owner, owner', d, lo, hi, {})
  }

  /** The pages [lo, hi) of `d` are unmapped and freed; frames have been added for page tables of `d` only. */
  ghost predicate Undone(owner: Owners, mem: Mem, owner': Owners, mem': Mem, d: nat, lo: nat, hi: nat, extra: set<nat>) {
    && MapsCut(owner, mem, mem', d, lo, hi)
    && (forall f :: f in owner && !UserIn(owner[f], d, lo, hi) ==> f in owner' && owner'[f] == owner[f])
    && (forall f :: f in owner' && f in owner ==> !UserIn(owner[f], d, lo, hi))
    && (forall f :: f in owner' && f !in owner ==> f in extra || (owner'[f].Table? && owner'[f].dir == d))
  }

  ghost predicate PageMapped(mem: Mem, d: nat, p: nat) {
    Mapping(mem, d, Pdx(p * 4096), Ptx(p * 4096)).Page?
  }

  /** The first of the pages [lo, hi) that is mapped, or `hi`. */
  ghost function FirstMapped(mem: Mem, d: nat, lo: nat, hi: nat): (q: nat)
    requires lo <= hi
    ensures lo <= q <= hi && (forall p :: lo <= p < q ==> !PageMapped(mem, d, p)) && (q < hi ==> PageMapped(mem, d, q))
    decreases hi - lo
  {
    if lo == hi || PageMapped(mem, d, lo) then lo else FirstMapped(mem, d, lo + 1, hi)
  }

  lemma AddedNone(owner: Owners, mem: Mem, d: nat, lo: nat)
    ensures Added(owner, mem, owner, mem, d, lo, lo)
  {
  }

  /** Rolling back what has been added up to page `p`. */
  lemma RollBack(owner: Owners, mem: Mem, owner': Owners, mem': Mem, owner'': Owners, mem'': Mem,
                 d: nat, lo: nat, p: nat, hi: nat, extra: set<nat>)
    requires MapsAdded(owner, mem, mem', d, lo, p) && OwnersAdded(owner, owner', d, lo, p, extra) && lo <= p <= hi
    requires Cut(owner', mem', owner'', mem'', d, lo, hi)
    ensures Undone(owner, mem, owner'', mem'', d, lo, hi, extra)
  {
  }

  /** The range of addresses that allocuvm maps at a time is one page. */
  lemma OnePage(p: nat)
    requires p < 0x8_0000
    ensures PageOf(p * 4096) == p && Steps(p, PageOf(LastByte(p * 4096, PAGE))) == 0
    ensures TableOf(After(p, 0)) == Pdx(p * 4096) && SlotOf(After(p, 0)) == Ptx(p * 4096)
  {
  }

  lemma OneTaken(free: seq<nat>, mem: Mem, free': seq<nat>, mem': Mem, d: nat, p: nat, k: nat)
    requires Taken(free, mem, free', mem', d, TablesOf(p, k)) && k <= 1 && p < 0x8_0000
    ensures k == 1 ==> Taken(free, mem, free', mem', d, {TableOf(p)})
    ensures k == 0 ==> Present(mem', d) == Present(mem, d) && |free'| == |free|
    ensures After(p, 0) == p
  {
    hide Present, TableOf, After;
    AfterNone(p);
    assert TablesOf(p, 0) == {} && TablesOf(p, 1) == {TableOf(p)};
  }

  lemma AfterNone(p: nat)
    requires p < 0x10_0000
    ensures After(p, 0) == p
  {
  }

  lemma NoEntryBeyond(mem: Mem, owner: Owners, d: nat, i: nat, j: nat)
    requires Tables(mem, owner) && IsDir(owner, d) && (i >= 1024 || j >= 1024)
    ensures Mapping(mem, d, i, j).Absent?
  {
  }

  /** A range of one page. */
  lemma RangeOfOne(mem: Mem, owner: Owners, mem': Mem, owner': Owners, d: nat, p: nat, i: nat, j: nat, f: nat, perm: nat)
    requires Tables(mem, owner) && Tables(mem', owner') && Grew(owner, owner', d) && f < 0x10_0000
    requires p < 0x10_0000 && i < 1024 && j < 1024 && PageNo(i, j) == p && MapsRange(owner, mem, mem', d, p, 1, f, perm)
    ensures IsDir(owner, d) ==> Mapping(mem, d, i, j).Absent?
    ensures MapsExcept(owner, mem, mem', d, i, j, Page(f, perm))
  {
  }

  lemma AddMapping(owner: Owners, mem: Mem, owner': Owners, mem': Mem, loose: Owners, mem'': Mem, d: nat, lo: nat,
                   p: nat, i: nat, j: nat, f: nat)
    requires Added(owner, mem, owner', mem', d, lo, p) && lo <= p == PageNo(i, j) && i < 512 && j < 1024 && IsDir(owner, d)
    requires f !in owner' && loose == owner'[f := Loose]
    requires MapsExcept(loose, mem', mem'', d, i, j, Page(f, PTE_W + PTE_U)) && Mapping(mem', d, i, j).Absent?
    ensures MapsAdded(owner, mem, mem'', d, lo, p + 1)
  {
  }

  lemma AddUser(owner: Owners, mem: Mem, loose: Owners, owner': Owners, mem': Mem, d: nat, i: nat, j: nat, f: nat)
    requires Users(mem, owner) && IsDir(owner, d) && i < 512 && f !in owner
    requires loose == owner[f := Loose] && Grew(loose, owner', d)
    requires MapsExcept(loose, mem, mem', d, i, j, Page(f, PTE_W + PTE_U)) && Mapping(mem, d, i, j).Absent?
    ensures Users(mem', owner'[f := User(d, i, j)])
  {
    hide Mapping;
    GrewUsers(loose, owner', d);
    MapUser(mem, loose, mem', d, i, j, f, PTE_W + PTE_U);
    UsersFrame(mem', loose[f := User(d, i, j)], mem', owner'[f := User(d, i, j)]);
  }

  /** A loose frame has been mapped at page `p`. */
  lemma AddPage(owner: Owners, mem: Mem, owner': Owners, mem': Mem, loose: Owners, owner'': Owners, mem'': Mem,
                d: nat, lo: nat, p: nat, i: nat, j: nat, f: nat)
    requires Added(owner, mem, owner', mem', d, lo, p) && lo <= p == PageNo(i, j) && i < 512 && j < 1024 && IsDir(owner, d)
    requires Users(mem', owner') && f !in owner' && loose == owner'[f := Loose] && Grew(loose, owner'', d)
    requires MapsExcept(loose, mem', mem'', d, i, j, Page(f, PTE_W + PTE_U)) && Mapping(mem', d, i, j).Absent?
    ensures Added(owner, mem, owner''[f := User(d, i, j)], mem'', d, lo, p + 1)
    ensures Users(mem'', owner''[f := User(d, i, j)])
  {
    hide MapsAdded, Mapping, Users, MapsExcept;
    AddUser(owner', mem', loose, owner'', mem'', d, i, j, f);
    AddMapping(owner, mem, owner', mem', loose, mem'', d, lo, p, i, j, f);
  }

  lemma RangeOfNone(owner: Owners, mem: Mem, owner': Owners, mem': Mem, d: nat, first: nat, frame: nat, perm: nat)
    requires Tables(mem, owner) && Tables(mem', owner') && Grew(owner, owner', d) && first < 0x10_0000
    requires MapsRange(owner, mem, mem', d, first, 0, frame, perm)
    ensures SameMappings(owner, mem, mem')
  {
    hide Mapping, Tables;
    forall d': nat, i: nat, j: nat | IsDir(owner, d') ensures Mapping(mem', d', i, j) == Mapping(mem, d', i, j) {
      if i < 1024 && j < 1024 {
        AfterSteps(first, PageNo(i, j));
      } else {
        NoEntryBeyond(mem, owner, d', i, j);
        NoEntryBeyond(mem', owner', d', i, j);
      }
    }
  }

  /** A frame has been taken, and perhaps page tables, but nothing mapped. */
  lemma AddNothing(owner: Owners, mem: Mem, owner': Owners, mem': Mem, loose: Owners, owner'': Owners, mem'': Mem,
                   d: nat, lo: nat, p: nat, f: nat, first: nat, frame: nat, perm: nat)
    requires Added(owner, mem, owner', mem', d, lo, p) && Users(mem', owner') && first < 0x10_0000
    requires f !in owner' && loose == owner'[f := Loose] && Grew(loose, owner'', d) && Tables(mem', loose) &&
             Tables(mem'', owner'')
    requires MapsRange(loose, mem', mem'', d, first, 0, frame, perm)
    ensures MapsAdded(owner, mem, mem'', d, lo, p) && OwnersAdded(owner, owner'', d, lo, p, {f}) &&
            Users(mem'', owner'') && f in owner''
  {
    hide Mapping, MapsRange, Tables, Users, MapsAdded, SameMappings;
    RangeOfNone(loose, mem', owner'', mem'', d, first, frame, perm);
    NothingForUsers(mem', owner', loose, owner'', mem'', d, f);
    NothingMoved(owner, mem, owner', mem', loose, mem'', d, lo, p, f);
  }

  lemma NothingForUsers(mem: Mem, owner: Owners, loose: Owners, owner': Owners, mem': Mem, d: nat, f: nat)
    requires Users(mem, owner) && f !in owner && loose == owner[f := Loose] && Grew(loose, owner', d)
    requires SameMappings(loose, mem, mem')
    ensures Users(mem', owner')
  {
    hide Mapping, Users;
    GrewUsers(loose, owner', d);
    forall d' ensures IsDir(loose, d') <==> IsDir(owner, d') {
    }
    UsersFrame(mem, owner, mem', owner');
  }

  lemma NothingMoved(owner: Owners, mem: Mem, owner': Owners, mem': Mem, loose: Owners, mem'': Mem, d: nat, lo: nat, p: nat,
                     f: nat)
    requires Added(owner, mem, owner', mem', d, lo, p) && f !in owner' && loose == owner'[f := Loose]
    requires SameMappings(loose, mem', mem'')
    ensures MapsAdded(owner, mem, mem'', d, lo, p)
  {
    hide Mapping;
    forall d': nat, i: nat, j: nat | IsDir(owner, d') && i < 1024 && j < 1024
      ensures Mapping(mem'', d', i, j) == Mapping(mem', d', i, j)
    {
      assert IsDir(loose, d');
    }
  }

  lemma LooseTables(mem: Mem, owner: Owners, f: nat)
    requires Tables(mem, owner) && f !in owner
    ensures Tables(mem, owner[f := Loose])
  {
  }

  lemma UserTables(mem: Mem, owner: Owners, f: nat, d: nat, i: nat, j: nat)
    requires Tables(mem, owner) && f in owner && owner[f].Loose?
    ensures Tables(mem, owner[f := User(d, i, j)])
  {
  }

  lemma StillLoose(owner: Owners, owner': Owners, d: nat, f: nat)
    requires Grew(owner, owner', d) && f in owner && owner[f].Loose?
    ensures f in owner' && owner'[f].Loose?
  {
  }

  lemma Reowned(pool: set<nat>, free: seq<nat>, owner: Owners, f: nat, o: Owner)
    requires Divided(pool, free, owner) && f in owner
    ensures Divided(pool, free, owner[f := o])
  {
  }

  lemma InPool(pool: set<nat>, free: seq<nat>, owner: Owners, f: nat)
    requires Divided(pool, free, owner) && Bounded(pool) && f in owner
    ensures 0 < f < 0x10_0000
  {
  }

  /** A page beyond those that have been added is mapped as it was. */
  lemma AddedBefore(owner: Owners, mem: Mem, owner': Owners, mem': Mem, d: nat, lo: nat, p: nat, i: nat, j: nat)
    requires Added(owner, mem, owner', mem', d, lo, p) && IsDir(owner, d) && i < 1024 && j < 1024 && PageNo(i, j) == p
    ensures Mapping(mem', d, i, j) == Mapping(mem, d, i, j)
  {
  }

  lemma PageAsBefore(owner: Owners, mem: Mem, owner': Owners, mem': Mem, d: nat, lo: nat, p: nat)
    requires Added(owner, mem, owner', mem', d, lo, p) && IsDir(owner, d) && p < 0x8_0000
    ensures PageMapped(mem, d, p) <==> PageMapped(mem', d, p)
    ensures PageMapped(mem', d, p) <==> Mapping(mem', d, Pdx(p * 4096), Ptx(p * 4096)).Page?
  {
    hide Mapping, Pdx, Ptx, PageNo, Added;
    UserTable(p);
    AddedBefore(owner, mem, owner', mem', d, lo, p, Pdx(p * 4096), Ptx(p * 4096));
  }

  lemma NotBefore(owner: Owners, mem: Mem, owner': Owners, mem': Mem, d: nat, lo: nat, p: nat, f: nat)
    requires Added(owner, mem, owner', mem', d, lo, p) && f !in owner'
    ensures f !in owner
  {
  }

  lemma LooseStays(owner: Owners, mem: Mem, owner': Owners, mem': Mem, d: nat, lo: nat, hi: nat, f: nat)
    requires Cut(owner, mem, owner', mem', d, lo, hi) && f in owner && owner[f].Loose?
    ensures f in owner' && owner'[f].Loose?
  {
  }

  /** Freeing the frame that was not mapped completes the roll-back. */
  lemma DropExtra(owner: Owners, mem: Mem, owner': Owners, mem': Mem, d: nat, lo: nat, hi: nat, f: nat)
    requires Undone(owner, mem, owner', mem', d, lo, hi, {f}) && f !in owner && f in owner' && owner'[f].Loose?
    requires Tables(mem', owner') && Users(mem', owner') && IsDir(owner', d)
    ensures Undone(owner, mem, owner' - {f}, mem' - {f}, d, lo, hi, {}) && IsDir(owner' - {f}, d)
    ensures Tables(mem' - {f}, owner' - {f}) && Users(mem' - {f}, owner' - {f})
  {
    Erase(mem', owner', f);
    TablesFrame(mem' - {f}, owner', owner' - {f});
    UsersFrame(mem', owner', mem' - {f}, owner' - {f});
    forall d': nat, i: nat, j: nat | IsDir(owner, d') && i < 1024 && j < 1024
      ensures Mapping(mem' - {f}, d', i, j) == if d' == d && lo <= PageNo(i, j) < hi then Absent else Mapping(mem, d', i, j)
    {
      assert IsDir(owner', d');
    }
  }

  /** The frames it takes to map the pages [lo, hi): one for each page and for each page table that is missing. */
  ghost function Need(mem: Mem, d: nat, lo: nat, hi: nat): nat
    requires lo <= hi
  {
    hi - lo + |TablesOf(lo, hi - lo) - Present(mem, d)|
  }

  /** Of `n` free frames, those for the pages [lo, p) and their page tables have been taken. */
  ghost predicate PaidFor(n: nat, mem: Mem, free: seq<nat>, mem': Mem, d: nat, lo: nat, p: nat) {
    && lo <= p && Present(mem', d) == Present(mem, d) + TablesOf(lo, p - lo)
    && |free| + |Present(mem', d)| + (p - lo) == n + |Present(mem, d)|
  }

  lemma PaidNone(mem: Mem, free: seq<nat>, d: nat, lo: nat)
    ensures PaidFor(|free|, mem, free, mem, d, lo, lo)
  {
  }

  lemma NextTable(lo: nat, p: nat)
    requires lo <= p < 0x8_0000
    ensures TablesOf(lo, p + 1 - lo) == TablesOf(lo, p - lo) + {TableOf(p)}
  {
  }

  lemma PaidOne(n: nat, mem: Mem, free: seq<nat>, mem': Mem, free': seq<nat>, free'': seq<nat>, mem'': Mem, d: nat,
                lo: nat, p: nat)
    requires PaidFor(n, mem, free, mem', d, lo, p) && p < 0x8_0000 && |free| == |free'| + 1
    requires Taken(free', mem', free'', mem'', d, {TableOf(p)})
    ensures PaidFor(n, mem, free'', mem'', d, lo, p + 1)
  {
    hide Present, TableOf, TablesOf;
    NextTable(lo, p);
  }

  lemma {:induction false} TablesGrow(lo: nat, m: nat, n: nat)
    requires m <= n
    ensures TablesOf(lo, m) <= TablesOf(lo, n)
  {
    if m < n {
      TablesGrow(lo, m, n - 1);
    }
  }

  /** Memory that runs out before page `hi`, at a page or at its page table, was not enough. */
  lemma TooFew(n: nat, mem: Mem, free: seq<nat>, mem': Mem, d: nat, lo: nat, p: nat, hi: nat)
    requires PaidFor(n, mem, free, mem', d, lo, p) && p < hi <= 0x8_0000
    requires free == [] || (|free| == 1 && TableOf(p) !in Present(mem', d))
    ensures n < Need(mem, d, lo, hi)
  {
    hide TableOf, TablesOf, Present;
    NextTable(lo, p);
    TablesGrow(lo, p + 1 - lo, hi - lo);
    OneMissing(Present(mem, d), TablesOf(lo, p - lo), TablesOf(lo, hi - lo), TableOf(p));
  }

  /**
   The frames that allocuvm takes before it ends: those for all pages, or, if one is mapped already, those
   for the pages before it and the frame that is to be mapped there.
   */
  ghost function Wanted(mem: Mem, d: nat, lo: nat, hi: nat): nat
    requires lo <= hi
  {
    var q := FirstMapped(mem, d, lo, hi);
    if q == hi then Need(mem, d, lo, hi) else Need(mem, d, lo, q) + 1
  }

  lemma AddedUnmapped(owner: Owners, mem: Mem, owner': Owners, mem': Mem, d: nat, lo: nat, p: nat)
    requires Added(owner, mem, owner', mem', d, lo, p) && IsDir(owner, d) && p <= 0x8_0000
    ensures forall q :: lo <= q < p ==> !PageMapped(mem, d, q)
  {
    hide Mapping, Pdx, Ptx, PageNo;
    forall q | lo <= q < p ensures !PageMapped(mem, d, q) {
      UserTable(q);
    }
  }

  lemma TableMissing(mem: Mem, d: nat, p: nat)
    requires p < 0x8_0000 && TableOf(p) !in Present(mem, d)
    ensures !PageMapped(mem, d, p)
  {
    assert Pdx(p * 4096) == TableOf(p) && TableOf(p) < 1024;
  }

  lemma RanOut(n: nat, mem: Mem, free: seq<nat>, mem': Mem, d: nat, lo: nat, p: nat, hi: nat)
    requires PaidFor(n, mem, free, mem', d, lo, p) && p < hi <= 0x8_0000 && lo <= p
    requires forall q :: lo <= q < p ==> !PageMapped(mem, d, q)
    requires free == [] || (|free| == 1 && TableOf(p) !in Present(mem', d) && !PageMapped(mem, d, p))
    ensures n < Wanted(mem, d, lo, hi)
  {
    hide PaidFor, Need, PageMapped, Present, TableOf;
    var q := FirstMapped(mem, d, lo, hi);
    if q == p {
      PaidAll(n, mem, free, mem', d, lo, p);
    } else {
      TooFew(n, mem, free, mem', d, lo, p, q);
    }
  }

  lemma NoneMapped(mem: Mem, d: nat, lo: nat, hi: nat)
    requires lo <= hi && forall q :: lo <= q < hi ==> !PageMapped(mem, d, q)
    ensures FirstMapped(mem, d, lo, hi) == hi && Wanted(mem, d, lo, hi) == Need(mem, d, lo, hi)
  {
    hide PageMapped, Need;
  }

  lemma MetMapped(n: nat, mem: Mem, free: seq<nat>, mem': Mem, d: nat, lo: nat, p: nat, hi: nat)
    requires PaidFor(n, mem, free, mem', d, lo, p) && lo <= p < hi && free != []
    requires PageMapped(mem, d, p) && forall q :: lo <= q < p ==> !PageMapped(mem, d, q)
    ensures n >= Wanted(mem, d, lo, hi) && FirstMapped(mem, d, lo, hi) == p
  {
    hide PaidFor, Need, PageMapped;
    PaidAll(n, mem, free, mem', d, lo, p);
  }

  lemma OneMissing(before: set<nat>, now: set<nat>, all: set<nat>, i: nat)
    requires now + {i} <= all
    ensures |before + now| <= |before| + |all - before|
    ensures i !in before + now ==> |before + now| < |before| + |all - before|
  {
    SizeOfSum(before, now);
    SizeOfSubset(now - before, all - before);
    if i !in before + now {
      SizeOfSubset(now - before + {i}, all - before);
    }
  }

  lemma PaidAll(n: nat, mem: Mem, free: seq<nat>, mem': Mem, d: nat, lo: nat, hi: nat)
    requires PaidFor(n, mem, free, mem', d, lo, hi)
    ensures n == |free| + Need(mem, d, lo, hi) && Present(mem', d) == Present(mem, d) + TablesOf(lo, hi - lo)
  {
    SizeOfSum(Present(mem, d), TablesOf(lo, hi - lo));
  }

  // ---------- the kernel's part of every address space ----------

  const EXTMEM := 0x10_0000
  const PHYSTOP := 0xE00_0000
  const DEVSPACE := 0xFE00_0000

  /** One row of the kernel map: virtual start, physical start and end, permissions. */
  datatype Range = Range(virt: nat, start: nat, end: nat, perm: nat)

  /** The kernel map; `data` is the frame where the kernel's data begins. */
  function Kmap(data: nat): (rows: seq<Range>)
    ensures |rows| == 4
  {
    [Range(KERNBASE, 0, EXTMEM, PTE_W),
     Range(KERNBASE + EXTMEM, EXTMEM, data * 4096, 0),
     Range(KERNBASE + data * 4096, data * 4096, PHYSTOP, PTE_W),
     Range(DEVSPACE, DEVSPACE, 0, PTE_W)]
  }

  /** What every address space maps at page `p` for the kernel. */
  function KernelMap(data: nat, p: nat): Pte {
    if 0x8_0000 <= p < 0x8_0100 then Page(p - 0x8_0000, PTE_W)            // I/O space
    else if 0x8_0100 <= p < 0x8_0000 + data then Page(p - 0x8_0000, 0)    // text and read-only data
    else if 0x8_0000 + data <= p < 0x8_E000 then Page(p - 0x8_0000, PTE_W)  // data and free memory
    else if 0xF_E000 <= p < 0x10_0000 then Page(p, PTE_W)                 // devices, up to the end
    else Absent
  }

  /** The pages of row `k`. */
  function First(data: nat, k: nat): nat {
    if k == 0 then 0x8_0000 else if k == 1 then 0x8_0100 else if k == 2 then 0x8_0000 + data else 0xF_E000
  }

  function Limit(data: nat, k: nat): nat {
    if k == 0 then 0x8_0100 else if k == 1 then 0x8_0000 + data else if k == 2 then 0x8_E000 else 0x10_0000
  }

  /** The kernel map, restricted to the pages of the first `k` rows. */
  function KernelUpTo(data: nat, k: nat, p: nat): Pte {
    if p < First(data, k) || k == 4 then KernelMap(data, p) else Absent
  }

  /** The addresses of a row, with 32-bit wrap-around, are the pages of that row. */
  lemma RowIs(data: nat, k: nat)
    requires k < 4 && 0x100 < data < 0xE000
    ensures var row := Kmap(data)[k];
            && row.virt < WORD && row.start < WORD && row.end < WORD && row.start % 4096 == 0
            && PageOf(row.virt) == First(data, k) && PageOf(row.start) == First(data, k) - (if k == 3 then 0 else 0x8_0000)
            && Steps(First(data, k), PageOf(LastByte(row.virt, Size(row)))) + 1 == Limit(data, k) - First(data, k)
    ensures 0x8_0000 <= First(data, k) < Limit(data, k) <= 0x10_0000
  {
    var row := Kmap(data)[k];
    var last := row.virt + Size(row) - 1;
    assert last < WORD && LastByte(row.virt, Size(row)) == last;
  }

  /** The size passed to mappages: the difference of the physical addresses in 32 bits. */
  function Size(row: Range): (n: nat)
    ensures n < WORD
  {
    (row.end - row.start) % WORD
  }

  ghost predicate HasKernel(mem: Mem, d: nat, data: nat, k: nat) {
    forall i: nat, j: nat :: i < 1024 && j < 1024 ==> Mapping(mem, d, i, j) == KernelUpTo(data, k, PageNo(i, j))
  }

  /** The directories in `owner` map what they did. */
  ghost predicate OthersSame(owner: Owners, mem: Mem, mem': Mem) {
    forall d: nat, i: nat, j: nat :: IsDir(owner, d) && i < 1024 && j < 1024 ==> Mapping(mem', d, i, j) == Mapping(mem, d, i, j)
  }

  function RowFrame(data: nat, k: nat): nat
    requires 0 < data
  {
    if k == 3 then First(data, k) else First(data, k) - 0x8_0000
  }

  lemma RowFrameIs(data: nat, k: nat)
    requires k < 4 && 0x100 < data < 0xE000
    ensures PageOf(Kmap(data)[k].start) == RowFrame(data, k)
  {
  }

  /** No page of a row is mapped by the rows before it. */
  lemma RowIsNew(mem: Mem, d: nat, data: nat, k: nat, n: nat)
    requires k < 4 && 0x100 < data < 0xE000 && HasKernel(mem, d, data, k) && n < Limit(data, k) - First(data, k)
    ensures Mapping(mem, d, TableOf(After(First(data, k), n)), SlotOf(After(First(data, k), n))).Absent?
  {
    hide Mapping, TableOf, SlotOf, PageNo, After, KernelUpTo;
    RowPage(data, k, n);
    PlaceBack(After(First(data, k), n));
  }

  lemma RowPage(data: nat, k: nat, n: nat)
    requires k < 4 && 0x100 < data < 0xE000 && n < Limit(data, k) - First(data, k)
    ensures After(First(data, k), n) < 0x10_0000 && KernelUpTo(data, k, After(First(data, k), n)).Absent?
  {
  }

  lemma PlaceBack(p: nat)
    requires p < 0x10_0000
    ensures TableOf(p) < 1024 && SlotOf(p) < 1024 && PageNo(TableOf(p), SlotOf(p)) == p
  {
  }

  lemma RowMapped(owner: Owners, mem: Mem, owner': Owners, mem': Mem, d: nat, data: nat, k: nat)
    requires k < 4 && 0x100 < data < 0xE000 && IsDir(owner, d) && HasKernel(mem, d, data, k) && First(data, k) < 0x10_0000
    requires MapsRange(owner, mem, mem', d, First(data, k), Limit(data, k) - First(data, k), RowFrame(data, k),
                       Kmap(data)[k].perm)
    ensures HasKernel(mem', d, data, k + 1)
  {
  }

  /** Mapping pages of the kernel part does not matter to users or to other directories. */
  lemma RowLeavesUsers(owner: Owners, mem: Mem, owner': Owners, mem': Mem, d: nat, data: nat, k: nat, n: nat,
                       frame: nat, perm: nat)
    requires k < 4 && 0x100 < data < 0xE000 && First(data, k) < 0x10_0000 && n <= Limit(data, k) - First(data, k)
    requires Tables(mem, owner) && Users(mem, owner) && Tables(mem', owner') && Grew(owner, owner', d)
    requires MapsRange(owner, mem, mem', d, First(data, k), n, frame, perm)
    ensures Users(mem', owner')
  {
  }

  lemma OthersStill(owner: Owners, mem: Mem, owner': Owners, mem': Mem, mem'': Mem, d: nat, first: nat, n: nat,
                    frame: nat, perm: nat)
    requires OthersSame(owner, mem, mem') && d !in owner && Grew(owner[d := Dir], owner', d)
    requires first < 0x10_0000 && MapsRange(owner', mem', mem'', d, first, n, frame, perm)
    ensures OthersSame(owner, mem, mem'')
  {
  }

  /** Giving up a directory that has only page tables undoes its creation. */
  lemma SetupUndone(owner: Owners, mem: Mem, owner': Owners, mem': Mem, owner'': Owners, mem'': Mem, d: nat)
    requires Tables(mem, owner) && Users(mem, owner) && d !in owner && Grew(owner[d := Dir], owner', d) &&
             GivenUp(owner', owner'', d)
    requires OthersSame(owner, mem, mem')
    requires forall d': nat, i: nat, j: nat :: IsDir(owner'', d') && i < 1024 && j < 1024 ==>
             Mapping(mem'', d', i, j) == Mapping(mem', d', i, j)
    ensures owner'' == owner && OthersSame(owner, mem, mem'')
  {
  }

  lemma SameOthers(owner: Owners, mem: Mem)
    ensures OthersSame(owner, mem, mem)
  {
  }

  lemma FreshDir(mem: Mem, owner: Owners, d: nat, mem': Mem, data: nat)
    requires Tables(mem, owner) && Users(mem, owner) && d !in owner && mem' == mem[d := Zeros()] && 0x100 < data < 0xE000
    ensures Tables(mem', owner[d := Dir]) && Users(mem', owner[d := Dir]) && HasKernel(mem', d, data, 0) &&
            OthersSame(owner, mem, mem')
  {
    NewDir(mem, owner, d, mem');
  }

  lemma AllRows(mem: Mem, d: nat, data: nat)
    requires HasKernel(mem, d, data, 4)
    ensures forall i: nat, j: nat :: i < 1024 && j < 1024 ==> Mapping(mem, d, i, j) == KernelMap(data, PageNo(i, j))
  {
  }

  predicate InKernel(i: nat) {
    512 <= i < 568 || 1016 <= i < 1024
  }

  /** The entries of a directory that the kernel map uses. */
  ghost function KernelTables(): set<nat> {
    set i: nat | i < 1024 && InKernel(i)
  }

  lemma SixtyFour()
    ensures |KernelTables()| == 64
  {
    HowMany(512, 568);
    HowMany(1016, 1024);
    assert KernelTables() == Numbers(512, 568) + Numbers(1016, 1024);
  }

  lemma RowTable(data: nat, k: nat, n: nat)
    requires k < 4 && 0x100 < data < 0xE000 && n < Limit(data, k) - First(data, k)
    ensures TableOf(After(First(data, k), n)) in KernelTables()
  {
  }

  lemma {:induction false} RowTables(data: nat, k: nat, n: nat)
    requires k < 4 && 0x100 < data < 0xE000 && n <= Limit(data, k) - First(data, k)
    ensures TablesOf(First(data, k), n) <= KernelTables()
    ensures n < Limit(data, k) - First(data, k) ==> TableOf(After(First(data, k), n)) in KernelTables()
  {
    hide First, Limit, TableOf, After, KernelTables;
    if n < Limit(data, k) - First(data, k) {
      RowTable(data, k, n);
    }
    if n > 0 {
      RowTables(data, k, n - 1);
    }
  }

  /** Of `n` free frames, one for the directory and those for its page tables, all the kernel's, have been taken. */
  ghost predicate PaidKernel(n: nat, free: seq<nat>, mem: Mem, d: nat) {
    Present(mem, d) <= KernelTables() && |free| + |Present(mem, d)| + 1 == n
  }

  lemma PaidDirectory(n: nat, free: seq<nat>, mem: Mem, d: nat)
    requires |free| + 1 == n
    ensures PaidKernel(n, free, mem[d := Zeros()], d)
  {
    assert Present(mem[d := Zeros()], d) == {};
  }

  /** A row whose page table is missing for want of a frame leaves too few frames for the kernel map. */
  lemma PaidRow(n: nat, free: seq<nat>, mem: Mem, free': seq<nat>, mem': Mem, d: nat, data: nat, k: nat, m: nat)
    requires PaidKernel(n, free, mem, d) && k < 4 && 0x100 < data < 0xE000 && m <= Limit(data, k) - First(data, k)
    requires Taken(free, mem, free', mem', d, TablesOf(First(data, k), m))
    ensures PaidKernel(n, free', mem', d)
    ensures m < Limit(data, k) - First(data, k) && TableOf(After(First(data, k), m)) !in Present(mem', d) && free' == []
            ==> n < 65
  {
    hide First, Limit, TablesOf, TableOf, After, Present, KernelTables;
    RowTables(data, k, m);
    SixtyFour();
    if m < Limit(data, k) - First(data, k) && TableOf(After(First(data, k), m)) !in Present(mem', d) {
      SizeOfSubset(Present(mem', d) + {TableOf(After(First(data, k), m))}, KernelTables());
    }
  }

  lemma KernelPaid(n: nat, free: seq<nat>, mem: Mem, d: nat, data: nat)
    requires PaidKernel(n, free, mem, d) && 0x100 < data < 0xE000 && HasKernel(mem, d, data, 4)
    ensures n == |free| + 65 && Present(mem, d) == KernelTables()
  {
    forall i | i in KernelTables() ensures i in Present(mem, d) {
      assert KernelUpTo(data, 4, PageNo(i, 0)).Page?;
      assert Mapping(mem, d, i, 0) == KernelUpTo(data, 4, PageNo(i, 0));
    }
    assert Present(mem, d) == KernelTables();
    SixtyFour();
  }

  // ---------- the kernel's pages are not for users ----------

  predicate ForUser(pte: Pte) {
    pte.Page? && pte.perm / 4 % 2 == 1
  }

  /** No directory maps a page at or above KERNBASE for the user. */
  ghost predicate KernelOnly(owner: Owners, mem: Mem) {
    forall d: nat, i: nat, j: nat :: IsDir(owner, d) && 512 <= i < 1024 && j < 1024 ==> !ForUser(Mapping(mem, d, i, j))
  }

  lemma CutKernel(owner: Owners, mem: Mem, owner': Owners, mem': Mem, d: nat, lo: nat, hi: nat)
    requires Cut(owner, mem, owner', mem', d, lo, hi)
    ensures KernelOnly(owner, mem) ==> KernelOnly(owner', mem')
  {
  }

  lemma GivenUpKernel(owner: Owners, mem: Mem, owner': Owners, mem': Mem, d: nat)
    requires GivenUp(owner, owner', d)
    requires forall d': nat, i: nat, j: nat :: IsDir(owner', d') && i < 1024 && j < 1024 ==>
             Mapping(mem', d', i, j) == Mapping(mem, d', i, j)
    ensures KernelOnly(owner, mem) ==> KernelOnly(owner', mem')
  {
  }

  lemma AddedKernel(owner: Owners, mem: Mem, owner': Owners, mem': Mem, d: nat, lo: nat, hi: nat)
    requires Added(owner, mem, owner', mem', d, lo, hi) && hi <= 0x8_0000
    ensures KernelOnly(owner, mem) ==> KernelOnly(owner', mem')
  {
  }

  lemma UndoneKernel(owner: Owners, mem: Mem, owner': Owners, mem': Mem, d: nat, lo: nat, hi: nat)
    requires Undone(owner, mem, owner', mem', d, lo, hi, {})
    ensures KernelOnly(owner, mem) ==> KernelOnly(owner', mem')
  {
  }

  lemma SetupKernel(owner: Owners, mem: Mem, owner': Owners, mem': Mem, d: nat, data: nat)
    requires OthersSame(owner, mem, mem') && Grew(owner[d := Dir], owner', d) && HasKernel(mem', d, data, 4)
    ensures KernelOnly(owner, mem) ==> KernelOnly(owner', mem')
  {
    if KernelOnly(owner, mem) {
      forall d': nat, i: nat, j: nat | IsDir(owner', d') && 512 <= i < 1024 && j < 1024
        ensures !ForUser(Mapping(mem', d', i, j))
      {
        if d' == d {
          assert !ForUser(KernelUpTo(data, 4, PageNo(i, j)));
        } else {
          assert IsDir(owner, d');
        }
      }
    }
  }

  lemma SameKernel(owner: Owners, mem: Mem, mem': Mem)
    requires OthersSame(owner, mem, mem')
    ensures KernelOnly(owner, mem) ==> KernelOnly(owner, mem')
  {
  }

  // ---------- taking a page from the user ----------

  function Closed(perm: nat): nat {
    if perm / 4 % 2 == 1 then perm - PTE_U else perm
  }

  function ClosedPte(pte: Pte): Pte {
    if pte.Page? then Page(pte.frame, Closed(pte.perm)) else pte
  }

  /** Changing permissions does not matter to ownership. */
  lemma SameFrames(mem: Mem, owner: Owners, mem': Mem, d: nat, i: nat, j: nat)
    requires Users(mem, owner) && MapsExcept(owner, mem, mem', d, i, j, ClosedPte(Mapping(mem, d, i, j)))
    ensures Users(mem', owner)
  {
    hide Mapping;
  }

  lemma AddressIn(a: nat)
    requires a < WORD
    ensures Pdx(a) < 1024 && Ptx(a) < 1024
  {
  }

  lemma ClosedEntry(mem: Mem, owner: Owners, d: nat, i: nat, j: nat)
    requires Tables(mem, owner) && Users(mem, owner) && IsDir(owner, d) && Entry(mem, d, i).Page? && j < 1024
    ensures var t := Entry(mem, d, i).frame;
            && t in mem && |mem[t]| == 1024
            && var m := mem[t := mem[t][j := ClosedPte(Mapping(mem, d, i, j))]];
               && Tables(m, owner) && Users(m, owner) && MapsExcept(owner, mem, m, d, i, j, ClosedPte(Mapping(mem, d, i, j)))
               && (KernelOnly(owner, mem) ==> KernelOnly(owner, m))
  {
    var t := Entry(mem, d, i).frame;
    SetEntry(mem, owner, d, i, t, j, ClosedPte(Mapping(mem, d, i, j)));
    var m := mem[t := mem[t][j := ClosedPte(Mapping(mem, d, i, j))]];
    hide Mapping, Tables, Users, KernelOnly;
    assert MapsExcept(owner, mem, m, d, i, j, ClosedPte(Mapping(mem, d, i, j)));
    SameFrames(mem, owner, m, d, i, j);
    ClosedKernel(mem, owner, m, d, i, j);
  }

  lemma ClosedKernel(mem: Mem, owner: Owners, mem': Mem, d: nat, i: nat, j: nat)
    requires MapsExcept(owner, mem, mem', d, i, j, ClosedPte(Mapping(mem, d, i, j)))
    ensures KernelOnly(owner, mem) ==> KernelOnly(owner, mem')
  {
    hide Mapping;
  }

  // ---------- filling the allocator ----------

  /** The frame is a whole page between two kernel addresses. */
  predicate FrameIn(vstart: nat, vend: nat, f: nat) {
    vstart <= KERNBASE + f * 4096 && KERNBASE + f * 4096 + 4096 <= vend
  }

  /** The frame that a kernel address is in. */
  function FrameOf(v: nat): nat
    requires v >= KERNBASE
  {
    (v - KERNBASE) / 4096
  }

  lemma FirstFrame(vstart: nat)
    requires KERNBASE < vstart <= KERNBASE + PHYSTOP
    ensures PageUp(vstart) == KERNBASE + Pages(vstart - KERNBASE) * 4096 && Pages(vstart - KERNBASE) > 0
  {
  }

  lemma NextFrame(vstart: nat, vend: nat, q: nat)
    requires KERNBASE < vstart && Pages(vstart - KERNBASE) <= q && KERNBASE + q * 4096 + 4096 <= vend <= KERNBASE + PHYSTOP
    ensures FrameIn(vstart, vend, q) && 0 < q < 0x10_0000 && FrameOf(KERNBASE + q * 4096) == q
  {
  }

  lemma AllFrames(vstart: nat, vend: nat, f: nat, q: nat)
    requires KERNBASE < vstart && Pages(vstart - KERNBASE) <= q && KERNBASE + q * 4096 + 4096 > vend
    requires q == Pages(vstart - KERNBASE) || KERNBASE + q * 4096 <= vend
    ensures Pages(vstart - KERNBASE) <= f < q <==> FrameIn(vstart, vend, f)
  {
  }

  /** A new frame joins the pool in order to be freed. */
  lemma Adopted(pool: set<nat>, free: seq<nat>, owner: Owners, mem: Mem, f: nat)
    requires Divided(pool, free, owner) && Bounded(pool) && Tables(mem, owner) && Users(mem, owner) && f !in pool &&
             0 < f < 0x10_0000
    ensures Divided(pool + {f}, free, owner[f := Loose]) && Bounded(pool + {f}) && f !in owner
    ensures Tables(mem - {f}, owner) && Users(mem - {f}, owner) && owner[f := Loose] - {f} == owner
  {
    LooseTables(mem, owner, f);
    Erase(mem, owner[f := Loose], f);
    TablesFrame(mem - {f}, owner[f := Loose], owner);
    forall d ensures IsDir(owner[f := Loose], d) <==> IsDir(owner, d) {
    }
    UsersFrame(mem, owner, mem - {f}, owner);
  }

  class Vm {
    var head: nat  // kmem.freelist
    var next: map<nat, nat>
    var mem: Mem
    ghost var pool: set<nat>
    ghost var free: seq<nat>
    ghost var owner: Owners

    ghost predicate Frames()
      reads this
    {
      Listed(free, head, next) && Divided(pool, free, owner) && Bounded(pool)
    }

    ghost predicate Valid()
      reads this
    {
      Frames() && Tables(mem, owner) && Users(mem, owner)
    }

    constructor ()
      ensures Valid() && pool == {} && owner == map[]
    {
      head, next, mem := 0, map[], map[];
      pool, free, owner := {}, [], map[];
    }

    /** Gives a frame back; the contents are gone. */
    method Kfree(f: nat)
      requires Frames() && f in owner
      modifies this`head, this`next, this`mem, this`free, this`owner
      ensures Frames() && free == [f] + old(free) && owner == old(owner) - {f} && mem == old(mem) - {f}
    {
      Pushed(pool, free, head, next, owner, f);
      mem := mem - {f};
      next := next[f := head];
      head := f;
      free, owner := [f] + free, owner - {f};
    }

    /** Takes a frame for the given use, or fails when none is free. */
    method Kalloc(ghost use: Owner) returns (f: nat)
      requires Frames()
      modifies this`head, this`free, this`owner
      ensures Frames()
      ensures f == 0 ==> old(free) == [] && free == old(free) && owner == old(owner)
      ensures f != 0 ==> old(free) != [] && f == old(free)[0] && free == old(free)[1..]
      ensures f != 0 ==> f !in old(owner) && owner == old(owner)[f := use]
    {
      f := head;
      if f != 0 {
        Popped(pool, free, head, next, owner, use);
        head := next[f];
        free, owner := free[1..], owner[f := use];
      }
    }

    /** Gives the frames of the whole pages between two kernel addresses to the allocator. */
    method Freerange(vstart: nat, vend: nat)
      requires Valid() && KERNBASE < vstart <= KERNBASE + PHYSTOP && KERNBASE < vend <= KERNBASE + PHYSTOP
      requires forall f :: FrameIn(vstart, vend, f) ==> f !in pool
      modifies this
      ensures Valid() && owner == old(owner) && forall f: nat :: f in pool <==> f in old(pool) || FrameIn(vstart, vend, f)
    {
      hide Tables, Users, Listed, PageUp, FrameIn, Divided, Bounded;
      FirstFrame(vstart);
      var p := PageUp(vstart);
      ghost var q := Pages(vstart - KERNBASE);
      ghost var lo := q;
      while p + PAGE <= vend
        invariant p == KERNBASE + q * 4096 && lo <= q && (q == lo || p <= vend)
        invariant Valid() && owner == old(owner) && forall f: nat :: f in pool <==> f in old(pool) || lo <= f < q
      {
        NextFrame(vstart, vend, q);
        assert q !in pool;
        Adopted(pool, free, owner, mem, q);
        pool, owner := pool + {q}, owner[q := Loose];
        Kfree(FrameOf(p));
        assert owner == old(owner);
        p := p + PAGE;
        q := q + 1;
      }
      forall f: nat ensures lo <= f < q <==> FrameIn(vstart, vend, f) {
        AllFrames(vstart, vend, f, q);
      }
    }

    /** The page table of `va`, created if asked for and needed; null when it is missing or no frame is left. */
    method Walkpgdir(d: nat, va: nat, alloc: bool) returns (t: Option<nat>)
      requires Frames() && Tables(mem, owner) && IsDir(owner, d) && va < WORD
      modifies this
      ensures Frames() && Tables(mem, owner) && Grew(old(owner), owner, d) && pool == old(pool)
      ensures forall d': nat, i: nat, j: nat :: IsDir(old(owner), d') ==> Mapping(mem, d', i, j) == old(Mapping(mem, d', i, j))
      ensures t.Some? ==> Entry(mem, d, Pdx(va)).Page? && t.value == Entry(mem, d, Pdx(va)).frame
      ensures t.None? || old(Entry(mem, d, Pdx(va)).Page?) ==> mem == old(mem) && owner == old(owner) && free == old(free)
      ensures old(Entry(mem, d, Pdx(va)).Page?) ==> t.Some?
      ensures t.None? && alloc ==> free == []
      ensures !alloc ==> mem == old(mem) && owner == old(owner) && free == old(free)
      ensures t.Some? && old(Entry(mem, d, Pdx(va)).Absent?) ==>
                free != old(free) && old(free) == [t.value] + free && t.value !in old(owner) &&
                  owner == old(owner)[t.value := Table(d, Pdx(va))]
      ensures Taken(old(free), old(mem), free, mem, d, if t.Some? then {Pdx(va)} else {})
    {
      hide Taken;
      TakenNone(free, mem, d);
      var i := Pdx(va);
      assert Full(mem, d);
      var pde := mem[d][i];
      if pde.Page? {
        TakenPresent(free, mem, d, i);
        return Some(pde.frame);
      }
      if !alloc {
        return None;
      }
      var pgtab := Kalloc(Table(d, i));
      if pgtab == 0 {
        return None;
      }
      NewTable(mem, old(owner), d, i, pgtab, PTE_W + PTE_U);
      mem := mem[pgtab := Zeros()];
      mem := mem[d := mem[d][i := Page(pgtab, PTE_W + PTE_U)]];
      TakenTable(old(free), old(mem), free, mem, d, i, pgtab, PTE_W + PTE_U);
      t := Some(pgtab);
    }

    /** One round of mappages: the page at `a` is mapped, unless it is mapped already or no frame is left. */
    method MapPage(d: nat, a: nat, pa: nat, perm: nat) returns (r: MapResult)
      requires Frames() && Tables(mem, owner) && IsDir(owner, d) && a < WORD && pa < WORD
      modifies this
      ensures Frames() && Tables(mem, owner) && Grew(old(owner), owner, d) && pool == old(pool)
      ensures r.Mapped? <==> old(Mapping(mem, d, Pdx(a), Ptx(a))).Absent? && !r.NoMemory?
      ensures r.Mapped? ==> MapsExcept(old(owner), old(mem), mem, d, Pdx(a), Ptx(a), Page(PageOf(pa), perm))
      ensures !r.Mapped? ==> SameMappings(old(owner), old(mem), mem)
      ensures r.NoMemory? ==> free == [] && Pdx(a) !in Present(mem, d)
      ensures Taken(old(free), old(mem), free, mem, d, if r.Mapped? then {Pdx(a)} else {})
    {
      hide Listed, Divided, Taken;
      TakenNone(free, mem, d);
      ghost var i := Pdx(a);
      var j := Ptx(a);
      var t := Walkpgdir(d, a, true);
      GrewUsers(old(owner), owner, d);
      hide Tables, Grew;
      if t.None? {
        return NoMemory;
      }
      SetEntry(mem, owner, d, i, t.value, j, Page(PageOf(pa), perm));
      PresentKept(mem, owner, d, i, t.value, j, Page(PageOf(pa), perm));
      assert Mapping(mem, d, i, j) == mem[t.value][j];
      if mem[t.value][j].Page? {
        return Remap;
      }
      TakenSame(old(free), old(mem), free, mem, mem[t.value := mem[t.value][j := Page(PageOf(pa), perm)]], d, {i});
      mem := mem[t.value := mem[t.value][j := Page(PageOf(pa), perm)]];
      r := Mapped;
    }

    /**
     Maps the pages from that of `va` to that of `va + size - 1`, stopping by equality.  `k` pages are
     mapped before it ends: all of them, or those before memory ran out or a page was mapped already.
     */
    method Mappages(d: nat, va: nat, size: nat, pa: nat, perm: nat) returns (r: MapResult, ghost k: nat)
      requires Frames() && Tables(mem, owner) && IsDir(owner, d)
      requires va < WORD && size < WORD && pa < WORD && pa % 4096 == 0
      modifies this
      ensures Frames() && Tables(mem, owner) && Grew(old(owner), owner, d) && pool == old(pool)
      ensures PageOf(va) < 0x10_0000 && MapsRange(old(owner), old(mem), mem, d, PageOf(va), k, PageOf(pa), perm)
      ensures var n := Steps(PageOf(va), PageOf(LastByte(va, size))) + 1;
              k <= n && (r.Mapped? <==> k == n)
      ensures r.NoMemory? ==> free == [] && TableOf(After(PageOf(va), k)) !in Present(mem, d)
      ensures Taken(old(free), old(mem), free, mem, d, TablesOf(PageOf(va), k))
      ensures r.Remap? ==> old(Mapping(mem, d, TableOf(After(PageOf(va), k)), SlotOf(After(PageOf(va), k)))).Page?
    {
      hide *;
      FirstPage(va, PageOf(va));
      FirstPage(LastByte(va, size), PageOf(LastByte(va, size)));
      FirstPage(pa, PageOf(pa));
      MapsNone(owner, mem, d, PageOf(va), PageOf(pa), perm);
      GrewNone(owner, d);
      NoTables(free, mem, d, PageOf(va));
      var a := PageDown(va);
      var last := PageDown(LastByte(va, size));
      var pa := pa;
      ghost var first, frame, end := PageOf(va), PageOf(pa), PageOf(LastByte(va, size));
      AfterSteps(first, end);
      ghost var n := Steps(first, end) + 1;
      k := 0;
      while true
        invariant Frames() && Tables(mem, owner) && IsDir(owner, d) && Grew(old(owner), owner, d) && pool == old(pool)
        invariant 0 <= k < n && a == After(first, k) * 4096 && pa == After(frame, k) * 4096
        invariant MapsRange(old(owner), old(mem), mem, d, first, k, frame, perm)
        invariant Taken(old(free), old(mem), free, mem, d, TablesOf(first, k))
        decreases n - k
      {
        StepsAfter(first, k);
        StepsAfter(frame, k);
        PageOfAddress(a, After(first, k));
        PageOfAddress(pa, After(frame, k));
        label round:
        r := MapPage(d, a, pa, perm);
        PlaceOf(Pdx(a), Ptx(a));
        TakenMore(old(free), old(mem), old@round(free), old@round(mem), free, mem, d, first, k);
        GrewTwice(old(owner), old@round(owner), owner, d);
        GrewUsers(old(owner), owner, d);
        if !r.Mapped? {
          MapsSame(old(owner), old@round(owner), old(mem), old@round(mem), mem, d, Pdx(a), Ptx(a), first, k, frame, perm);
          return;
        }
        MapsOneMore(old(owner), old@round(owner), old(mem), old@round(mem), mem, d, Pdx(a), Ptx(a), first, k, frame, perm);
        LastPage(first, k, end);
        if a == last {
          return Mapped, k + 1;
        }
        NextPage(first, k, a);
        NextPage(frame, k, pa);
        a := Onward(a);
        pa := Onward(pa);
        k := k + 1;
      }
    }

    /** One round of deallocuvm: the page at `a` is freed if it is mapped.  Tells whether there is a page table. */
    method DropPage(d: nat, a: nat) returns (table: bool)
      requires Valid() && IsDir(owner, d) && a < KERNBASE
      modifies this
      ensures Valid() && pool == old(pool) && table == old(Entry(mem, d, Pdx(a)).Page?) && IsDir(owner, d)
      ensures !table ==> mem == old(mem)
      ensures owner == old(owner - Victim(mem, d, Pdx(a), Ptx(a)))
      ensures MapsExcept(old(owner), old(mem), mem, d, Pdx(a), Ptx(a), Absent)
    {
      hide Listed, Divided, Tables, Users, MapsExcept, Grew;
      ghost var i := Pdx(a);
      var j := Ptx(a);
      var t := Walkpgdir(d, a, false);
      table := t.Some?;
      if t.None? {
        DropNothing(mem, owner, d, i, j);
        return;
      }
      TableFull(mem, owner, d, i);
      if mem[t.value][j].Page? {
        var f := mem[t.value][j].frame;
        DropFacts(mem, owner, d, i, t.value, j, f);
        Kfree(f);
        mem := mem[t.value := mem[t.value][j := Absent]];
      } else {
        DropNothing(mem, owner, d, i, j);
      }
    }

    /** Frees exactly the user pages of `d` from page Pages(newsz) up to Pages(oldsz). */
    method Deallocuvm(d: nat, oldsz: nat, newsz: nat) returns (r: nat)
      requires Valid() && IsDir(owner, d) && oldsz <= KERNBASE && newsz < WORD
      modifies this
      ensures Valid() && pool == old(pool) && IsDir(owner, d) && r == if newsz >= oldsz then oldsz else newsz
      ensures Cut(old(owner), old(mem), owner, mem, d, Pages(newsz), Pages(oldsz))
      ensures old(KernelOnly(owner, mem)) ==> KernelOnly(owner, mem)
    {
      hide KernelOnly, Listed, Divided, Bounded, Tables, Users, Cut, MapsExcept, Pages, PageUp, Pdx, Ptx, PageNo,
           SkipTo, Victim, Entry;
      ghost var lo, hi := Pages(newsz), Pages(oldsz);
      if newsz >= oldsz {
        PagesOrder(oldsz, newsz);
        CutNone(owner, mem, d, lo, hi);
        CutKernel(old(owner), old(mem), owner, mem, d, lo, hi);
        return oldsz;
      }
      PagesOrder(newsz, oldsz);
      PageUpIs(newsz);
      CutNone(owner, mem, d, lo, lo);
      var a := PageUp(newsz);
      ghost var p := lo;
      while a < oldsz
        invariant a == p * 4096 && lo <= p
        invariant Valid() && pool == old(pool) && IsDir(owner, d)
        invariant Cut(old(owner), old(mem), owner, mem, d, lo, if p < hi then p else hi)
      {
        StartsBelow(p, oldsz);
        UserTable(p);
        ghost var i := Pdx(a);
        label round:
        var table := DropPage(d, a);
        CutOneMore(old(owner), old(mem), old@round(owner), old@round(mem), owner, mem, d, lo, p, i, Ptx(a));
        if !table {
          ghost var q := i * 1024 + 1024;
          CutSkip(old(owner), old(mem), owner, mem, d, lo, p + 1, if q < hi then q else hi, i);
          SkipToIs(p);
          a := SkipTo(a);
          p := q - 1;
        }
        a := a + PAGE;
        p := p + 1;
      }
      StartsBelow(p, oldsz);
      CutKernel(old(owner), old(mem), owner, mem, d, lo, hi);
      r := newsz;
    }

    /** Gives up the address space of `d`: its user pages, its page tables and the directory, and nothing else. */
    method Freevm(d: nat)
      requires Valid() && IsDir(owner, d)
      modifies this
      ensures Valid() && pool == old(pool) && GivenUp(old(owner), owner, d)
      ensures forall d': nat, i: nat, j: nat :: IsDir(owner, d') && i < 1024 && j < 1024 ==>
              Mapping(mem, d', i, j) == old(Mapping(mem, d', i, j))
      ensures old(KernelOnly(owner, mem)) ==> KernelOnly(owner, mem)
    {
      hide KernelOnly, Listed, Divided, Bounded, Tables, Users, Cut, Pages, GivenUp, SameMappings, TablesFreed, Mapping;
      var _ := Deallocuvm(d, KERNBASE, 0);
      NoUsersLeft(old(owner), old(mem), owner, mem, d);
      ghost var owner', mem' := owner, mem;
      NoneFreed(owner, mem, d);
      for i := 0 to 1024
        invariant Frames() && pool == old(pool) && TablesFreed(owner', mem', owner, mem, d, i)
      {
        FreeTable(owner', mem', owner, mem, d, i);
        if mem[d][i].Page? {
          Kfree(mem[d][i].frame);
        }
      }
      AllTablesFreed(owner', mem', owner, mem, d);
      Kfree(d);
      GivenUpAll(old(owner), old(mem), owner', mem', owner, mem, d);
      GivenUpKernel(old(owner), old(mem), owner, mem, d);
    }

    /** The part of allocuvm that maps the frame `f`, which it has just taken, at page `p`. */
    method AddUserPage(d: nat, a: nat, f: nat, ghost owner': Owners, ghost p: nat) returns (r: MapResult)
      requires Frames() && Tables(mem, owner') && Users(mem, owner') && f !in owner' && owner == owner'[f := Loose] &&
               f < 0x10_0000
      requires IsDir(owner', d) && a == p * 4096 && p < 0x8_0000
      modifies this
      ensures Frames() && Tables(mem, owner) && pool == old(pool) && IsDir(owner, d)
      ensures r.Mapped? ==>
                && f in owner && owner[f] == User(d, Pdx(a), Ptx(a)) && Grew(old(owner), owner[f := Loose], d)
                && MapsExcept(old(owner), old(mem), mem, d, Pdx(a), Ptx(a), Page(f, PTE_W + PTE_U)) &&
                  old(Mapping(mem, d, Pdx(a), Ptx(a))).Absent?
      ensures r.NoMemory? ==> Grew(old(owner), owner, d) && MapsRange(old(owner), old(mem), mem, d, p, 0, f, PTE_W + PTE_U)
      ensures r.Remap? ==> old(Mapping(mem, d, Pdx(a), Ptx(a))).Page?
      ensures r.Mapped? ==> Taken(old(free), old(mem), free, mem, d, {TableOf(p)})
      ensures r.NoMemory? ==> old(free) == [] && TableOf(p) !in old(Present(mem, d))
    {
      hide Listed, Divided, Bounded, Tables, Users, Grew, MapsRange, MapsExcept, Taken, Present, TablesOf,
           Pdx, Ptx, PageNo, PageOf, Steps, After, TableOf, SlotOf, LastByte, Mapping;
      LooseTables(mem, owner', f);
      OnePage(p);
      UserTable(p);
      PageOfAddress(f * 4096, f);
      ghost var k;
      r, k := Mappages(d, a, PAGE, f * 4096, PTE_W + PTE_U);
      OneTaken(old(free), old(mem), free, mem, d, p, k);
      GrewUsers(old(owner), owner, d);
      if r.Mapped? {
        RangeOfOne(old(mem), old(owner), mem, owner, d, p, Pdx(a), Ptx(a), f, PTE_W + PTE_U);
        StillLoose(old(owner), owner, d, f);
        UserTables(mem, owner, f, d, Pdx(a), Ptx(a));
        Reowned(pool, free, owner, f, User(d, Pdx(a), Ptx(a)));
        ghost var o := owner;
        owner := owner[f := User(d, Pdx(a), Ptx(a))];
        assert owner[f := Loose] == o;
      }
    }

    /**
     Grows the address space to `newsz`.  Out of memory, it takes back all pages it has added; page
     tables it has added stay with the directory.  It panics exactly when one of the pages is mapped already
     and memory lasts until it comes to that page.
     */
    method Allocuvm(d: nat, oldsz: nat, newsz: nat) returns (r: nat, end: AllocEnd)
      requires Valid() && IsDir(owner, d) && oldsz < WORD && newsz < WORD
      modifies this
      ensures pool == old(pool) && (!end.Panicked? ==> Valid() && IsDir(owner, d))
      ensures match end
              case TooBig => newsz >= KERNBASE && r == 0 && unchanged(this)
              case NotLarger => newsz < KERNBASE && newsz < oldsz && r == oldsz && unchanged(this)
              case Grown => oldsz <= newsz < KERNBASE && r == newsz && Pages(oldsz) <= Pages(newsz) &&
                Added(old(owner), old(mem), owner, mem, d, Pages(oldsz), Pages(newsz)) &&
                |old(free)| == |free| + Need(old(mem), d, Pages(oldsz), Pages(newsz)) &&
                Present(mem, d) == old(Present(mem, d)) + TablesOf(Pages(oldsz), Pages(newsz) - Pages(oldsz))
              case OutOfMemory => oldsz <= newsz < KERNBASE && r == 0 && Pages(oldsz) <= Pages(newsz) &&
                Undone(old(owner), old(mem), owner, mem, d, Pages(oldsz), Pages(newsz), {})
              case Panicked => newsz < KERNBASE && oldsz <= newsz && Pages(oldsz) <= Pages(newsz)
      ensures oldsz <= newsz < KERNBASE ==>
                && Pages(oldsz) <= Pages(newsz)
                && (end.OutOfMemory? <==> |old(free)| < Wanted(old(mem), d, Pages(oldsz), Pages(newsz)))
                && (!end.OutOfMemory? ==>
                      (end.Panicked? <==> FirstMapped(old(mem), d, Pages(oldsz), Pages(newsz)) < Pages(newsz)))
      ensures old(KernelOnly(owner, mem)) && !end.Panicked? ==> KernelOnly(owner, mem)
    {
      hide KernelOnly, Listed, Divided, Bounded, Tables, Users, Cut, Undone, Grew, MapsAdded, OwnersAdded, MapsRange,
           MapsExcept,
           Pages, PageUp, Pdx, Ptx, PageNo, PageOf, Steps, After, TableOf, SlotOf, LastByte, Mapping, Need, PaidFor,
           Taken, Present, PageMapped, FirstMapped, Wanted;
      if newsz >= KERNBASE {
        return 0, TooBig;
      }
      if newsz < oldsz {
        return oldsz, NotLarger;
      }
      ghost var lo, hi := Pages(oldsz), Pages(newsz);
      PagesOrder(oldsz, newsz);
      PageUpIs(oldsz);
      AddedNone(owner, mem, d, lo);
      PaidNone(mem, free, d, lo);
      var a := PageUp(oldsz);
      ghost var p := lo;
      while a < newsz
        invariant a == p * 4096 && lo <= p <= hi
        invariant Valid() && pool == old(pool) && IsDir(owner, d)
        invariant Added(old(owner), old(mem), owner, mem, d, lo, p) && PaidFor(|old(free)|, old(mem), free, mem, d, lo, p)
      {
        StartsBelow(p, newsz);
        label round:
        var mem' := Kalloc(Loose);
        AddedUnmapped(old(owner), old(mem), old@round(owner), old@round(mem), d, lo, p);
        if mem' == 0 {
          RanOut(|old(free)|, old(mem), free, mem, d, lo, p, hi);
          var _ := Deallocuvm(d, newsz, oldsz);
          RollBack(old(owner), old(mem), old@round(owner), old@round(mem), owner, mem, d, lo, p, hi, {});
          UndoneKernel(old(owner), old(mem), owner, mem, d, lo, hi);
          return 0, OutOfMemory;
        }
        InPool(pool, free, owner, mem');
        UserTable(p);
        label taken:
        var result := AddUserPage(d, a, mem', old@round(owner), p);
        PageAsBefore(old(owner), old(mem), old@round(owner), old@round(mem), d, lo, p);
        if result.Remap? {
          MetMapped(|old(free)|, old(mem), old@round(free), old@round(mem), d, lo, p, hi);
          return 0, Panicked;
        }
        if result.NoMemory? {
          TableMissing(old@round(mem), d, p);
          RanOut(|old(free)|, old(mem), old@round(free), old@round(mem), d, lo, p, hi);
          LooseTables(old@round(mem), old@round(owner), mem');
          AddNothing(old(owner), old(mem), old@round(owner), old@round(mem), old@taken(owner), owner, mem, d, lo, p,
                     mem', p, mem',
                     PTE_W + PTE_U);
          GrewUsers(old@taken(owner), owner, d);
          StillLoose(old@taken(owner), owner, d, mem');
          NotBefore(old(owner), old(mem), old@round(owner), old@round(mem), d, lo, p, mem');
          ghost var owner', m' := owner, mem;
          var _ := Deallocuvm(d, newsz, oldsz);
          RollBack(old(owner), old(mem), owner', m', owner, mem, d, lo, p, hi, {mem'});
          LooseStays(owner', m', owner, mem, d, lo, hi, mem');
          DropExtra(old(owner), old(mem), owner, mem, d, lo, hi, mem');
          Kfree(mem');
          UndoneKernel(old(owner), old(mem), owner, mem, d, lo, hi);
          return 0, OutOfMemory;
        }
        AddPage(old(owner), old(mem), old@round(owner), old@round(mem), old@taken(owner), owner[mem' := Loose], mem,
                d, lo, p, Pdx(a), Ptx(a), mem');
        assert owner[mem' := Loose][mem' := User(d, Pdx(a), Ptx(a))] == owner;
        PaidOne(|old(free)|, old(mem), old@round(free), old@round(mem), old@taken(free), free, mem, d, lo, p);
        a := a + PAGE;
        p := p + 1;
      }
      StartsBelow(p, newsz);
      PaidAll(|old(free)|, old(mem), free, mem, d, lo, hi);
      AddedUnmapped(old(owner), old(mem), owner, mem, d, lo, hi);
      NoneMapped(old(mem), d, lo, hi);
      AddedKernel(old(owner), old(mem), owner, mem, d, lo, hi);
      r, end := newsz, Grown;
    }

    /** A new address space that maps exactly the kernel's map; without enough memory, everything is as before. */
    method Setupkvm(data: nat) returns (d: nat)
      requires Valid() && 0x100 < data < 0xE000
      modifies this
      ensures Valid() && pool == old(pool) && OthersSame(old(owner), old(mem), mem)
      ensures d == 0 <==> |old(free)| < 65
      ensures d == 0 ==> owner == old(owner)
      ensures d != 0 ==> |old(free)| == |free| + 65 && Present(mem, d) == KernelTables()
      ensures d != 0 ==>
                && d !in old(owner) && Grew(old(owner)[d := Dir], owner, d)
                && forall i: nat, j: nat :: i < 1024 && j < 1024 ==> Mapping(mem, d, i, j) == KernelMap(data, PageNo(i, j))
      ensures old(KernelOnly(owner, mem)) ==> KernelOnly(owner, mem)
    {
      hide KernelOnly, Listed, Divided, Bounded, Tables, Users, Grew, MapsRange, GivenUp, HasKernel, OthersSame,
           Zeros, SameMappings,
           PageNo, PageOf, Steps, After, TableOf, SlotOf, LastByte, Mapping, Size, First, Limit, RowFrame, Kmap,
           KernelMap, KernelUpTo, PaidKernel, Taken, Present, TablesOf, KernelTables;
      d := Kalloc(Dir);
      if d == 0 {
        SameOthers(old(owner), old(mem));
        return;
      }
      FreshDir(old(mem), old(owner), d, mem[d := Zeros()], data);
      PaidDirectory(|old(free)|, free, mem, d);
      mem := mem[d := Zeros()];
      GrewNone(owner, d);
      var kmap := Kmap(data);
      for k := 0 to 4
        invariant Valid() && pool == old(pool) && IsDir(owner, d) && d !in old(owner)
        invariant Grew(old(owner)[d := Dir], owner, d) && OthersSame(old(owner), old(mem), mem) && HasKernel(mem, d, data, k)
        invariant PaidKernel(|old(free)|, free, mem, d)
      {
        RowIs(data, k);
        RowFrameIs(data, k);
        label row:
        var r;
        ghost var n;
        r, n := Mappages(d, kmap[k].virt, Size(kmap[k]), kmap[k].start, kmap[k].perm);
        PaidRow(|old(free)|, old@row(free), old@row(mem), free, mem, d, data, k, n);
        GrewUsers(old@row(owner), owner, d);
        GrewTwice(old(owner)[d := Dir], old@row(owner), owner, d);
        OthersStill(old(owner), old(mem), old@row(owner), old@row(mem), mem, d, First(data, k), n, RowFrame(data, k),
                    kmap[k].perm);
        RowLeavesUsers(old@row(owner), old@row(mem), owner, mem, d, data, k, n, RowFrame(data, k), kmap[k].perm);
        if !r.Mapped? {
          RowIsNew(old@row(mem), d, data, k, n);
          assert r.NoMemory?;
          ghost var owner', mem' := owner, mem;
          Freevm(d);
          SetupUndone(old(owner), old(mem), owner', mem', owner, mem, d);
          SameKernel(owner, old(mem), mem);
          return 0;
        }
        RowMapped(old@row(owner), old@row(mem), owner, mem, d, data, k);
      }
      KernelPaid(|old(free)|, free, mem, d, data);
      SetupKernel(old(owner), old(mem), owner, mem, d, data);
      AllRows(mem, d, data);
    }

    /** clearpteu: the page at `a` is no longer for the user.  It panics exactly without a page table. */
    method Clearpteu(d: nat, a: nat) returns (ok: bool)
      requires Valid() && IsDir(owner, d) && a < WORD
      modifies this`mem
      ensures Valid() && (ok <==> Entry(old(mem), d, Pdx(a)).Page?) && (!ok ==> mem == old(mem))
      ensures ok ==> MapsExcept(owner, old(mem), mem, d, Pdx(a), Ptx(a), ClosedPte(old(Mapping(mem, d, Pdx(a), Ptx(a)))))
      ensures old(KernelOnly(owner, mem)) ==> KernelOnly(owner, mem)
    {
      hide KernelOnly, Listed, Divided, Bounded, Users, Pdx, Ptx;
      AddressIn(a);
      var i, j := Pdx(a), Ptx(a);
      assert Full(mem, d);
      var pde := mem[d][i];
      if pde.Absent? {
        return false;
      }
      hide Tables, MapsExcept;
      TableFull(mem, owner, d, i);
      assert mem[pde.frame][j] == Mapping(mem, d, i, j);
      ClosedEntry(mem, owner, d, i, j);
      mem := mem[pde.frame := mem[pde.frame][j := ClosedPte(mem[pde.frame][j])]];
      return true;
    }
  }
}
