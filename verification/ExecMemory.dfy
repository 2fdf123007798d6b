/**
 How exec makes an address space (exec.c): the kernel map, the segments of the program, and two pages for the
 stack, the lower of which is closed to the user.

 `ends` are the ends of the segments in the order of the program headers, as exec passes them to allocuvm.
 */
module ExecMemory {
  import opened Counting
  import opened PageTables
  import opened VirtualMemory

  /** The page tables for the user pages of a size. */
  function TableCount(sz: nat): nat {
    (Pages(sz) + 1023) / 1024
  }

  /** The frames of an address space: 65 for the kernel map, one for each page and one for each 1024 pages. */
  function FramesFor(sz: nat): (n: nat)
    ensures n >= 65
  {
    65 + Pages(sz) + TableCount(sz)
  }

  /** User pages below `sz`, the kernel map above. */
  ghost predicate SpaceOf(mem: Mem, d: nat, data: nat, sz: nat) {
    forall i: nat, j: nat :: i < 1024 && j < 1024 ==>
      if PageNo(i, j) < Pages(sz) then Mapping(mem, d, i, j).Page? && Mapping(mem, d, i, j).perm == PTE_W + PTE_U
      else Mapping(mem, d, i, j) == KernelMap(data, PageNo(i, j))
  }

  /** The same, with page `guard` closed to the user. */
  ghost predicate GuardedSpace(mem: Mem, d: nat, data: nat, sz: nat, guard: nat) {
    forall i: nat, j: nat :: i < 1024 && j < 1024 ==>
      if PageNo(i, j) < Pages(sz) then
        && Mapping(mem, d, i, j).Page?
        && Mapping(mem, d, i, j).perm == if PageNo(i, j) == guard then PTE_W else PTE_W + PTE_U
      else Mapping(mem, d, i, j) == KernelMap(data, PageNo(i, j))
  }

  /** Only frames of the address space of `d` have been added. */
  ghost predicate Extended(owner: Owners, owner': Owners, d: nat) {
    && (forall f :: f in owner ==> f in owner' && owner'[f] == owner[f])
    && (forall f :: f in owner' && f !in owner ==> Belongs(owner'[f], d, f))
  }

  // ---------- how many frames ----------

  ghost function TablesFor(sz: nat): set<nat> {
    KernelTables() + Numbers(0, TableCount(sz))
  }

  lemma {:induction false} TablesBetween(lo: nat, hi: nat)
    requires lo < hi <= 0x8_0000
    ensures TablesOf(lo, hi - lo) == Numbers(lo / 1024, (hi + 1023) / 1024)
    decreases hi - lo
  {
    hide TableOf, After, Numbers;
    LastTable(lo, hi);
    NumbersGrow(lo / 1024, TableOf(After(lo, hi - 1 - lo)));
    if hi == lo + 1 {
      assert TablesOf(lo, 0) == {};
    } else {
      TablesBetween(lo, hi - 1);
    }
  }

  lemma LastTable(lo: nat, hi: nat)
    requires lo < hi <= 0x8_0000
    ensures var q := TableOf(After(lo, hi - 1 - lo));
            && lo / 1024 <= q && (hi + 1023) / 1024 == q + 1
            && (hi == lo + 1 ==> lo / 1024 == q)
            && (hi > lo + 1 ==> (hi - 1 + 1023) / 1024 == q + 1 || ((hi - 1 + 1023) / 1024 == q && lo / 1024 < q))
  {
  }

  lemma NumbersGrow(a: nat, q: nat)
    requires a <= q
    ensures Numbers(a, q + 1) == Numbers(a, q) + {q} && Numbers(a, q + 1) == Numbers(a, q + 1) + {q} && Numbers(q, q) == {}
  {
  }

  /** The tables for [lo, hi) beyond those for [0, lo). */
  lemma NewTables(lo: nat, hi: nat)
    requires lo <= hi <= 0x8_0000
    ensures var old', all := KernelTables() + Numbers(0, (lo + 1023) / 1024), KernelTables() + Numbers(0, (hi + 1023) / 1024);
            old' + TablesOf(lo, hi - lo) == all && |TablesOf(lo, hi - lo) - old'| == (hi + 1023) / 1024 - (lo + 1023) / 1024
  {
    hide Numbers, KernelTables, TableOf, After;
    var a, b := (lo + 1023) / 1024, (hi + 1023) / 1024;
    if lo == hi {
      assert TablesOf(lo, 0) == {};
    } else {
      TablesBetween(lo, hi);
      UserTables512(lo / 1024, a, b);
      HowMany(a, b);
    }
  }

  lemma UserTables512(c: nat, a: nat, b: nat)
    requires c <= a <= b <= 512
    ensures KernelTables() + Numbers(0, a) + Numbers(c, b) == KernelTables() + Numbers(0, b)
    ensures Numbers(c, b) - (KernelTables() + Numbers(0, a)) == Numbers(a, b)
  {
  }

  lemma FramesGrow(sz: nat, sz': nat)
    requires sz <= sz'
    ensures Pages(sz) <= Pages(sz') && FramesFor(sz) <= FramesFor(sz')
  {
  }

  lemma PagesWithin(sz: nat)
    requires sz <= KERNBASE
    ensures Pages(sz) <= 0x8_0000
  {
  }

  /** What it takes to grow a space. */
  lemma NeedBetween(mem: Mem, d: nat, sz: nat, sz': nat)
    requires sz <= sz' < KERNBASE && Present(mem, d) == TablesFor(sz)
    ensures Pages(sz) <= Pages(sz') && Need(mem, d, Pages(sz), Pages(sz')) + FramesFor(sz) == FramesFor(sz')
    ensures Present(mem, d) + TablesOf(Pages(sz), Pages(sz') - Pages(sz)) == TablesFor(sz')
  {
    hide Present, TablesOf, Numbers, KernelTables, Pages;
    FramesGrow(sz, sz');
    PagesWithin(sz');
    NewTables(Pages(sz), Pages(sz'));
  }

  lemma NoneMappedAbove(mem: Mem, d: nat, data: nat, sz: nat, sz': nat)
    requires SpaceOf(mem, d, data, sz) && sz <= sz' < KERNBASE
    ensures Pages(sz) <= Pages(sz') && FirstMapped(mem, d, Pages(sz), Pages(sz')) == Pages(sz')
    ensures Wanted(mem, d, Pages(sz), Pages(sz')) == Need(mem, d, Pages(sz), Pages(sz'))
  {
    hide Mapping, Pages, Need, Pdx, Ptx, PageNo;
    FramesGrow(sz, sz');
    PagesWithin(sz');
    forall q | Pages(sz) <= q < Pages(sz') ensures !PageMapped(mem, d, q) {
      UserTable(q);
    }
    NoneMapped(mem, d, Pages(sz), Pages(sz'));
  }

  // ---------- the space while it is being made ----------

  /** A space of size `sz` stands beside what was there before, (o, m), and its frames are accounted for. */
  ghost predicate Standing(o: Owners, m: Mem, n: nat, owner: Owners, mem: Mem, free: seq<nat>, d: nat, data: nat, sz: nat) {
    && d !in o && IsDir(owner, d) && Extended(o, owner, d) && OthersSame(o, m, mem) && sz <= KERNBASE
    && SpaceOf(mem, d, data, sz) && |free| + FramesFor(sz) == n && Present(mem, d) == TablesFor(sz)
  }

  lemma StandingStart(o: Owners, m: Mem, n: nat, owner: Owners, mem: Mem, free: seq<nat>, d: nat, data: nat)
    requires d !in o && Grew(o[d := Dir], owner, d) && OthersSame(o, m, mem) && n == |free| + 65
    requires Present(mem, d) == KernelTables()
    requires forall i: nat, j: nat :: i < 1024 && j < 1024 ==> Mapping(mem, d, i, j) == KernelMap(data, PageNo(i, j))
    ensures Standing(o, m, n, owner, mem, free, d, data, 0)
  {
    hide Mapping, OthersSame, Present, KernelTables;
    assert Numbers(0, 0) == {};
  }

  lemma StandingGrown(o: Owners, m: Mem, n: nat, owner: Owners, mem: Mem, free: seq<nat>, owner': Owners, mem': Mem,
                      free': seq<nat>, d: nat, data: nat, sz: nat, sz': nat)
    requires Standing(o, m, n, owner, mem, free, d, data, sz) && sz <= sz' < KERNBASE && Pages(sz) <= Pages(sz')
    requires Added(owner, mem, owner', mem', d, Pages(sz), Pages(sz')) && IsDir(owner', d)
    requires |free| == |free'| + Need(mem, d, Pages(sz), Pages(sz'))
    requires Present(mem', d) == Present(mem, d) + TablesOf(Pages(sz), Pages(sz') - Pages(sz))
    ensures Standing(o, m, n, owner', mem', free', d, data, sz')
  {
    hide SpaceOf, Extended, OthersSame, FramesFor, Need, Present, TablesOf, Pages, Added, TablesFor;
    NeedBetween(mem, d, sz, sz');
    SpaceGrown(owner, mem, owner', mem', d, data, sz, sz');
    StillExtended(o, m, owner, mem, owner', mem', d, Pages(sz), Pages(sz'));
  }

  lemma SpaceGrown(owner: Owners, mem: Mem, owner': Owners, mem': Mem, d: nat, data: nat, sz: nat, sz': nat)
    requires SpaceOf(mem, d, data, sz) && Added(owner, mem, owner', mem', d, Pages(sz), Pages(sz')) && IsDir(owner, d)
    requires Pages(sz) <= Pages(sz')
    ensures SpaceOf(mem', d, data, sz')
  {
    hide Mapping, OwnersAdded, KernelMap, Pages;
  }

  lemma StillExtended(o: Owners, m: Mem, owner: Owners, mem: Mem, owner': Owners, mem': Mem, d: nat, lo: nat, hi: nat)
    requires d !in o && Extended(o, owner, d) && OthersSame(o, m, mem) && Added(owner, mem, owner', mem', d, lo, hi)
    ensures Extended(o, owner', d) && OthersSame(o, m, mem')
  {
    hide Mapping, PageNo;
    forall d': nat, i: nat, j: nat | IsDir(o, d') && i < 1024 && j < 1024
      ensures Mapping(mem', d', i, j) == Mapping(m, d', i, j)
    {
      assert IsDir(owner, d');
    }
  }

  lemma UndoneExtended(o: Owners, m: Mem, owner: Owners, mem: Mem, owner': Owners, mem': Mem, d: nat, lo: nat, hi: nat)
    requires Users(m, o) && d !in o && Extended(o, owner, d) && OthersSame(o, m, mem)
    requires Undone(owner, mem, owner', mem', d, lo, hi, {})
    ensures Extended(o, owner', d) && OthersSame(o, m, mem')
  {
    hide Mapping, PageNo;
    forall f | f in o ensures !(o[f].User? && o[f].dir == d) {
      if o[f].User? {
        assert IsDir(o, o[f].dir);
      }
    }
    forall d': nat, i: nat, j: nat | IsDir(o, d') && i < 1024 && j < 1024
      ensures Mapping(mem', d', i, j) == Mapping(m, d', i, j)
    {
      assert IsDir(owner, d');
    }
  }

  /** Giving up a new address space leaves every frame owned as before it was made. */
  lemma SpaceUndone(owner: Owners, mem: Mem, owner': Owners, owner'': Owners, d: nat)
    requires Tables(mem, owner) && Users(mem, owner) && d !in owner && Extended(owner, owner', d) && GivenUp(owner', owner'', d)
    ensures owner'' == owner
  {
    hide Mapping, Entry;
    forall f | f in owner ensures !Belongs(owner[f], d, f) {
      if owner[f].User? || owner[f].Table? {
        assert IsDir(owner, owner[f].dir);
      }
    }
  }

  lemma OthersTwice(o: Owners, m: Mem, mem: Mem, mem': Mem)
    requires OthersSame(o, m, mem)
    requires forall d: nat, i: nat, j: nat :: IsDir(o, d) && i < 1024 && j < 1024 ==>
               Mapping(mem', d, i, j) == Mapping(mem, d, i, j)
    ensures OthersSame(o, m, mem')
  {
    hide Mapping;
  }

  function Max(a: nat, b: nat): nat {
    if a < b then b else a
  }

  /** One call of allocuvm on a space that stands; the result 0 makes exec give up. */
  method Grow(vm: Vm, d: nat, sz: nat, newsz: nat, ghost data: nat, ghost o: Owners, ghost m: Mem, ghost n: nat) returns (r: nat)
    requires vm.Valid() && Standing(o, m, n, vm.owner, vm.mem, vm.free, d, data, sz) && Users(m, o) && newsz < WORD
    modifies vm
    ensures vm.Valid() && vm.pool == old(vm.pool) && IsDir(vm.owner, d) && Extended(o, vm.owner, d) && OthersSame(o, m, vm.mem)
    ensures r != 0 <==> newsz < KERNBASE && Max(sz, newsz) > 0 && n >= FramesFor(Max(sz, newsz))
    ensures r != 0 ==> r == Max(sz, newsz) && Standing(o, m, n, vm.owner, vm.mem, vm.free, d, data, r)
    ensures old(KernelOnly(vm.owner, vm.mem)) ==> KernelOnly(vm.owner, vm.mem)
  {
    hide Listed, Divided, Bounded, Tables, Users, KernelOnly, SpaceOf, Extended, OthersSame, FramesFor, Need, Wanted, Present,
         TablesOf, TablesFor, Pages, Added, Undone, FirstMapped, Mapping;
    ghost var owner, mem, free := vm.owner, vm.mem, vm.free;
    if sz <= newsz < KERNBASE {
      NeedBetween(mem, d, sz, newsz);
      NoneMappedAbove(mem, d, data, sz, newsz);
    }
    var end;
    r, end := vm.Allocuvm(d, sz, newsz);
    if end.OutOfMemory? {
      UndoneExtended(o, m, owner, mem, vm.owner, vm.mem, d, Pages(sz), Pages(newsz));
    } else if end.Grown? {
      StandingGrown(o, m, n, owner, mem, free, vm.owner, vm.mem, vm.free, d, data, sz, newsz);
    }
  }

  // ---------- the segments and the stack ----------

  function Largest(ends: seq<nat>): (sz: nat)
    ensures forall k :: 0 <= k < |ends| ==> ends[k] <= sz
  {
    if ends == [] then 0 else Max(Largest(ends[..|ends| - 1]), ends[|ends| - 1])
  }

  lemma {:induction false} LargestGrows(ends: seq<nat>, k: nat)
    requires k <= |ends|
    ensures Largest(ends[..k]) <= Largest(ends)
  {
    if k < |ends| {
      LargestGrows(ends[..|ends| - 1], k);
      assert ends[..|ends| - 1][..k] == ends[..k];
    } else {
      assert ends[..k] == ends;
    }
  }

  lemma LargestNext(ends: seq<nat>, k: nat)
    requires k < |ends|
    ensures Largest(ends[..k + 1]) == Max(Largest(ends[..k]), ends[k]) <= Largest(ends)
  {
    assert ends[..k + 1][..k] == ends[..k];
    LargestGrows(ends, k + 1);
  }

  /** No segment reaches the kernel, and the first is not empty at address 0. */
  predicate Loadable(ends: seq<nat>) {
    (forall k :: 0 <= k < |ends| ==> ends[k] < KERNBASE) && (ends != [] ==> ends[0] > 0)
  }

  /** The size of the space with the stack. */
  function WithStack(ends: seq<nat>): nat {
    Pages(Largest(ends)) * 4096 + 2 * PAGE
  }

  /** The segments of the program, one allocuvm each. */
  method LoadSegments(vm: Vm, d: nat, ends: seq<nat>, ghost data: nat, ghost o: Owners, ghost m: Mem, ghost n: nat)
      returns (ok: bool, sz: nat)
    requires vm.Valid() && Standing(o, m, n, vm.owner, vm.mem, vm.free, d, data, 0) && Users(m, o)
    requires forall k :: 0 <= k < |ends| ==> ends[k] < WORD
    modifies vm
    ensures vm.Valid() && vm.pool == old(vm.pool) && IsDir(vm.owner, d) && Extended(o, vm.owner, d) && OthersSame(o, m, vm.mem)
    ensures ok <==> Loadable(ends) && n >= FramesFor(Largest(ends))
    ensures ok ==> sz == Largest(ends) && sz < KERNBASE && Standing(o, m, n, vm.owner, vm.mem, vm.free, d, data, sz)
    ensures old(KernelOnly(vm.owner, vm.mem)) ==> KernelOnly(vm.owner, vm.mem)
  {
    hide Listed, Divided, Bounded, Tables, Users, KernelOnly, SpaceOf, Extended, OthersSame, FramesFor, Present, TablesFor,
         Largest;
    sz := 0;
    assert ends[..0] == [];
    NoSegments();
    for k := 0 to |ends|
      invariant vm.Valid() && vm.pool == old(vm.pool) && Standing(o, m, n, vm.owner, vm.mem, vm.free, d, data, sz)
      invariant sz == Largest(ends[..k]) && sz < KERNBASE && (k > 0 ==> sz > 0 && ends[0] > 0)
      invariant forall j :: 0 <= j < k ==> ends[j] < KERNBASE
      invariant old(KernelOnly(vm.owner, vm.mem)) ==> KernelOnly(vm.owner, vm.mem)
    {
      LargestNext(ends, k);
      FramesGrow(Max(sz, ends[k]), Largest(ends));
      var r := Grow(vm, d, sz, ends[k], data, o, m, n);
      if r == 0 {
        return false, 0;
      }
      sz := r;
    }
    assert ends[..|ends|] == ends;
    EnoughFor(o, m, n, vm.owner, vm.mem, vm.free, d, data, sz);
    ok := true;
  }

  lemma NoSegments()
    ensures Largest([]) == 0
  {
  }

  lemma EnoughFor(o: Owners, m: Mem, n: nat, owner: Owners, mem: Mem, free: seq<nat>, d: nat, data: nat, sz: nat)
    requires Standing(o, m, n, owner, mem, free, d, data, sz)
    ensures n >= FramesFor(sz)
  {
  }

  lemma RoundedStands(o: Owners, m: Mem, n: nat, owner: Owners, mem: Mem, free: seq<nat>, d: nat, data: nat, sz: nat)
    requires Standing(o, m, n, owner, mem, free, d, data, sz) && sz < KERNBASE
    ensures PageUp(sz) == Pages(sz) * 4096 <= KERNBASE && Pages(PageUp(sz)) == Pages(sz)
    ensures Standing(o, m, n, owner, mem, free, d, data, PageUp(sz))
  {
    RoundedSize(sz);
    hide Extended, OthersSame, Present, Pages, PageUp, Mapping;
  }

  lemma RoundedSize(sz: nat)
    requires sz < KERNBASE
    ensures PageUp(sz) == Pages(sz) * 4096 <= KERNBASE && Pages(PageUp(sz)) == Pages(sz)
  {
    PageUpIs(sz);
  }

  lemma StackSize(sz: nat)
    requires sz < KERNBASE
    ensures Pages(Pages(sz) * 4096 + 2 * PAGE) == Pages(sz) + 2 && sz <= Pages(sz) * 4096 + 2 * PAGE < WORD
    ensures Pages(sz) * 4096 + 2 * PAGE < KERNBASE ==> Pages(sz) < 0x8_0000
  {
  }

  /** Closing the page below the stack. */
  lemma GuardClosed(owner: Owners, mem: Mem, mem': Mem, d: nat, data: nat, sz: nat, guard: nat)
    requires SpaceOf(mem, d, data, sz) && IsDir(owner, d) && guard < Pages(sz) && guard < 0x8_0000
    requires MapsExcept(owner, mem, mem', d, Pdx(guard * 4096), Ptx(guard * 4096),
                        ClosedPte(Mapping(mem, d, Pdx(guard * 4096), Ptx(guard * 4096))))
    ensures GuardedSpace(mem', d, data, sz, guard)
  {
    hide Mapping, Pdx, Ptx, PageNo, KernelMap, Pages;
    UserTable(guard);
    PlaceOf(Pdx(guard * 4096), Ptx(guard * 4096));
    forall i: nat, j: nat | i < 1024 && j < 1024
      ensures PageNo(i, j) == guard <==> i == Pdx(guard * 4096) && j == Ptx(guard * 4096)
    {
      PlaceOf(i, j);
    }
  }

  lemma GuardTable(mem: Mem, d: nat, data: nat, sz: nat, guard: nat)
    requires SpaceOf(mem, d, data, sz) && guard < Pages(sz) && guard < 0x8_0000
    ensures Entry(mem, d, Pdx(guard * 4096)).Page?
  {
    hide KernelMap, Pages, Pdx, Ptx, PageNo;
    UserTable(guard);
    assert Mapping(mem, d, Pdx(guard * 4096), Ptx(guard * 4096)).Page?;
  }

  lemma OthersAfterGuard(o: Owners, m: Mem, owner: Owners, mem: Mem, mem': Mem, d: nat, i: nat, j: nat, pte: Pte)
    requires d !in o && Extended(o, owner, d) && OthersSame(o, m, mem) && MapsExcept(owner, mem, mem', d, i, j, pte)
    ensures OthersSame(o, m, mem')
  {
    hide Mapping;
    forall d': nat, i': nat, j': nat | IsDir(o, d') && i' < 1024 && j' < 1024
      ensures Mapping(mem', d', i', j') == Mapping(m, d', i', j')
    {
      assert IsDir(owner, d');
    }
  }

  lemma StandingMeans(o: Owners, m: Mem, n: nat, owner: Owners, mem: Mem, free: seq<nat>, d: nat, data: nat, sz: nat)
    requires Standing(o, m, n, owner, mem, free, d, data, sz)
    ensures d !in o && IsDir(owner, d) && Extended(o, owner, d) && OthersSame(o, m, mem) && SpaceOf(mem, d, data, sz)
    ensures |free| + FramesFor(sz) == n
  {
  }

  /** The stack: two pages at the next page boundary, the lower one closed to the user. */
  method AddStack(vm: Vm, d: nat, size: nat, ghost data: nat, ghost o: Owners, ghost m: Mem, ghost n: nat) returns (sz: nat)
    requires vm.Valid() && Standing(o, m, n, vm.owner, vm.mem, vm.free, d, data, size) && Users(m, o) && size < KERNBASE
    modifies vm
    ensures vm.Valid() && vm.pool == old(vm.pool) && IsDir(vm.owner, d) && Extended(o, vm.owner, d) && OthersSame(o, m, vm.mem)
    ensures sz != 0 <==> Pages(size) * 4096 + 2 * PAGE < KERNBASE && n >= FramesFor(Pages(size) * 4096 + 2 * PAGE)
    ensures sz != 0 ==> sz == Pages(size) * 4096 + 2 * PAGE && |vm.free| + FramesFor(sz) == n
    ensures sz != 0 ==> GuardedSpace(vm.mem, d, data, sz, Pages(size))
    ensures old(KernelOnly(vm.owner, vm.mem)) ==> KernelOnly(vm.owner, vm.mem)
  {
    hide Listed, Divided, Bounded, Tables, Users, KernelOnly, SpaceOf, GuardedSpace, Extended, OthersSame, FramesFor, Standing,
         Pages, PageUp, Mapping, Entry, MapsExcept, Pdx, Ptx;
    RoundedStands(o, m, n, vm.owner, vm.mem, vm.free, d, data, size);
    StackSize(size);
    var base := PageUp(size);
    sz := Grow(vm, d, base, base + 2 * PAGE, data, o, m, n);
    if sz != 0 {
      StandingMeans(o, m, n, vm.owner, vm.mem, vm.free, d, data, sz);
      GuardTable(vm.mem, d, data, sz, Pages(size));
      ghost var mem := vm.mem;
      var ok := vm.Clearpteu(d, sz - 2 * PAGE);
      GuardClosed(vm.owner, mem, vm.mem, d, data, sz, Pages(size));
      OthersAfterGuard(o, m, vm.owner, mem, vm.mem, d, Pdx(sz - 2 * PAGE), Ptx(sz - 2 * PAGE),
                       ClosedPte(Mapping(mem, d, Pdx(sz - 2 * PAGE), Ptx(sz - 2 * PAGE))));
    }
  }

  /**
   The address space that exec makes.  It succeeds exactly when the segments and the stack end below the kernel
   and there are enough free frames for the whole space; otherwise every frame is owned as before.
   */
  method NewSpace(vm: Vm, data: nat, ends: seq<nat>) returns (d: nat, sz: nat)
    requires vm.Valid() && 0x100 < data < 0xE000 && forall k :: 0 <= k < |ends| ==> ends[k] < WORD
    modifies vm
    ensures vm.Valid() && vm.pool == old(vm.pool) && OthersSame(old(vm.owner), old(vm.mem), vm.mem)
    ensures d != 0 <==> Loadable(ends) && WithStack(ends) < KERNBASE && |old(vm.free)| >= FramesFor(WithStack(ends))
    ensures d == 0 ==> vm.owner == old(vm.owner)
    ensures d != 0 ==> d !in old(vm.owner) && IsDir(vm.owner, d) && Extended(old(vm.owner), vm.owner, d)
    ensures d != 0 ==> sz == WithStack(ends) && |vm.free| == |old(vm.free)| - FramesFor(sz)
    ensures d != 0 ==> GuardedSpace(vm.mem, d, data, sz, Pages(Largest(ends)))
    ensures old(KernelOnly(vm.owner, vm.mem)) ==> KernelOnly(vm.owner, vm.mem)
  {
    hide Listed, Divided, Bounded, Tables, Users, KernelOnly, GuardedSpace, Extended, OthersSame, FramesFor, Standing, Pages,
         Largest, Present, KernelTables, KernelMap, Mapping, Grew, GivenUp, Loadable;
    ghost var o, m, n := vm.owner, vm.mem, |vm.free|;
    d := vm.Setupkvm(data);
    if d == 0 {
      return 0, 0;
    }
    StandingStart(o, m, n, vm.owner, vm.mem, vm.free, d, data);
    var ok;
    ok, sz := LoadSegments(vm, d, ends, data, o, m, n);
    if ok {
      sz := AddStack(vm, d, sz, data, o, m, n);
    }
    if Loadable(ends) {
      SegmentsFit(ends);
    }
    if !ok || sz == 0 {
      ghost var owner, mem := vm.owner, vm.mem;
      vm.Freevm(d);
      SpaceUndone(o, m, owner, vm.owner, d);
      OthersTwice(o, m, mem, vm.mem);
      return 0, 0;
    }
  }

  lemma SegmentsFit(ends: seq<nat>)
    requires Loadable(ends)
    ensures Largest(ends) < KERNBASE && FramesFor(Largest(ends)) <= FramesFor(WithStack(ends))
  {
    LargestBelow(ends);
    StackSize(Largest(ends));
    FramesGrow(Largest(ends), WithStack(ends));
  }

  lemma {:induction false} LargestBelow(ends: seq<nat>)
    requires forall k :: 0 <= k < |ends| ==> ends[k] < KERNBASE
    ensures Largest(ends) < KERNBASE
  {
    if ends != [] {
      LargestBelow(ends[..|ends| - 1]);
    }
  }
}
