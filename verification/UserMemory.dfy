/**
 copyout of vm.c: writing to user memory through a page directory that need not be the current one.

 `Ram` gives the bytes of the frames that user pages are mapped to.
 */
module UserMemory {
  import opened ExecMemory
  import opened Options
  import opened PageTables
  import opened VirtualMemory

  type Byte = x: int | 0 <= x < 256

  type Ram = map<nat, seq<Byte>>

  /**
   How copyout ends.  Fault: there is no page table, and uva2ka reads the low addresses of the current address
   space as if they were an entry; the model stops there.
   */
  datatype CopyResult = Copied | Denied | Fault

  /** What maps the page of an address. */
  function PteOf(mem: Mem, d: nat, x: nat): Pte {
    Mapping(mem, d, Pdx(x), Ptx(x))
  }

  /** The byte that the user sees at an address. */
  function UserByte(mem: Mem, ram: Ram, d: nat, x: nat): Option<Byte> {
    var pte := PteOf(mem, d, x);
    if ForUser(pte) && pte.frame in ram && |ram[pte.frame]| == 4096 then Some(ram[pte.frame][x % 4096]) else None
  }

  predicate SameFrame(mem: Mem, d: nat, x: nat, y: nat) {
    ForUser(PteOf(mem, d, x)) && ForUser(PteOf(mem, d, y)) && PteOf(mem, d, x).frame == PteOf(mem, d, y).frame
  }

  /** No frame is mapped for the user at two pages, and each holds a page of bytes. */
  ghost predicate Separate(mem: Mem, ram: Ram, d: nat) {
    && (forall x: nat :: x < WORD && ForUser(PteOf(mem, d, x)) ==>
          PteOf(mem, d, x).frame in ram && |ram[PteOf(mem, d, x).frame]| == 4096)
    && (forall x: nat, y: nat :: x < WORD && y < WORD && SameFrame(mem, d, x, y) ==> PageOf(x) == PageOf(y))
  }

  lemma Split(x: nat, q: nat, t: nat, r: nat)
    requires x == 4096 * (1024 * q + t) + r && t < 1024 && r < 4096
    ensures Pdx(x) == q && PageOf(x) == 1024 * q + t && Ptx(x) == t
  {
  }

  lemma SamePage(x: nat, y: nat)
    ensures PageOf(x) == PageOf(y) <==> Pdx(x) == Pdx(y) && Ptx(x) == Ptx(y)
    ensures x < KERNBASE ==> Pdx(x) < 512
    ensures KERNBASE <= x < WORD ==> 512 <= Pdx(x) < 1024 && Ptx(x) < 1024
  {
    var q, t, r := x / 4096 / 1024, x / 4096 % 1024, x % 4096;
    Split(x, q, t, r);
    Split(y, y / 4096 / 1024, y / 4096 % 1024, y % 4096);
    hide Pdx, Ptx, PageOf;
  }

  /** User pages have their frames to themselves, and the kernel's pages are not for users. */
  lemma OwnedIsSeparate(mem: Mem, owner: Owners, ram: Ram, d: nat)
    requires Tables(mem, owner) && Users(mem, owner) && IsDir(owner, d) && KernelOnly(owner, mem)
    requires forall f :: f in owner && owner[f].User? ==> f in ram && |ram[f]| == 4096
    ensures Separate(mem, ram, d)
  {
    forall x: nat | x < WORD && ForUser(PteOf(mem, d, x))
      ensures x < KERNBASE && PteOf(mem, d, x).frame in owner && owner[PteOf(mem, d, x).frame] == User(d, Pdx(x), Ptx(x))
    {
      SamePage(x, x);
    }
    forall x: nat, y: nat | x < WORD && y < WORD && SameFrame(mem, d, x, y) ensures PageOf(x) == PageOf(y) {
      SamePage(x, y);
    }
  }

  /** The page `f` with `data` at offset `o`. */
  function Patched(page: seq<Byte>, o: nat, data: seq<Byte>): (p: seq<Byte>)
    requires o + |data| <= |page|
    ensures |p| == |page| && forall k :: 0 <= k < |p| ==> p[k] == if o <= k < o + |data| then data[k - o] else page[k]
  {
    page[..o] + data + page[o + |data|..]
  }

  lemma WithinPage(a: nat, x: nat, n: nat)
    requires a % 4096 + n <= 4096
    ensures a <= x < a + n <==> PageOf(x) == PageOf(a) && a % 4096 <= x % 4096 < a % 4096 + n
    ensures a <= x < a + n ==> x % 4096 - a % 4096 == x - a
  {
  }

  /** Patching the page of `a` changes what the user sees at the patched addresses and nowhere else. */
  lemma PatchSeen(mem: Mem, ram: Ram, d: nat, a: nat, data: seq<Byte>, ram': Ram)
    requires Separate(mem, ram, d) && a < WORD && ForUser(PteOf(mem, d, a)) && a % 4096 + |data| <= 4096
    requires var f := PteOf(mem, d, a).frame; f in ram && |ram[f]| == 4096 && ram' == ram[f := Patched(ram[f], a % 4096, data)]
    ensures Separate(mem, ram', d)
    ensures forall x: nat :: x < WORD ==>
              UserByte(mem, ram', d, x) == if a <= x < a + |data| then Some(data[x - a]) else UserByte(mem, ram, d, x)
  {
    hide PageOf, Pdx, Ptx, Patched, Mapping;
    forall x: nat | x < WORD
      ensures UserByte(mem, ram', d, x) == if a <= x < a + |data| then Some(data[x - a]) else UserByte(mem, ram, d, x)
    {
      WithinPage(a, x, |data|);
      SamePage(a, x);
    }
  }

  /** The distance from `va` up to `x`, around the end of the address space. */
  function Distance(va: nat, x: nat): (n: nat)
    requires va < WORD && x < WORD
    ensures n < WORD
  {
    if x >= va then x - va else x - va + WORD
  }

  /** The user sees the first `n` bytes of `src` from `va` on, and everywhere else what it saw in `ram`. */
  ghost predicate Seen(mem: Mem, ram: Ram, ram': Ram, d: nat, va: nat, src: seq<Byte>, n: nat)
    requires n <= |src| && va < WORD
  {
    forall x: nat :: x < WORD ==>
      UserByte(mem, ram', d, x) == if Distance(va, x) < n then Some(src[Distance(va, x)]) else UserByte(mem, ram, d, x)
  }

  lemma SeenNone(mem: Mem, ram: Ram, d: nat, va: nat, src: seq<Byte>)
    requires va < WORD
    ensures Seen(mem, ram, ram, d, va, src, 0)
  {
  }

  /** The address `n` bytes after `va`. */
  function Ahead(va: nat, n: nat): nat {
    (va + n) % 0x1_0000_0000
  }

  lemma AheadNone(va: nat)
    requires va < WORD
    ensures Ahead(va, 0) == va
  {
  }

  lemma AheadIs(va: nat, n: nat, m: nat, x: nat)
    requires va < WORD && n + m <= WORD && x < WORD && Ahead(va, n) % 4096 + m <= 4096
    ensures Ahead(va, n) < WORD
    ensures Ahead(va, n) <= x < Ahead(va, n) + m <==> n <= Distance(va, x) < n + m
    ensures Ahead(va, n) <= x < Ahead(va, n) + m ==> Distance(va, x) == n + (x - Ahead(va, n))
  {
  }

  lemma SeenMore(mem: Mem, ram: Ram, ram': Ram, ram'': Ram, d: nat, va: nat, src: seq<Byte>, n: nat, m: nat)
    requires va < WORD && n + m <= |src| < WORD && Ahead(va, n) % 4096 + m <= 4096 && Seen(mem, ram, ram', d, va, src, n)
    requires forall x: nat :: x < WORD ==>
               UserByte(mem, ram'', d, x) ==
                 if Ahead(va, n) <= x < Ahead(va, n) + m then Some(src[n..n + m][x - Ahead(va, n)]) else UserByte(mem, ram', d, x)
    ensures Seen(mem, ram, ram'', d, va, src, n + m)
  {
    hide Ahead, Distance, UserByte;
    forall x: nat | x < WORD
      ensures UserByte(mem, ram'', d, x) ==
              if Distance(va, x) < n + m then Some(src[Distance(va, x)]) else UserByte(mem, ram, d, x)
    {
      AheadIs(va, n, m, x);
    }
  }

  /** How many of the remaining bytes go to the page of `a`. */
  function Piece(a: nat, len: nat): (n: nat)
    ensures n <= len && a % 4096 + n <= 4096 && (len > 0 ==> n > 0)
  {
    if 4096 - a % 4096 > len then len else 4096 - a % 4096
  }

  /** After a piece that is not the last, the next address is the start of the next page. */
  lemma NextPiece(va: nat, n: nat, len: nat)
    requires va < WORD && 0 < len && n + len < WORD
    ensures Piece(Ahead(va, n), len) < len ==> Onward(PageDown(Ahead(va, n))) == Ahead(va, n + Piece(Ahead(va, n), len))
  {
    var a := Ahead(va, n);
    assert a == PageDown(a) + a % 4096;
  }

  /** In a space of size `sz`, exactly the addresses below `sz` rounded up, the guard page apart, are the user's. */
  lemma UserAddress(mem: Mem, d: nat, data: nat, sz: nat, guard: nat, x: nat)
    requires GuardedSpace(mem, d, data, sz, guard) && sz < KERNBASE && x < WORD
    ensures ForUser(PteOf(mem, d, x)) <==> x < Pages(sz) * 4096 && PageOf(x) != guard
  {
    hide Pages, Pdx, Ptx, PageNo, KernelMap, Mapping, ForUser, PageOf;
    PlaceOfAddress(x, Pages(sz));
    NotForUser(data, PageNo(Pdx(x), Ptx(x)));
    UserPerm(PteOf(mem, d, x));
  }

  lemma UserPerm(pte: Pte)
    ensures pte.Page? && pte.perm == PTE_W + PTE_U ==> ForUser(pte)
    ensures pte.Page? && pte.perm == PTE_W ==> !ForUser(pte)
  {
  }

  lemma PlaceOfAddress(x: nat, n: nat)
    requires x < WORD
    ensures Pdx(x) < 1024 && Ptx(x) < 1024 && PageNo(Pdx(x), Ptx(x)) == PageOf(x)
    ensures PageNo(Pdx(x), Ptx(x)) < n <==> x < n * 4096
  {
    Split(x, x / 4096 / 1024, x / 4096 % 1024, x % 4096);
  }

  lemma NotForUser(data: nat, p: nat)
    ensures !ForUser(KernelMap(data, p))
  {
  }

  lemma SeenIsUser(mem: Mem, ram: Ram, ram': Ram, d: nat, va: nat, src: seq<Byte>, n: nat, x: nat)
    requires n <= |src| && va < WORD && x < WORD && Distance(va, x) < n && Seen(mem, ram, ram', d, va, src, n)
    ensures ForUser(PteOf(mem, d, x))
  {
    assert UserByte(mem, ram', d, x).Some?;
  }

  lemma NoTable(mem: Mem, d: nat, x: nat)
    requires Entry(mem, d, Pdx(x)).Absent?
    ensures !ForUser(PteOf(mem, d, x))
  {
  }

  lemma TablePte(mem: Mem, d: nat, x: nat)
    requires Entry(mem, d, Pdx(x)).Page?
    ensures PteOf(mem, d, x) == Entry(mem, Entry(mem, d, Pdx(x)).frame, Ptx(x))
  {
  }

  lemma PageThere(mem: Mem, ram: Ram, d: nat, x: nat)
    requires Separate(mem, ram, d) && x < WORD && ForUser(PteOf(mem, d, x))
    ensures PteOf(mem, d, x).Page? && PteOf(mem, d, x).frame in ram && |ram[PteOf(mem, d, x).frame]| == 4096
  {
  }

  /** The addresses from `va` to `va + n` are the user's: they end within the size and leave out the guard page. */
  predicate Allowed(va: nat, n: nat, sz: nat, guard: nat) {
    n == 0 || (va + n <= Pages(sz) * 4096 && (va + n <= guard * 4096 || va >= guard * 4096 + 4096))
  }

  /** copyout reaches its end exactly if all its addresses are the user's. */
  lemma CopiedIff(mem: Mem, ram: Ram, ram': Ram, d: nat, data: nat, sz: nat, guard: nat, va: nat, src: seq<Byte>, n: nat)
    requires GuardedSpace(mem, d, data, sz, guard) && sz < KERNBASE && va < WORD && n <= |src| < WORD
    requires Seen(mem, ram, ram', d, va, src, n) && (n < |src| ==> !ForUser(PteOf(mem, d, Ahead(va, n))))
    ensures n == |src| <==> Allowed(va, |src|, sz, guard)
  {
    hide GuardedSpace, PteOf, ForUser, Pages, Seen;
    if n < |src| {
      UserAddress(mem, d, data, sz, guard, Ahead(va, n));
      PagesBelow(sz);
    } else if src != [] {
      EndsWithin(mem, ram, ram', d, data, sz, guard, va, src);
      AvoidsGuard(mem, ram, ram', d, data, sz, guard, va, src);
    }
  }

  lemma EndsWithin(mem: Mem, ram: Ram, ram': Ram, d: nat, data: nat, sz: nat, guard: nat, va: nat, src: seq<Byte>)
    requires GuardedSpace(mem, d, data, sz, guard) && sz < KERNBASE && va < WORD && 0 < |src| < WORD
    requires Seen(mem, ram, ram', d, va, src, |src|)
    ensures va + |src| <= Pages(sz) * 4096
  {
    hide GuardedSpace, PteOf, ForUser, Pages, Seen, PageOf;
    var x := if va + |src| <= WORD then va + |src| - 1 else WORD - 1;
    PagesBelow(sz);
    SeenIsUser(mem, ram, ram', d, va, src, |src|, x);
    UserAddress(mem, d, data, sz, guard, x);
  }

  lemma AvoidsGuard(mem: Mem, ram: Ram, ram': Ram, d: nat, data: nat, sz: nat, guard: nat, va: nat, src: seq<Byte>)
    requires GuardedSpace(mem, d, data, sz, guard) && sz < KERNBASE && va < WORD && 0 < |src| < WORD
    requires Seen(mem, ram, ram', d, va, src, |src|) && va + |src| <= Pages(sz) * 4096
    ensures va + |src| <= guard * 4096 || va >= guard * 4096 + 4096
  {
    hide GuardedSpace, PteOf, ForUser, Pages, Seen;
    var y := if va < guard * 4096 then guard * 4096 else va;
    PagesBelow(sz);
    if y < va + |src| {
      SeenIsUser(mem, ram, ram', d, va, src, |src|, y);
      UserAddress(mem, d, data, sz, guard, y);
    }
  }

  lemma PagesBelow(sz: nat)
    requires sz < KERNBASE
    ensures Pages(sz) * 4096 <= KERNBASE
  {
  }

  /** One copyout of exec. */
  datatype Copy = Copy(va: nat, src: seq<Byte>)

  predicate CopyOk(c: Copy) {
    c.va < WORD && |c.src| < WORD
  }

  /** What the user sees at an address after a list of copies: the last that covers it, or what was there. */
  function AfterCopies(was: Option<Byte>, copies: seq<Copy>, x: nat): Option<Byte>
    requires x < WORD && forall k :: 0 <= k < |copies| ==> CopyOk(copies[k])
  {
    if copies == [] then was
    else
      var n := |copies| - 1;
      var c := copies[n];
      assert CopyOk(c);
      if Distance(c.va, x) < |c.src| then Some(c.src[Distance(c.va, x)]) else AfterCopies(was, copies[..n], x)
  }

  ghost predicate Shown(mem: Mem, ram: Ram, ram': Ram, d: nat, copies: seq<Copy>)
    requires forall k :: 0 <= k < |copies| ==> CopyOk(copies[k])
  {
    forall x: nat :: x < WORD ==> UserByte(mem, ram', d, x) == AfterCopies(UserByte(mem, ram, d, x), copies, x)
  }

  lemma ShownNone(mem: Mem, ram: Ram, d: nat)
    ensures Shown(mem, ram, ram, d, [])
  {
  }

  lemma ShownNext(mem: Mem, ram: Ram, ram': Ram, ram'': Ram, d: nat, copies: seq<Copy>, k: nat)
    requires (forall j :: 0 <= j < |copies| ==> CopyOk(copies[j])) && k < |copies| && CopyOk(copies[k])
    requires Shown(mem, ram, ram', d, copies[..k])
    requires Seen(mem, ram', ram'', d, copies[k].va, copies[k].src, |copies[k].src|)
    ensures Shown(mem, ram, ram'', d, copies[..k + 1])
  {
    hide UserByte, Distance;
    assert copies[..k + 1][..k] == copies[..k];
  }

  class UserRam {
    const mem: Mem
    var ram: Ram

    constructor (mem: Mem, ram: Ram)
      ensures this.mem == mem && this.ram == ram
    {
      this.mem, this.ram := mem, ram;
    }

    /** copyout: the user sees `src` at `va`, and nothing else differs; it stops at the first page that is not the user's. */
    method Copyout(d: nat, va: nat, src: seq<Byte>) returns (r: CopyResult, ghost n: nat)
      requires Separate(mem, ram, d) && va < WORD && |src| < WORD
      modifies this`ram
      ensures Separate(mem, ram, d) && n <= |src| && Seen(mem, old(ram), ram, d, va, src, n)
      ensures r.Copied? <==> n == |src|
      ensures !r.Copied? ==> !ForUser(PteOf(mem, d, Ahead(va, n))) && (r.Fault? <==> Entry(mem, d, Pdx(Ahead(va, n))).Absent?)
    {
      hide Separate, Seen, Ahead, PageDown, Onward, Piece, Mapping, Patched, ForUser, Entry, Pdx, Ptx;
      var va0, len, buf := va, |src|, 0;
      n := 0;
      SeenNone(mem, ram, d, va, src);
      AheadNone(va);
      while len > 0
        invariant 0 <= len <= |src| && n == buf == |src| - len && va0 < WORD && (len > 0 ==> va0 == Ahead(va, n))
        invariant Separate(mem, ram, d) && Seen(mem, old(ram), ram, d, va, src, n)
      {
        NextPiece(va, n, len);
        var pde := Entry(mem, d, Pdx(va0));
        if pde.Absent? {
          NoTable(mem, d, va0);
          return Fault, n;
        }
        var pte := Entry(mem, pde.frame, Ptx(va0));
        TablePte(mem, d, va0);
        if !ForUser(pte) {
          return Denied, n;
        }
        PageThere(mem, ram, d, va0);
        var m := Piece(va0, len);
        label piece:
        ghost var ram' := ram;
        ram := ram[pte.frame := Patched(ram[pte.frame], va0 % 4096, src[buf..buf + m])];
        PatchSeen(mem, ram', d, va0, src[buf..buf + m], ram);
        SeenMore(mem, old(ram), ram', ram, d, va, src, n, m);
        len := len - m;
        buf := buf + m;
        va0 := Onward(PageDown(va0));
        n := n + m;
      }
      r := Copied;
    }
  }

  /**
   How exec makes an address space and copies the arguments to it.  It succeeds exactly when the space can be
   made and all addresses of the copies are the user's.  When it fails, every frame is owned as before, unless a
   copy came to a missing page table; only a copy that is not the user's can do so.
   */
  method NewImage(vm: Vm, ram: Ram, data: nat, ends: seq<nat>, copies: seq<Copy>)
      returns (d: nat, sz: nat, u: UserRam, fault: bool)
    requires vm.Valid() && KernelOnly(vm.owner, vm.mem) && 0x100 < data < 0xE000
    requires (forall k :: 0 <= k < |ends| ==> ends[k] < WORD) && (forall k :: 0 <= k < |copies| ==> CopyOk(copies[k]))
    requires forall f :: f in vm.pool ==> f in ram && |ram[f]| == 4096
    modifies vm
    ensures vm.Valid() && KernelOnly(vm.owner, vm.mem) && vm.pool == old(vm.pool)
    ensures fault ==> d == 0 && exists k :: 0 <= k < |copies| && !CopyAllowed(copies[k], ends)
    ensures !fault ==> (d != 0 <==>
                          && SpaceFits(ends, |old(vm.free)|)
                          && forall k :: 0 <= k < |copies| ==> CopyAllowed(copies[k], ends))
    ensures d == 0 && !fault ==> vm.owner == old(vm.owner)
    ensures d != 0 ==> d !in old(vm.owner) && IsDir(vm.owner, d) && sz == WithStack(ends)
    ensures d != 0 ==> GuardedSpace(vm.mem, d, data, sz, Pages(Largest(ends))) && Shown(vm.mem, ram, u.ram, d, copies)
  {
    hide Listed, Bounded, Tables, Users, KernelOnly, GuardedSpace, Separate, Seen, Shown, Mapping, PteOf, ForUser, Ahead, Entry,
         Pdx, FramesFor, Pages, OthersSame, Extended, GivenUp, Largest, Loadable, WithStack, Allowed;
    d, sz := NewSpace(vm, data, ends);
    u := new UserRam(vm.mem, ram);
    fault := false;
    if d == 0 {
      return;
    }
    forall f | f in vm.owner ensures f in ram && |ram[f]| == 4096 {
      assert f in vm.pool;
    }
    OwnedIsSeparate(vm.mem, vm.owner, ram, d);
    ShownNone(vm.mem, ram, d);
    assert copies[..0] == [];
    label made:
    for k := 0 to |copies|
      invariant unchanged@made(vm) && Separate(vm.mem, u.ram, d) && u.mem == vm.mem && Shown(vm.mem, ram, u.ram, d, copies[..k])
      invariant forall j :: 0 <= j < k ==> CopyAllowed(copies[j], ends)
    {
      ghost var ram' := u.ram;
      assert CopyOk(copies[k]);
      var r;
      ghost var n;
      r, n := u.Copyout(d, copies[k].va, copies[k].src);
      CopiedIff(vm.mem, ram', u.ram, d, data, sz, Pages(Largest(ends)), copies[k].va, copies[k].src, n);
      if r.Fault? {
        return 0, 0, u, true;
      }
      if r.Denied? {
        ghost var owner' := vm.owner;
        vm.Freevm(d);
        SpaceUndone(old(vm.owner), old(vm.mem), owner', vm.owner, d);
        return 0, 0, u, false;
      }
      ShownNext(vm.mem, ram, ram', u.ram, d, copies, k);
    }
    assert copies[..|copies|] == copies;
  }

  predicate CopyAllowed(c: Copy, ends: seq<nat>) {
    Allowed(c.va, |c.src|, WithStack(ends), Pages(Largest(ends)))
  }

  /** The segments and the stack end below the kernel, and `free` frames are enough for them. */
  predicate SpaceFits(ends: seq<nat>, free: nat) {
    Loadable(ends) && WithStack(ends) < KERNBASE && free >= FramesFor(WithStack(ends))
  }
}
