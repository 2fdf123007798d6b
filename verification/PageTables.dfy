/**
 Two-level page tables and the ownership of the frames they use (vm.c, kalloc.c), on values.

 A frame is a physical page number.  `Mem` gives the entries of the frames in use as page directories
 and page tables.  `Owners` says what each allocated frame is used for.
 */
module PageTables {

  const PAGE := 4096

  datatype Pte = Absent | Page(frame: nat, perm: nat)

  type Mem = map<nat, seq<Pte>>

  datatype Owner =
    | Dir                             // a page directory
    | Table(dir: nat, i: nat)         // the page table of entry i of a directory
    | User(dir: nat, i: nat, j: nat)  // the page mapped by entry j of that table, below KERNBASE
    | Loose                           // allocated for something else

  type Owners = map<nat, Owner>

  function Zeros(): (z: seq<Pte>)
    ensures |z| == 1024 && forall j :: 0 <= j < 1024 ==> z[j].Absent?
  {
    seq(1024, j => Absent)
  }

  function Entry(mem: Mem, t: nat, j: nat): Pte {
    if t in mem && j < |mem[t]| then mem[t][j] else Absent
  }

  /** What directory `d` maps at entry j of table i. */
  function Mapping(mem: Mem, d: nat, i: nat, j: nat): Pte {
    var pde := Entry(mem, d, i);
    if pde.Page? then Entry(mem, pde.frame, j) else Absent
  }

  ghost predicate IsDir(owner: Owners, d: nat) {
    d in owner && owner[d].Dir?
  }

  ghost predicate Full(mem: Mem, f: nat) {
    f in mem && |mem[f]| == 1024
  }

  /** The page tables are exactly the frames that directories point to. */
  ghost predicate Tables(mem: Mem, owner: Owners) {
    && (forall f :: f in owner && (owner[f].Dir? || owner[f].Table?) ==> Full(mem, f))
    && (forall f :: f in owner && owner[f].Table? ==>
          IsDir(owner, owner[f].dir) && Entry(mem, owner[f].dir, owner[f].i).Page? &&
            Entry(mem, owner[f].dir, owner[f].i).frame == f)
    && (forall d: nat, i: nat :: IsDir(owner, d) && Entry(mem, d, i).Page? ==>
          Entry(mem, d, i).frame in owner && owner[Entry(mem, d, i).frame] == Table(d, i))
  }

  /** The user pages are exactly the frames mapped below KERNBASE. */
  ghost predicate Users(mem: Mem, owner: Owners) {
    && (forall f :: f in owner && owner[f].User? ==>
          var u := owner[f];
          u.i < 512 && IsDir(owner, u.dir) && Mapping(mem, u.dir, u.i, u.j).Page? && Mapping(mem, u.dir, u.i, u.j).frame == f)
    && (forall d: nat, i: nat, j: nat :: i < 512 && IsDir(owner, d) && Mapping(mem, d, i, j).Page? ==>
          Mapping(mem, d, i, j).frame in owner && owner[Mapping(mem, d, i, j).frame] == User(d, i, j))
  }

  /** Writing one entry of a page table changes one mapping. */
  lemma SetEntry(mem: Mem, owner: Owners, d: nat, i: nat, t: nat, j: nat, pte: Pte)
    requires Tables(mem, owner) && IsDir(owner, d) && Entry(mem, d, i).Page? && t == Entry(mem, d, i).frame && j < 1024
    ensures t in mem && |mem[t]| == 1024
    ensures Tables(mem[t := mem[t][j := pte]], owner)
    ensures forall d': nat, i': nat, j': nat :: IsDir(owner, d') ==>
              Mapping(mem[t := mem[t][j := pte]], d', i', j') == if d' == d && i' == i &&
                j' == j then pte else Mapping(mem, d', i', j')
  {
    var m := mem[t := mem[t][j := pte]];
    assert owner[t] == Table(d, i) && Full(mem, t);
    forall d': nat, i': nat | IsDir(owner, d') ensures Entry(m, d', i') == Entry(mem, d', i') {
    }
    forall d': nat, i': nat, j': nat | IsDir(owner, d')
      ensures Mapping(m, d', i', j') == if d' == d && i' == i && j' == j then pte else Mapping(mem, d', i', j')
    {
      assert Entry(m, d', i') == Entry(mem, d', i');
    }
  }

  /** A new, empty page table changes no mapping. */
  lemma NewTable(mem: Mem, owner: Owners, d: nat, i: nat, t: nat, perm: nat)
    requires Tables(mem, owner) && IsDir(owner, d) && i < 1024 && Entry(mem, d, i).Absent? && t !in owner
    ensures d in mem && |mem[d]| == 1024
    ensures Tables(mem[t := Zeros()][d := mem[d][i := Page(t, perm)]], owner[t := Table(d, i)])
    ensures forall d': nat, i': nat, j': nat :: IsDir(owner, d') ==>
              Mapping(mem[t := Zeros()][d := mem[d][i := Page(t, perm)]], d', i', j') == Mapping(mem, d', i', j')
  {
    assert Full(mem, d);
    var m := mem[t := Zeros()][d := mem[d][i := Page(t, perm)]];
    var o := owner[t := Table(d, i)];
    forall d': nat, i': nat | IsDir(o, d')
      ensures Entry(m, d', i') == if d' == d && i' == i then Page(t, perm) else Entry(mem, d', i')
    {
    }
    forall d': nat, i': nat, j': nat | IsDir(owner, d') ensures Mapping(m, d', i', j') == Mapping(mem, d', i', j') {
      assert IsDir(o, d') && Entry(m, d', i') == if d' == d && i' == i then Page(t, perm) else Entry(mem, d', i');
      if Entry(mem, d', i').Page? {
        assert Entry(mem, d', i').frame in owner;
      }
    }
    forall f | f in o && o[f].Table?
      ensures IsDir(o, o[f].dir) && Entry(m, o[f].dir, o[f].i).Page? && Entry(m, o[f].dir, o[f].i).frame == f
    {
      assert f != t ==> IsDir(owner, owner[f].dir);
    }
  }

  /** The two ownerships agree on directories and page tables. */
  ghost predicate SameTables(owner: Owners, owner': Owners) {
    && (forall f :: f in owner && (owner[f].Dir? || owner[f].Table?) ==> f in owner' && owner'[f] == owner[f])
    && (forall f :: f in owner' && (owner'[f].Dir? || owner'[f].Table?) ==> f in owner && owner[f] == owner'[f])
  }

  /** The two ownerships agree on directories and user pages. */
  ghost predicate SameUsers(owner: Owners, owner': Owners) {
    && (forall f :: f in owner && (owner[f].Dir? || owner[f].User?) ==> f in owner' && owner'[f] == owner[f])
    && (forall f :: f in owner' && (owner'[f].Dir? || owner'[f].User?) ==> f in owner && owner[f] == owner'[f])
  }

  lemma TablesFrame(mem: Mem, owner: Owners, owner': Owners)
    requires Tables(mem, owner) && SameTables(owner, owner')
    ensures Tables(mem, owner')
  {
  }

  lemma UsersFrame(mem: Mem, owner: Owners, mem': Mem, owner': Owners)
    requires Users(mem, owner) && SameUsers(owner, owner')
    requires forall d: nat, i: nat, j: nat :: i < 512 && IsDir(owner, d) ==> Mapping(mem', d, i, j) == Mapping(mem, d, i, j)
    ensures Users(mem', owner')
  {
  }

  /** `mem'` maps what `mem` does except at one place. */
  ghost predicate MapsExcept(owner: Owners, mem: Mem, mem': Mem, d: nat, i: nat, j: nat, pte: Pte) {
    forall d': nat, i': nat, j': nat :: IsDir(owner, d') ==>
      Mapping(mem', d', i', j') == if d' == d && i' == i && j' == j then pte else Mapping(mem, d', i', j')
  }

  /** A loose frame becomes a user page. */
  lemma MapUser(mem: Mem, owner: Owners, mem': Mem, d: nat, i: nat, j: nat, f: nat, perm: nat)
    requires Users(mem, owner) && IsDir(owner, d) && i < 512 && f in owner && owner[f].Loose?
    requires Mapping(mem, d, i, j).Absent? && MapsExcept(owner, mem, mem', d, i, j, Page(f, perm))
    ensures Users(mem', owner[f := User(d, i, j)])
  {
  }

  /** A user page is unmapped and given up. */
  lemma UnmapUser(mem: Mem, owner: Owners, mem': Mem, d: nat, i: nat, j: nat, f: nat)
    requires Users(mem, owner) && IsDir(owner, d) && i < 512 && Mapping(mem, d, i, j).Page? && f == Mapping(mem, d, i, j).frame
    requires MapsExcept(owner, mem, mem', d, i, j, Absent)
    ensures f in owner && owner[f] == User(d, i, j) && Users(mem', owner - {f})
  {
  }

  /** A fresh directory maps nothing. */
  lemma NewDir(mem: Mem, owner: Owners, d: nat, m: Mem)
    requires Tables(mem, owner) && Users(mem, owner) && d !in owner && m == mem[d := Zeros()]
    ensures Tables(m, owner[d := Dir]) && Users(m, owner[d := Dir])
    ensures forall i: nat, j: nat :: Mapping(m, d, i, j).Absent?
    ensures forall d': nat, i: nat, j: nat :: IsDir(owner, d') ==> Mapping(m, d', i, j) == Mapping(mem, d', i, j)
  {
    var o := owner[d := Dir];
    forall d': nat, i: nat | IsDir(o, d') ensures Entry(m, d', i) == if d' == d then Absent else Entry(mem, d', i) {
    }
    forall d': nat, i: nat, j: nat | IsDir(o, d')
      ensures Mapping(m, d', i, j) == if d' == d then Absent else Mapping(mem, d', i, j)
    {
      assert Entry(m, d', i) == if d' == d then Absent else Entry(mem, d', i);
      if d' != d && Entry(mem, d', i).Page? {
        assert IsDir(owner, d');
        assert Entry(mem, d', i).frame in owner;
      }
    }
    forall f | f in o && o[f].Table?
      ensures IsDir(o, o[f].dir) && Entry(m, o[f].dir, o[f].i).Page? && Entry(m, o[f].dir, o[f].i).frame == f
    {
      assert IsDir(owner, owner[f].dir);
    }
    forall f | f in o && o[f].User?
      ensures var u := o[f];
              u.i < 512 && IsDir(o, u.dir) && Mapping(m, u.dir, u.i, u.j).Page? && Mapping(m, u.dir, u.i, u.j).frame == f
    {
      assert IsDir(owner, owner[f].dir);
    }
  }

  /** The frames of a directory that has no user pages left. */
  ghost predicate IsFrameOf(owner: Owners, d: nat, f: nat) {
    f == d || (f in owner && owner[f].Table? && owner[f].dir == d)
  }

  /** A directory goes with all its page tables. */
  lemma DropDir(mem: Mem, owner: Owners, d: nat, mem': Mem, owner': Owners)
    requires Tables(mem, owner) && Users(mem, owner) && IsDir(owner, d)
    requires forall f :: f in owner && owner[f].User? ==> owner[f].dir != d
    requires forall f :: f in owner' <==> f in owner && !IsFrameOf(owner, d, f)
    requires forall f :: f in owner' ==> owner'[f] == owner[f] && (f in mem' <==> f in mem) && (f in mem ==> mem'[f] == mem[f])
    ensures Tables(mem', owner') && Users(mem', owner')
    ensures forall d': nat, i: nat, j: nat :: IsDir(owner', d') ==> Mapping(mem', d', i, j) == Mapping(mem, d', i, j)
  {
    forall d': nat, i: nat | IsDir(owner', d')
      ensures IsDir(owner, d') && d' != d && Entry(mem', d', i) == Entry(mem, d', i)
    {
      assert IsDir(owner, d');
    }
    forall d': nat, i: nat, j: nat | IsDir(owner', d') ensures Mapping(mem', d', i, j) == Mapping(mem, d', i, j) {
      assert IsDir(owner, d') && Entry(mem', d', i) == Entry(mem, d', i);
      if Entry(mem, d', i).Page? {
        assert Entry(mem, d', i).frame in owner';
      }
    }
    forall f | f in owner' && owner'[f].Table?
      ensures IsDir(owner', owner'[f].dir) && Entry(mem', owner'[f].dir, owner'[f].i).Page?
      ensures Entry(mem', owner'[f].dir, owner'[f].i).frame == f
    {
      assert IsDir(owner, owner[f].dir);
    }
    forall f | f in owner' && owner'[f].User?
      ensures var u := owner'[f];
              u.i < 512 && IsDir(owner', u.dir) && Mapping(mem', u.dir, u.i, u.j).Page? &&
                Mapping(mem', u.dir, u.i, u.j).frame == f
    {
      assert IsDir(owner, owner[f].dir);
    }
  }
}
