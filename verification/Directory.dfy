/**
 Directories of fs.c: a file of 16-byte entries that represents a finite map from names to inode
 numbers.  Names count up to their first NUL and up to DIRSIZ bytes.
 */
module Directory {
  import opened FsLayout
  import opened BlockMap
  import opened FileSystem

  const DIRSIZ := 14
  const DIRENT := 16
  const T_DIR := 1

  // ---------- names ----------

  type Name = n: seq<byte> | |n| == DIRSIZ witness seq(DIRSIZ, _ => 0)

  /** Byte `k` of a C string; strings end with NUL. */
  function CharAt(s: seq<byte>, k: nat): byte {
    if k < |s| then s[k] else 0
  }

  /** strncmp(s, t, DIRSIZ) == 0, from position `k` on. */
  predicate SameName(s: seq<byte>, t: seq<byte>, k: nat)
    decreases DIRSIZ - k
  {
    if k >= DIRSIZ then true
    else if CharAt(s, k) == 0 || CharAt(s, k) != CharAt(t, k) then CharAt(s, k) == CharAt(t, k)
    else SameName(s, t, k + 1)
  }

  /** What strncpy stores for bytes `k` to DIRSIZ: the string, then zeroes. */
  function Padded(s: seq<byte>, k: nat): (r: seq<byte>)
    requires k <= DIRSIZ
    ensures |r| == DIRSIZ - k
    decreases DIRSIZ - k
  {
    if k == DIRSIZ then []
    else if CharAt(s, k) == 0 then seq(DIRSIZ - k, _ => 0)
    else [s[k]] + Padded(s, k + 1)
  }

  /** The name that a string stands for. */
  function Canon(s: seq<byte>): (n: Name) {
    Padded(s, 0)
  }

  /** namecmp finds two strings equal exactly when they stand for one name. */
  lemma NamecmpIsCanon(s: seq<byte>, t: seq<byte>)
    ensures SameName(s, t, 0) <==> Canon(s) == Canon(t)
  {
    SameNameFrom(s, t, 0);
  }

  lemma {:induction false} SameNameFrom(s: seq<byte>, t: seq<byte>, k: nat)
    requires k <= DIRSIZ
    ensures SameName(s, t, k) <==> Padded(s, k) == Padded(t, k)
    decreases DIRSIZ - k
  {
    if k < DIRSIZ {
      SameNameFrom(s, t, k + 1);
      var a, b := Padded(s, k), Padded(t, k);
      assert a[0] == CharAt(s, k) && b[0] == CharAt(t, k);
      if CharAt(s, k) == CharAt(t, k) != 0 {
        assert a[1..] == Padded(s, k + 1) && b[1..] == Padded(t, k + 1);
      }
    }
  }

  /** A stored name reads back as the name. */
  lemma {:induction false} CanonAgain(s: seq<byte>, k: nat)
    requires k <= DIRSIZ
    ensures Padded(Canon(s), k) == Canon(s)[k..]
    decreases DIRSIZ - k
  {
    if k < DIRSIZ {
      CanonAgain(s, k + 1);
      if Canon(s)[k] == 0 {
        PaddedZero(s, 0, k);
      } else {
        assert Canon(s)[k..] == [Canon(s)[k]] + Canon(s)[k + 1..];
      }
    }
  }

  lemma {:induction false} PaddedZero(s: seq<byte>, i: nat, k: nat)
    requires i <= k < DIRSIZ && Padded(s, i)[k - i] == 0
    ensures Padded(s, i)[k - i..] == seq(DIRSIZ - k, _ => 0)
    decreases DIRSIZ - i
  {
    if CharAt(s, i) != 0 {
      assert i < k;
      PaddedZero(s, i + 1, k);
      assert Padded(s, i)[k - i..] == Padded(s, i + 1)[k - i - 1..];
    }
  }

  // ---------- entries ----------

  function Inum(c: seq<byte>, k: nat): nat
    requires DIRENT * k + DIRENT <= |c|
  {
    Read16(c, DIRENT * k)
  }

  function EntryName(c: seq<byte>, k: nat): Name
    requires DIRENT * k + DIRENT <= |c|
  {
    Canon(c[DIRENT * k + 2..DIRENT * k + DIRENT])
  }

  /** The map that the first `n` entries represent; an earlier entry hides a later one of the same name. */
  function DirUpTo(c: seq<byte>, n: nat): map<Name, nat>
    requires DIRENT * n <= |c|
  {
    if n == 0 then map[]
    else
      var m := DirUpTo(c, n - 1);
      if Inum(c, n - 1) == 0 || EntryName(c, n - 1) in m then m else m[EntryName(c, n - 1) := Inum(c, n - 1)]
  }

  function Dir(c: seq<byte>): map<Name, nat> {
    DirUpTo(c, |c| / DIRENT)
  }

  /** Entry `k` is the one that a lookup of `name` finds among the first `n`. */
  ghost predicate Finds(c: seq<byte>, n: nat, name: Name, k: nat)
    requires DIRENT * n <= |c|
  {
    && k < n && Inum(c, k) != 0 && EntryName(c, k) == name
    && forall j :: 0 <= j < k ==> Inum(c, j) == 0 || EntryName(c, j) != name
  }

  lemma {:induction false} DirSound(c: seq<byte>, n: nat, name: Name) returns (k: nat)
    requires DIRENT * n <= |c| && name in DirUpTo(c, n)
    ensures Finds(c, n, name, k) && DirUpTo(c, n)[name] == Inum(c, k)
  {
    hide EntryName, Inum;
    if name in DirUpTo(c, n - 1) {
      k := DirSound(c, n - 1, name);
    } else {
      NotFound(c, n - 1, name);
      k := n - 1;
    }
  }

  /** The map has a name exactly when a lookup finds an entry, and the same value. */
  lemma DirFinds(c: seq<byte>, n: nat, name: Name)
    requires DIRENT * n <= |c|
    ensures name in DirUpTo(c, n) <==> exists k :: Finds(c, n, name, k)
    ensures forall k :: Finds(c, n, name, k) ==> DirUpTo(c, n)[name] == Inum(c, k)
  {
    hide EntryName, Inum, DirUpTo;
    if name in DirUpTo(c, n) {
      var k := DirSound(c, n, name);
      assert forall j :: Finds(c, n, name, j) ==> j == k;
    } else {
      NotFound(c, n, name);
    }
  }

  lemma {:induction false} NotFound(c: seq<byte>, n: nat, name: Name)
    requires DIRENT * n <= |c| && name !in DirUpTo(c, n)
    ensures forall j :: 0 <= j < n ==> Inum(c, j) == 0 || EntryName(c, j) != name
  {
    hide EntryName, Inum;
    if n > 0 {
      NotFound(c, n - 1, name);
    }
  }

  /** No two entries in use carry the same name. */
  ghost predicate Unique(c: seq<byte>) {
    forall j, k :: 0 <= j < k && DIRENT * k + DIRENT <= |c| && Inum(c, j) != 0 && Inum(c, k) != 0 ==>
      EntryName(c, j) != EntryName(c, k)
  }

  // ---------- writing one entry ----------

  function Dirent(inum: uint16, name: seq<byte>): (e: seq<byte>)
    ensures |e| == DIRENT
  {
    [inum % 256, inum / 256] + Canon(name)
  }

  /** The entry at slot `k` becomes (inum, name); slot |c| / DIRENT is a new one. */
  ghost predicate EntryWritten(c: seq<byte>, d: seq<byte>, k: nat, inum: nat, name: Name) {
    && |c| % DIRENT == 0 && |d| % DIRENT == 0 && DIRENT * k <= |c|
    && |d| == (if DIRENT * k == |c| then |c| + DIRENT else |c|)
    && Inum(d, k) == inum && (inum != 0 ==> EntryName(d, k) == name)
    && forall j :: 0 <= j && DIRENT * j + DIRENT <= |c| && j != k ==>
      Inum(d, j) == Inum(c, j) && EntryName(d, j) == EntryName(c, j)
  }

  lemma WriteEntry(c: seq<byte>, k: nat, inum: uint16, name: seq<byte>)
    requires |c| % DIRENT == 0 && DIRENT * k <= |c|
    ensures EntryWritten(c, Overwrite(c, DIRENT * k, Dirent(inum, name)), k, inum, Canon(name))
  {
    hide Padded;
    var e := Dirent(inum, name);
    var d := Overwrite(c, DIRENT * k, e);
    assert d[DIRENT * k..DIRENT * k + DIRENT] == e;
    assert d[DIRENT * k] == e[0] && d[DIRENT * k + 1] == e[1];
    assert d[DIRENT * k + 2..DIRENT * k + DIRENT] == e[2..] == Canon(name);
    CanonAgain(name, 0);
    assert Canon(name)[0..] == Canon(name);
    forall j | 0 <= j && DIRENT * j + DIRENT <= |c| && j != k
      ensures Inum(d, j) == Inum(c, j) && EntryName(d, j) == EntryName(c, j)
    {
      assert d[DIRENT * j..DIRENT * j + DIRENT] == c[DIRENT * j..DIRENT * j + DIRENT];
      assert d[DIRENT * j] == c[DIRENT * j] && d[DIRENT * j + 1] == c[DIRENT * j + 1];
      assert d[DIRENT * j + 2..DIRENT * j + DIRENT] == c[DIRENT * j + 2..DIRENT * j + DIRENT];
    }
  }

  /** dirlink: a new name in an unused slot adds one association and changes no other. */
  lemma LinkIsUpdate(c: seq<byte>, d: seq<byte>, k: nat, inum: nat, name: Name)
    requires EntryWritten(c, d, k, inum, name) && (DIRENT * k < |c| ==> Inum(c, k) == 0)
    requires name !in Dir(c)
    ensures Dir(d) == if inum == 0 then Dir(c) else Dir(c)[name := inum]
    ensures Unique(c) ==> Unique(d)
  {
    var m, n := |c| / DIRENT, |d| / DIRENT;
    NotFound(c, m, name);
    forall x: Name ensures x in Dir(d) <==> (x in Dir(c) || (inum != 0 && x == name))
      ensures x in Dir(d) ==> Dir(d)[x] == if inum != 0 && x == name then inum else Dir(c)[x]
    {
      LinkLookup(c, d, k, inum, name, x);
    }
    assert Dir(d).Keys == if inum == 0 then Dir(c).Keys else Dir(c).Keys + {name};
  }

  lemma LinkLookup(c: seq<byte>, d: seq<byte>, k: nat, inum: nat, name: Name, x: Name)
    requires EntryWritten(c, d, k, inum, name) && (DIRENT * k < |c| ==> Inum(c, k) == 0)
    requires forall j :: 0 <= j < |c| / DIRENT ==> Inum(c, j) == 0 || EntryName(c, j) != name
    ensures x in Dir(d) <==> (x in Dir(c) || (inum != 0 && x == name))
    ensures x in Dir(d) && !(inum != 0 && x == name) ==> Dir(d)[x] == Dir(c)[x]
    ensures x in Dir(d) && inum != 0 && x == name ==> Dir(d)[x] == inum
  {
    var m, n := |c| / DIRENT, |d| / DIRENT;
    DirFinds(c, m, x);
    DirFinds(d, n, x);
    if inum != 0 && x == name {
      assert Finds(d, n, x, k);
    } else {
      assert forall j :: 0 <= j < m && j != k ==> Inum(d, j) == Inum(c, j) && EntryName(d, j) == EntryName(c, j);
      forall j ensures Finds(d, n, x, j) <==> Finds(c, m, x, j) {
      }
    }
  }

  /** Zeroing the entry that a lookup found removes its name and nothing else. */
  lemma UnlinkIsRemoval(c: seq<byte>, d: seq<byte>, k: nat)
    requires Unique(c) && DIRENT * k < |c| && |c| % DIRENT == 0 && Inum(c, k) != 0
    requires EntryWritten(c, d, k, 0, EntryName(c, k))
    ensures Dir(d) == Dir(c) - {EntryName(c, k)} && Unique(d)
  {
    var m, name := |c| / DIRENT, EntryName(c, k);
    forall x: Name ensures x in Dir(d) <==> x in Dir(c) && x != name
      ensures x in Dir(d) ==> Dir(d)[x] == Dir(c)[x]
    {
      DirFinds(c, m, x);
      DirFinds(d, m, x);
      if x != name {
        assert forall j :: Finds(d, m, x, j) <==> Finds(c, m, x, j);
      }
    }
  }

  // ---------- the operations ----------

  /** readi of one entry. */
  method ReadEntry(fs: Fs, dp: nat, off: nat) returns (ok: bool, de: seq<byte>)
    requires fs.Inv() && dp < |fs.inodes| && fs.inodes[dp].typ == T_DIR && off < fs.inodes[dp].size
    requires fs.inodes[dp].size <= MAXFILE * BSIZE
    modifies fs
    ensures fs.disk == old(fs.disk) && fs.inodes == old(fs.inodes) && fs.owner == old(fs.owner) && fs.logged == old(fs.logged)
    ensures fs.Inv() && (ok <==> off + DIRENT <= fs.inodes[dp].size)
    ensures ok ==> |de| == DIRENT && de == Content(fs.disk, fs.inodes, dp)[off..off + DIRENT]
  {
    hide Owned, Synced, Sizes, Content;
    var r;
    r, de := fs.Readi(dp, off, DIRENT);
    ok := r == DIRENT;
  }

  /**
   dirlookup: finds a name exactly when the directory maps it, with the inode number it is mapped
   to and the offset of its entry.  It panics exactly when this is no directory, or when its size is
   not a whole number of entries and the name is not found before the end.
   */
  method Dirlookup(fs: Fs, dp: nat, name: seq<byte>) returns (ok: bool, inum: nat, poff: nat)
    requires fs.Inv() && dp < |fs.inodes| && fs.inodes[dp].size <= MAXFILE * BSIZE
    modifies fs
    ensures fs.disk == old(fs.disk) && fs.inodes == old(fs.inodes) && fs.owner == old(fs.owner) && fs.logged == old(fs.logged)
    ensures fs.inodes[dp].typ == T_DIR && fs.inodes[dp].size % DIRENT == 0 ==> ok
    ensures fs.inodes[dp].typ != T_DIR ==> !ok
    ensures ok && inum == 0 ==> fs.inodes[dp].size % DIRENT == 0
    ensures ok <==> fs.inodes[dp].typ == T_DIR
                    && (fs.inodes[dp].size % DIRENT == 0 || Canon(name) in Dir(Content(fs.disk, fs.inodes, dp)))
    ensures ok ==> LookedUp(Content(fs.disk, fs.inodes, dp), Canon(name), inum, poff)
  {
    hide Owned, Synced, Sizes, Content, LookedUp, NoneBefore, Canon, Read16, SameName, Dir;
    if fs.inodes[dp].typ != T_DIR {
      return false, 0, 0;
    }
    ghost var c, k := Content(fs.disk, fs.inodes, dp), 0;
    NoneAtAll(c, Canon(name));
    var off := 0;
    while off < fs.inodes[dp].size
      invariant fs.Inv() && 0 <= k && off == DIRENT * k && NoneBefore(c, Canon(name), k)
      invariant fs.disk == old(fs.disk) && fs.inodes == old(fs.inodes) && fs.owner == old(fs.owner) && fs.logged == old(fs.logged)
    {
      var de;
      ok, de := ReadEntry(fs, dp, off);
      if !ok {
        TornEntry(c, Canon(name), k);
        return false, 0, 0;
      }
      LookupStep(c, name, k, de);
      if Read16(de, 0) != 0 && SameName(name, de[2..], 0) {
        LookupMeans(c, Canon(name), Read16(de, 0), off);
        return true, Read16(de, 0), off;
      }
      off := off + DIRENT;
      k := k + 1;
    }
    LookupEnd(c, Canon(name), k);
    return true, 0, 0;
  }

  /** The outcome of a lookup: 0 when the map has no such name, else its number and the offset of its entry. */
  ghost predicate LookedUp(c: seq<byte>, name: Name, inum: nat, poff: nat) {
    && (inum != 0 <==> name in Dir(c))
    && (inum != 0 ==> inum == Dir(c)[name] && exists k :: Finds(c, |c| / DIRENT, name, k) && poff == DIRENT * k)
  }

  ghost predicate NoneBefore(c: seq<byte>, name: Name, n: nat) {
    DIRENT * n <= |c| && forall j :: 0 <= j < n ==> Inum(c, j) == 0 || EntryName(c, j) != name
  }

  /** What is known when the scan comes to an incomplete entry. */
  lemma TornEntry(c: seq<byte>, name: Name, k: nat)
    requires DIRENT * k < |c| < DIRENT * k + DIRENT && NoneBefore(c, name, k)
    ensures |c| % DIRENT != 0 && name !in Dir(c)
  {
    DirFinds(c, |c| / DIRENT, name);
  }

  /** The first unused entry from entry `k` on, or the number of entries. */
  ghost function FreeFrom(c: seq<byte>, k: nat): (r: nat)
    requires |c| % DIRENT == 0 && DIRENT * k <= |c|
    ensures k <= r && DIRENT * r <= |c|
    decreases |c| - DIRENT * k
  {
    if DIRENT * k == |c| || Inum(c, k) == 0 then k else FreeFrom(c, k + 1)
  }

  lemma NoneAtAll(c: seq<byte>, name: Name)
    ensures NoneBefore(c, name, 0)
  {
  }

  lemma LookupStep(c: seq<byte>, name: seq<byte>, k: nat, de: seq<byte>)
    requires DIRENT * k + DIRENT <= |c| && NoneBefore(c, Canon(name), k)
    requires de == c[DIRENT * k..DIRENT * k + DIRENT]
    ensures Read16(de, 0) != 0 && SameName(name, de[2..], 0) ==> LookedUp(c, Canon(name), Read16(de, 0), DIRENT * k)
    ensures !(Read16(de, 0) != 0 && SameName(name, de[2..], 0)) ==> NoneBefore(c, Canon(name), k + 1)
  {
    hide DirUpTo, Padded, SameName, Read16;
    EntryOf(c, k, de);
    NamecmpIsCanon(name, de[2..]);
    DirFinds(c, |c| / DIRENT, Canon(name));
    if Read16(de, 0) != 0 && SameName(name, de[2..], 0) {
      assert Finds(c, |c| / DIRENT, Canon(name), k);
    }
  }

  lemma LookupEnd(c: seq<byte>, name: Name, k: nat)
    requires |c| <= DIRENT * k && NoneBefore(c, name, k)
    ensures LookedUp(c, name, 0, 0) && |c| % DIRENT == 0
  {
    DirFinds(c, |c| / DIRENT, name);
  }

  /** The fields of an entry that was read as 16 bytes. */
  lemma EntryOf(c: seq<byte>, k: nat, de: seq<byte>)
    requires DIRENT * k + DIRENT <= |c| && de == c[DIRENT * k..DIRENT * k + DIRENT]
    ensures Read16(de, 0) == Inum(c, k) && Canon(de[2..]) == EntryName(c, k)
  {
  }

  /** The offset of the first unused entry, or the end of the directory. */
  method FreeSlot(fs: Fs, dp: nat) returns (ok: bool, off: nat, ghost k: nat)
    requires fs.Inv() && dp < |fs.inodes| && fs.inodes[dp].typ == T_DIR && fs.inodes[dp].size <= MAXFILE * BSIZE
    requires fs.inodes[dp].size % DIRENT == 0
    modifies fs
    ensures fs.disk == old(fs.disk) && fs.inodes == old(fs.inodes) && fs.owner == old(fs.owner) && fs.logged == old(fs.logged)
    ensures ok && off == DIRENT * k && off <= fs.inodes[dp].size
    ensures off < fs.inodes[dp].size ==>
              DIRENT * k + DIRENT <= fs.inodes[dp].size && Inum(Content(fs.disk, fs.inodes, dp), k) == 0
    ensures forall j :: 0 <= j < k ==> Inum(Content(fs.disk, fs.inodes, dp), j) != 0
    ensures fs.Inv() && k == FreeFrom(Content(fs.disk, fs.inodes, dp), 0)
  {
    hide Owned, Synced, Sizes, Content, Inum;
    ghost var c := Content(fs.disk, fs.inodes, dp);
    off, k := 0, 0;
    while off < fs.inodes[dp].size
      invariant 0 <= off == DIRENT * k && off <= |c| && forall j :: 0 <= j < k ==> Inum(c, j) != 0
      invariant fs.Inv() && FreeFrom(c, 0) == FreeFrom(c, k)
      invariant fs.disk == old(fs.disk) && fs.inodes == old(fs.inodes) && fs.owner == old(fs.owner) && fs.logged == old(fs.logged)
    {
      var de;
      ok, de := ReadEntry(fs, dp, off);
      EntryOf(c, k, de);
      if Read16(de, 0) == 0 {
        break;
      }
      off := off + DIRENT;
      k := k + 1;
    }
    ok := true;
  }

  /**
   dirlink: refuses a name that is present; otherwise adds the association and nothing else.  The
   inode number is stored in 16 bits.  It panics exactly when this is no directory, or when the name is
   not there and the directory has no room for it.
   */
  method Dirlink(fs: Fs, dp: nat, name: seq<byte>, inum: uint32) returns (ok: bool, r: int)
    requires fs.Inv() && dp < |fs.inodes| && fs.inodes[dp].size <= MAXFILE * BSIZE
    modifies fs
    ensures ok ==> fs.Inv()
    ensures ok ==> (r == -1 <==> Canon(name) in Dir(Content(old(fs.disk), old(fs.inodes), dp)))
    ensures ok && r == -1 ==> fs.disk == old(fs.disk) && fs.inodes == old(fs.inodes)
    ensures ok && r != -1 ==> Added(old(fs.disk), old(fs.inodes), fs.disk, fs.inodes, dp, Canon(name), inum % 0x1_0000)
    ensures !ok ==> || old(fs.inodes)[dp].typ != T_DIR || old(fs.inodes)[dp].size % DIRENT != 0
                    || DiskFull(fs.sb, fs.disk) || old(fs.inodes)[dp].size == MAXFILE * BSIZE
    ensures ok <==> old(fs.inodes)[dp].typ == T_DIR
                    && (Canon(name) in Dir(Content(old(fs.disk), old(fs.inodes), dp))
                        || RoomForEntry(fs.sb, old(fs.disk), old(fs.inodes), dp))
  {
    ghost var d0, t0 := fs.disk, fs.inodes;
    hide *;
    var found, off;
    ok, found, off := Dirlookup(fs, dp, name);
    if !ok {
      return false, -1;
    }
    LookupMeans(Content(d0, t0, dp), Canon(name), found, off);
    if found != 0 {
      return true, -1;
    }
    ghost var k;
    ok, off, k := FreeSlot(fs, dp);
    var w;
    DirectorySize(off, k, fs.inodes[dp].size);
    RoomIs(fs.sb, d0, t0, dp, k);
    ok, w := fs.Writei(dp, Dirent(inum % 0x1_0000, name), off);
    if !ok || w != DIRENT {
      return false, -1;
    }
    Linked(d0, t0, fs.disk, fs.inodes, dp, k, name, inum % 0x1_0000);
    return true, 0;
  }

  /** The directory has whole entries, and its first unused entry is within the largest size and has, or can get, its blocks. */
  ghost predicate RoomForEntry(sb: Super, d: Disk, t: Table, dp: nat)
    requires ValidSuper(sb, d) && dp < |t| && t[dp].size <= MAXFILE * BSIZE
  {
    && t[dp].size % DIRENT == 0
    && var off := DIRENT * FreeFrom(Content(d, t, dp), 0);
       off + DIRENT <= MAXFILE * BSIZE && Missing(d, t, dp, off, DIRENT) <= |FreeBlocks(sb, d)|
  }

  lemma RoomIs(sb: Super, d: Disk, t: Table, dp: nat, k: nat)
    requires ValidSuper(sb, d) && dp < |t| && t[dp].size <= MAXFILE * BSIZE && t[dp].size % DIRENT == 0
    requires k == FreeFrom(Content(d, t, dp), 0)
    ensures RoomForEntry(sb, d, t, dp) <==>
              DIRENT * k + DIRENT <= MAXFILE * BSIZE && Missing(d, t, dp, DIRENT * k, DIRENT) <= |FreeBlocks(sb, d)|
  {
  }

  lemma LookupMeans(c: seq<byte>, name: Name, inum: nat, poff: nat)
    requires LookedUp(c, name, inum, poff)
    ensures inum != 0 <==> name in Dir(c)
  {
  }

  /** Only in a directory of the largest size does a new entry not fit. */
  lemma DirectorySize(off: nat, k: nat, size: nat)
    requires off == DIRENT * k && off <= size <= MAXFILE * BSIZE
    ensures off + DIRENT > MAXFILE * BSIZE ==> size == MAXFILE * BSIZE
  {
  }

  lemma Linked(d: Disk, t: Table, e: Disk, u: Table, dp: nat, k: nat, name: seq<byte>, inum: uint16)
    requires dp < |t| && t[dp].size <= MAXFILE * BSIZE && t[dp].size % DIRENT == 0 && DIRENT * k <= t[dp].size
    requires DIRENT * k < t[dp].size ==> Inum(Content(d, t, dp), k) == 0
    requires Canon(name) !in Dir(Content(d, t, dp))
    requires Stored(d, t, e, u, dp, DIRENT * k, Dirent(inum, name))
    ensures Added(d, t, e, u, dp, Canon(name), inum)
  {
    hide Content, DirUpTo, Overwrite, Dirent;
    var c := Content(d, t, dp);
    WriteEntry(c, k, inum, name);
    LinkIsUpdate(c, Content(e, u, dp), k, inum, Canon(name));
  }

  /** Directory `dp` has one more association, and no other file has changed. */
  ghost predicate Added(d: Disk, t: Table, e: Disk, u: Table, dp: nat, name: Name, inum: nat) {
    && |u| == |t| && dp < |t|
    && (forall j :: 0 <= j < |t| ==> t[j].size <= MAXFILE * BSIZE && u[j].size <= MAXFILE * BSIZE)
    && (forall j :: 0 <= j < |t| && j != dp ==> u[j] == t[j] && Content(e, u, j) == Content(d, t, j))
    && u[dp].typ == t[dp].typ && u[dp].size % DIRENT == 0
    && Dir(Content(e, u, dp)) ==
       (if inum == 0 then Dir(Content(d, t, dp)) else Dir(Content(d, t, dp))[name := inum])
    && (Unique(Content(d, t, dp)) ==> Unique(Content(e, u, dp)))
  }

  /** The write by which unlink clears the entry in slot `k`, which dirlookup found; it needs no block, so it does not panic. */
  method ClearEntry(fs: Fs, dp: nat, k: nat) returns (ok: bool)
    requires fs.Inv() && dp < |fs.inodes| && fs.inodes[dp].typ == T_DIR && fs.inodes[dp].size <= MAXFILE * BSIZE
    requires fs.inodes[dp].size % DIRENT == 0 && DIRENT * k + DIRENT <= fs.inodes[dp].size
    requires Unique(Content(fs.disk, fs.inodes, dp)) && Inum(Content(fs.disk, fs.inodes, dp), k) != 0
    modifies fs
    ensures ok && fs.Inv() && Removed(old(fs.disk), old(fs.inodes), fs.disk, fs.inodes, dp, k)
  {
    ghost var d0, t0 := fs.disk, fs.inodes;
    WithinCapacity(k, fs.inodes[dp].size);
    hide Owned, Synced, Content, DirUpTo, DiskFull, Sizes, Stored, Removed, Unique, Inum, Capacity;
    var w;
    assert Dirent(0, []) == seq(DIRENT, _ => 0);
    ok, w := fs.Writei(dp, seq(DIRENT, _ => 0), DIRENT * k);
    Cleared(d0, t0, fs.disk, fs.inodes, dp, k);
  }

  lemma WithinCapacity(k: nat, size: nat)
    requires DIRENT * k + DIRENT <= size
    ensures DIRENT * k + DIRENT <= Capacity(size)
  {
  }

  /** Directory `dp` has lost the name of its entry `k`, and no other file has changed. */
  ghost predicate Removed(d: Disk, t: Table, e: Disk, u: Table, dp: nat, k: nat) {
    && |u| == |t| && dp < |t| && DIRENT * k + DIRENT <= t[dp].size
    && (forall j :: 0 <= j < |t| ==> t[j].size <= MAXFILE * BSIZE && u[j].size <= MAXFILE * BSIZE)
    && (forall j :: 0 <= j < |t| && j != dp ==> u[j] == t[j] && Content(e, u, j) == Content(d, t, j))
    && u[dp] == t[dp].(addrs := u[dp].addrs)
    && Dir(Content(e, u, dp)) == Dir(Content(d, t, dp)) - {EntryName(Content(d, t, dp), k)}
    && Unique(Content(e, u, dp))
  }

  lemma Cleared(d: Disk, t: Table, e: Disk, u: Table, dp: nat, k: nat)
    requires dp < |t| && t[dp].size <= MAXFILE * BSIZE && t[dp].size % DIRENT == 0 && DIRENT * k + DIRENT <= t[dp].size
    requires Unique(Content(d, t, dp)) && Inum(Content(d, t, dp), k) != 0
    requires Stored(d, t, e, u, dp, DIRENT * k, Dirent(0, []))
    ensures Removed(d, t, e, u, dp, k)
  {
    var c := Content(d, t, dp);
    assert |Content(e, u, dp)| == |c|;
    hide Content, DirUpTo, Overwrite, Dirent, Unique;
    WriteEntry(c, k, 0, []);
    UnlinkIsRemoval(c, Content(e, u, dp), k);
  }
}
