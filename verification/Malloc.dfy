/**
 The storage allocator of umalloc.c (Kernighan and Ritchie, The C Programming Language, 2nd
 edition, section 8.7).

 Addresses count header-sized units.  `ptr` and `size` are the two words of each header.  `free`
 is the free list in address order from `base` on; `alloc` gives the blocks handed out; `arena` is
 the set of units obtained from sbrk, all of them below `top`.
 */
module Malloc {
  import opened Options

  const UNIT := 8         // sizeof(Header)
  const MIN_CORE := 4096  // the least that morecore asks for

  type Words = map<int, int>

  // ---------- the free list ----------

  /** Position `j` comes after `i` on a circular list of `n`. */
  predicate Follows(i: int, j: int, n: int) {
    j == if i + 1 < n then i + 1 else 0
  }

  /** `free` lists, in address order and with gaps between them, the blocks on the circular list through `base`. */
  ghost predicate FreeList(free: seq<int>, ptr: Words, size: Words, base: int) {
    && |free| > 0 && free[0] == base > 0 && base in size && size[base] == 0
    && (forall i :: 0 <= i < |free| ==> free[i] in ptr && free[i] in size)
    && (forall i :: 0 < i < |free| ==> size[free[i]] > 0)
    && (forall i, j :: 0 <= i < j < |free| ==> free[i] + size[free[i]] < free[j])
    && (forall i, j :: 0 <= i < |free| && 0 <= j < |free| && Follows(i, j, |free|) ==> ptr[free[i]] == free[j])
  }

  predicate InBlock(a: int, n: int, x: int) {
    a <= x < a + n
  }

  ghost function Cells(a: int, n: int): iset<int> {
    iset x | InBlock(a, n, x)
  }

  /** The unit `x` is on the free list. */
  ghost predicate IsFree(free: seq<int>, size: Words, x: int) {
    exists i :: 0 <= i < |free| && free[i] in size && InBlock(free[i], size[free[i]], x)
  }

  ghost function FreeCells(free: seq<int>, size: Words): iset<int> {
    iset x | IsFree(free, size, x)
  }

  /** The unit `x` has been handed out. */
  ghost predicate IsAllocated(alloc: Words, x: int) {
    exists a :: a in alloc && InBlock(a, alloc[a], x)
  }

  /** The place of a block in the list: after free[t] and before its successor. */
  ghost predicate Place(free: seq<int>, bp: int, t: nat) {
    t < |free| && free[t] < bp && (t + 1 < |free| ==> bp < free[t + 1])
  }

  lemma {:induction false} FindPlace(free: seq<int>, ptr: Words, size: Words, base: int, bp: int, n: nat) returns (t: nat)
    requires FreeList(free, ptr, size, base) && base < bp && bp !in free && 0 < n <= |free|
    ensures t < n && free[t] < bp && (t + 1 < n ==> bp < free[t + 1])
  {
    if free[n - 1] < bp {
      t := n - 1;
    } else {
      assert free[n - 1] != bp;
      t := FindPlace(free, ptr, size, base, bp, n - 1);
    }
  }

  lemma NotListed(free: seq<int>, ptr: Words, size: Words, base: int, bp: int, t: nat)
    requires FreeList(free, ptr, size, base) && Place(free, bp, t)
    ensures bp !in free
  {
    forall i | 0 <= i < |free| ensures free[i] != bp {
      assert i > t ==> free[t + 1] <= free[i];
    }
  }

  // ---------- taking a block out ----------

  ghost function Removed(free: seq<int>, k: nat): (f: seq<int>)
    requires k < |free|
    ensures |f| == |free| - 1 && forall i :: 0 <= i < |f| ==> f[i] == free[if i < k then i else i + 1]
  {
    free[..k] + free[k + 1..]
  }

  lemma RemoveBlock(free: seq<int>, ptr: Words, size: Words, base: int, k: nat)
    requires FreeList(free, ptr, size, base) && 0 < k < |free|
    ensures FreeList(Removed(free, k), ptr[free[k - 1] := ptr[free[k]]], size, base)
  {
    hide Removed;
    var f := Removed(free, k);
    var p := ptr[free[k - 1] := ptr[free[k]]];
    forall i, j | 0 <= i < |f| && 0 <= j < |f| && Follows(i, j, |f|) ensures p[f[i]] == f[j] {
      var i' := if i < k then i else i + 1;
      var j' := if j < k then j else j + 1;
      assert i == k - 1 ==> Follows(k, j', |free|);
      assert i != k - 1 ==> Follows(i', j', |free|);
    }
  }

  lemma RemoveCell(free: seq<int>, size: Words, k: nat, x: int)
    requires k < |free| && forall i :: 0 <= i < |free| ==> free[i] in size
    requires forall i :: 0 <= i < |free| && i != k ==> free[i] + size[free[i]] <= free[k] || free[k] + size[free[k]] <= free[i]
    ensures IsFree(Removed(free, k), size, x) <==> IsFree(free, size, x) && !InBlock(free[k], size[free[k]], x)
  {
    hide Removed;
    var f := Removed(free, k);
    if IsFree(f, size, x) {
      var i :| 0 <= i < |f| && f[i] in size && InBlock(f[i], size[f[i]], x);
      assert f[i] == free[if i < k then i else i + 1];
    }
    if IsFree(free, size, x) && !InBlock(free[k], size[free[k]], x) {
      var i :| 0 <= i < |free| && free[i] in size && InBlock(free[i], size[free[i]], x);
      assert f[if i < k then i else i - 1] == free[i];
    }
  }

  lemma RemoveCells(free: seq<int>, ptr: Words, size: Words, base: int, k: nat)
    requires FreeList(free, ptr, size, base) && k < |free|
    ensures FreeCells(Removed(free, k), size) == FreeCells(free, size) - Cells(free[k], size[free[k]])
    ensures Cells(free[k], size[free[k]]) <= FreeCells(free, size)
  {
    hide Removed;
    forall x ensures IsFree(Removed(free, k), size, x) <==> IsFree(free, size, x) && !InBlock(free[k], size[free[k]], x) {
      RemoveCell(free, size, k, x);
    }
  }

  // ---------- putting a block in ----------

  ghost function Inserted(free: seq<int>, bp: int, t: nat): (f: seq<int>)
    requires t < |free|
    ensures |f| == |free| + 1 && f[t + 1] == bp
    ensures forall i :: 0 <= i < |f| && i != t + 1 ==> f[i] == free[if i <= t then i else i - 1]
  {
    free[..t + 1] + [bp] + free[t + 1..]
  }

  /** A block of `n` units at `bp`, after free[t], that stays clear of the next block. */
  ghost predicate ClearOfNext(free: seq<int>, bp: int, n: int, t: nat) {
    Place(free, bp, t) && n > 0 && (t + 1 < |free| ==> bp + n < free[t + 1])
  }

  lemma InsertOrder(free: seq<int>, ptr: Words, size: Words, base: int, bp: int, t: nat, i: nat, j: nat)
    requires FreeList(free, ptr, size, base) && bp in size && ClearOfNext(free, bp, size[bp], t)
    requires free[t] + size[free[t]] < bp && i < j <= |free|
    ensures var f := Inserted(free, bp, t); f[i] in size && f[i] + size[f[i]] < f[j]
  {
    hide Inserted;
    assert i == t + 1 && j > t + 2 ==> free[t + 1] + size[free[t + 1]] < free[j - 1];
    assert j == t + 1 && i < t ==> free[i] + size[free[i]] < free[t];
  }

  lemma InsertLinks(free: seq<int>, ptr: Words, size: Words, base: int, bp: int, t: nat, i: nat, j: nat)
    requires FreeList(free, ptr, size, base) && Place(free, bp, t)
    requires i <= |free| && j <= |free| && Follows(i, j, |free| + 1)
    ensures Inserted(free, bp, t)[i] in ptr[bp := ptr[free[t]]][free[t] := bp]
    ensures ptr[bp := ptr[free[t]]][free[t] := bp][Inserted(free, bp, t)[i]] == Inserted(free, bp, t)[j]
  {
    hide Inserted;
    NotListed(free, ptr, size, base, bp, t);
    var i' := if i <= t then i else i - 1;
    var j' := if j <= t then j else j - 1;
    assert i != t ==> Follows(i', j', |free|) && ptr[free[i']] == free[j'];
    assert i' != t ==> free[i'] != free[t];
  }

  lemma InsertBlock(free: seq<int>, ptr: Words, size: Words, base: int, bp: int, t: nat)
    requires FreeList(free, ptr, size, base) && bp in size && ClearOfNext(free, bp, size[bp], t)
    requires free[t] + size[free[t]] < bp
    ensures FreeList(Inserted(free, bp, t), ptr[bp := ptr[free[t]]][free[t] := bp], size, base)
  {
    hide Inserted;
    var f := Inserted(free, bp, t);
    var p := ptr[bp := ptr[free[t]]][free[t] := bp];
    forall i, j | 0 <= i < j < |f| ensures f[i] + size[f[i]] < f[j] {
      InsertOrder(free, ptr, size, base, bp, t, i, j);
    }
    forall i, j | 0 <= i < |f| && 0 <= j < |f| && Follows(i, j, |f|) ensures f[i] in p && p[f[i]] == f[j] {
      InsertLinks(free, ptr, size, base, bp, t, i, j);
    }
  }

  lemma InsertCells(free: seq<int>, size: Words, bp: int, t: nat)
    requires t < |free| && bp in size
    ensures FreeCells(Inserted(free, bp, t), size) == FreeCells(free, size) + Cells(bp, size[bp])
  {
    hide Inserted;
    var f := Inserted(free, bp, t);
    forall x ensures IsFree(f, size, x) <==> IsFree(free, size, x) || InBlock(bp, size[bp], x) {
      if IsFree(f, size, x) {
        var i :| 0 <= i < |f| && f[i] in size && InBlock(f[i], size[f[i]], x);
        assert i != t + 1 ==> f[i] == free[if i <= t then i else i - 1];
      }
      if IsFree(free, size, x) {
        var i :| 0 <= i < |free| && free[i] in size && InBlock(free[i], size[free[i]], x);
        assert f[if i <= t then i else i + 1] == free[i];
      }
    }
  }

  /** A block that begins where free[t] ends is joined to it. */
  lemma JoinBlock(free: seq<int>, ptr: Words, size: Words, base: int, bp: int, n: int, t: nat)
    requires FreeList(free, ptr, size, base) && ClearOfNext(free, bp, n, t)
    requires free[t] + size[free[t]] == bp
    ensures FreeList(free, ptr, size[free[t] := size[free[t]] + n], base)
  {
    var s := size[free[t] := size[free[t]] + n];
    forall i, j | 0 <= i < j < |free| ensures free[i] + s[free[i]] < free[j] {
      assert i == t && j > t + 1 ==> free[t + 1] + size[free[t + 1]] < free[j];
    }
  }

  lemma JoinCells(free: seq<int>, ptr: Words, size: Words, base: int, bp: int, n: int, t: nat)
    requires FreeList(free, ptr, size, base) && n > 0 && t < |free| && free[t] + size[free[t]] == bp
    ensures FreeCells(free, size[free[t] := size[free[t]] + n]) == FreeCells(free, size) + Cells(bp, n)
  {
    var s := size[free[t] := size[free[t]] + n];
    assert size[free[t]] >= 0 && forall i :: 0 <= i < |free| && i != t ==> free[i] != free[t];
    assert forall i :: 0 <= i < |free| ==> free[i] in size;
    hide FreeList;
    forall x ensures IsFree(free, s, x) <==> IsFree(free, size, x) || InBlock(bp, n, x) {
      if IsFree(free, s, x) {
        var i :| 0 <= i < |free| && free[i] in s && InBlock(free[i], s[free[i]], x);
        assert i != t ==> InBlock(free[i], size[free[i]], x);
        assert i == t ==> InBlock(free[t], size[free[t]], x) || InBlock(bp, n, x);
      }
      if IsFree(free, size, x) {
        var i :| 0 <= i < |free| && free[i] in size && InBlock(free[i], size[free[i]], x);
        assert InBlock(free[i], s[free[i]], x);
      }
      if InBlock(bp, n, x) {
        assert InBlock(free[t], s[free[t]], x);
      }
    }
  }

  // ---------- walking around the circular list ----------

  function Next(k: nat, n: nat): nat {
    if k + 1 < n then k + 1 else 0
  }

  /** Steps from position `k` forward to position `t`. */
  function Dist(k: nat, t: nat, n: nat): int {
    if k <= t then t - k else n - k + t
  }

  lemma Follow(free: seq<int>, ptr: Words, size: Words, base: int, k: nat)
    requires FreeList(free, ptr, size, base) && k < |free|
    ensures Next(k, |free|) < |free| && free[k] in ptr && ptr[free[k]] == free[Next(k, |free|)]
  {
  }

  /** The exit test of the loop in free() holds exactly at the place of the block. */
  lemma AtPlace(free: seq<int>, ptr: Words, size: Words, base: int, bp: int, t: nat, k: nat)
    requires FreeList(free, ptr, size, base) && base < bp && Place(free, bp, t) && k < |free|
    ensures var p, next := free[k], ptr[free[k]];
            (bp > p && bp < next) || (p >= next && (bp > p || bp < next)) <==> k == t
  {
    if k + 1 < |free| {
      assert ptr[free[k]] == free[k + 1] > free[k];
      assert t < k ==> bp < free[t + 1] <= free[k];
      assert k < t ==> free[k + 1] <= free[t] < bp;
    } else {
      assert ptr[free[k]] == base <= free[k];
      assert t < k ==> bp < free[t + 1] <= free[k];
    }
  }

  /** Position `i` lies strictly after `f` and before `k` on the way round. */
  predicate Between(f: nat, k: nat, i: nat) {
    if f < k then f < i < k else i > f || i < k
  }

  /** Every block passed since `f` is too small. */
  ghost predicate TooSmall(free: seq<int>, size: Words, f: nat, k: nat, nunits: int) {
    forall i :: 0 <= i < |free| && Between(f, k, i) ==> free[i] in size && size[free[i]] < nunits
  }

  // ---------- the heap ----------

  /** What holds between calls. */
  ghost predicate HeapOk(free: seq<int>, ptr: Words, size: Words, base: int, alloc: Words, arena: iset<int>, top: int) {
    && FreeList(free, ptr, size, base)
    && (forall a :: a in alloc ==> alloc[a] > 0 && a in size && size[a] == alloc[a])
    && (forall a, b :: a in alloc && b in alloc && a != b ==> a + alloc[a] <= b || b + alloc[b] <= a)
    && (forall x :: IsFree(free, size, x) ==> !IsAllocated(alloc, x))
    && (forall x :: x in arena <==> IsFree(free, size, x) || IsAllocated(alloc, x))
    && (forall x :: x in arena ==> base < x < top)
  }

  /** An allocated block fits between two free ones. */
  lemma AllocatedPlace(free: seq<int>, ptr: Words, size: Words, base: int, alloc: Words, arena: iset<int>, top: int, bp: int)
      returns (t: nat)
    requires HeapOk(free, ptr, size, base, alloc, arena, top) && bp in alloc
    ensures Place(free, bp, t) && base < bp && free[t] + size[free[t]] <= bp && (t + 1 < |free| ==> bp + alloc[bp] <= free[t + 1])
  {
    assert InBlock(bp, alloc[bp], bp);
    assert IsAllocated(alloc, bp);
    forall i | 0 <= i < |free| ensures free[i] != bp && (InBlock(free[i], size[free[i]], bp) ==> false) {
      assert i > 0 ==> InBlock(free[i], size[free[i]], free[i]);
      assert InBlock(free[i], size[free[i]], bp) ==> IsFree(free, size, bp);
    }
    t := FindPlace(free, ptr, size, base, bp, |free|);
    if t + 1 < |free| && bp + alloc[bp] > free[t + 1] {
      var x := free[t + 1];
      assert InBlock(bp, alloc[bp], x) && InBlock(x, size[x], x);
      assert IsAllocated(alloc, x) && IsFree(free, size, x);
    }
  }

  /** The header of a block that is not on the list does not matter to the list. */
  lemma OtherHeader(free: seq<int>, ptr: Words, size: Words, base: int, bp: int, next: int, n: int)
    requires FreeList(free, ptr, size, base) && bp !in free
    ensures FreeList(free, ptr[bp := next], size[bp := n], base)
    ensures FreeList(free, ptr, size[bp := n], base) && FreeCells(free, size[bp := n]) == FreeCells(free, size)
  {
    var s := size[bp := n];
    forall x ensures IsFree(free, s, x) <==> IsFree(free, size, x) {
    }
  }

  // ---------- the two merges of free() ----------

  /** `bp` reaches up to the free block that follows free[t]. */
  ghost predicate JoinsNext(free: seq<int>, size: Words, bp: int, t: nat)
    requires t < |free| && bp in size
  {
    t + 1 < |free| && bp + size[bp] == free[t + 1]
  }

  /** A block of the heap between free[t] and its successor, touching them at most. */
  ghost predicate Returned(free: seq<int>, ptr: Words, size: Words, base: int, bp: int, t: nat) {
    && FreeList(free, ptr, size, base) && Place(free, bp, t) && bp in size && size[bp] > 0
    && free[t] + size[free[t]] <= bp && (t + 1 < |free| ==> bp + size[bp] <= free[t + 1])
  }

  /** The header of `bp` after the merge with the block that follows it. */
  ghost function Grown(free: seq<int>, ptr: Words, size: Words, base: int, bp: int, t: nat): (int, int)
    requires Returned(free, ptr, size, base, bp, t)
  {
    if JoinsNext(free, size, bp, t) then (ptr[free[t + 1]], size[bp] + size[free[t + 1]]) else (ptr[free[t]], size[bp])
  }

  ghost function FreedList(free: seq<int>, ptr: Words, size: Words, base: int, bp: int, t: nat): seq<int>
    requires Returned(free, ptr, size, base, bp, t)
  {
    var rest := if JoinsNext(free, size, bp, t) then Removed(free, t + 1) else free;
    if free[t] + size[free[t]] == bp then rest else Inserted(rest, bp, t)
  }

  ghost function FreedPtr(free: seq<int>, ptr: Words, size: Words, base: int, bp: int, t: nat): Words
    requires Returned(free, ptr, size, base, bp, t)
  {
    var next := Grown(free, ptr, size, base, bp, t).0;
    ptr[bp := next][free[t] := if free[t] + size[free[t]] == bp then next else bp]
  }

  ghost function FreedSize(free: seq<int>, ptr: Words, size: Words, base: int, bp: int, t: nat): Words
    requires Returned(free, ptr, size, base, bp, t)
  {
    var n := Grown(free, ptr, size, base, bp, t).1;
    if free[t] + size[free[t]] == bp then size[bp := n][free[t] := size[free[t]] + n] else size[bp := n]
  }

  /** The list, its links and the sizes after the first merge, with `bp` itself still outside the list. */
  lemma MergeNext(free: seq<int>, ptr: Words, size: Words, base: int, bp: int, t: nat)
      returns (rest: seq<int>, links: Words)
    requires Returned(free, ptr, size, base, bp, t)
    ensures t < |rest| && rest == if JoinsNext(free, size, bp, t) then Removed(free, t + 1) else free
    ensures links == if JoinsNext(free, size, bp, t) then ptr[free[t] := ptr[free[t + 1]]] else ptr
    ensures var (next, n) := Grown(free, ptr, size, base, bp, t);
            && FreeList(rest, links, size[bp := n], base) && ClearOfNext(rest, bp, n, t) && bp !in rest
            && rest[t] == free[t] && links[free[t]] == next
            && FreeCells(rest, size[bp := n]) + Cells(bp, n) == FreeCells(free, size) + Cells(bp, size[bp])
  {
    var (next, n) := Grown(free, ptr, size, base, bp, t);
    NotListed(free, ptr, size, base, bp, t);
    rest, links := free, ptr;
    if JoinsNext(free, size, bp, t) {
      rest, links := Removed(free, t + 1), ptr[free[t] := next];
      RemoveBlock(free, ptr, size, base, t + 1);
      RemoveCells(free, ptr, size, base, t + 1);
      assert forall x :: InBlock(bp, n, x) <==> InBlock(bp, size[bp], x) || InBlock(free[t + 1], size[free[t + 1]], x);
      assert rest[t] == free[t] && (t + 1 < |rest| ==> rest[t + 1] == free[t + 2]);
    }
    OtherHeader(rest, links, size, base, bp, next, n);
  }

  /** The second merge: `bp` joins the block before it, or becomes a block of its own. */
  lemma MergePrevious(rest: seq<int>, links: Words, size: Words, base: int, bp: int, t: nat)
    requires FreeList(rest, links, size, base) && bp in size && ClearOfNext(rest, bp, size[bp], t) && bp !in rest
    requires rest[t] + size[rest[t]] <= bp
    ensures var p, next := rest[t], links[rest[t]];
            if p + size[p] == bp then
              && FreeList(rest, links[bp := next], size[p := size[p] + size[bp]], base)
              && FreeCells(rest, size[p := size[p] + size[bp]]) == FreeCells(rest, size) + Cells(bp, size[bp])
            else
              && FreeList(Inserted(rest, bp, t), links[bp := next][p := bp], size, base)
              && FreeCells(Inserted(rest, bp, t), size) == FreeCells(rest, size) + Cells(bp, size[bp])
  {
    hide FreeList, FreeCells, Cells, Inserted;
    ListedMaps(rest, links, size, base, t);
    if rest[t] + size[rest[t]] == bp {
      JoinPrevious(rest, links, size, base, bp, t);
    } else {
      InsertBlock(rest, links, size, base, bp, t);
      InsertCells(rest, size, bp, t);
    }
  }

  lemma JoinPrevious(rest: seq<int>, links: Words, size: Words, base: int, bp: int, t: nat)
    requires FreeList(rest, links, size, base) && bp in size && ClearOfNext(rest, bp, size[bp], t) && bp !in rest
    requires rest[t] + size[rest[t]] == bp
    ensures var p, next := rest[t], links[rest[t]];
            && FreeList(rest, links[bp := next], size[p := size[p] + size[bp]], base)
            && FreeCells(rest, size[p := size[p] + size[bp]]) == FreeCells(rest, size) + Cells(bp, size[bp])
  {
    hide FreeList, FreeCells, Cells;
    ListedMaps(rest, links, size, base, t);
    JoinBlock(rest, links, size, base, bp, size[bp], t);
    JoinCells(rest, links, size, base, bp, size[bp], t);
    var s := size[rest[t] := size[rest[t]] + size[bp]];
    OtherHeader(rest, links, s, base, bp, links[rest[t]], size[bp]);
    assert s[bp := size[bp]] == s;
  }

  /** What the two merges amount to, in terms of the list with the next block taken out. */
  lemma FreedMaps(free: seq<int>, ptr: Words, size: Words, base: int, bp: int, t: nat, rest: seq<int>, links: Words, n: int)
    requires Returned(free, ptr, size, base, bp, t) && free[t] != bp
    requires t < |rest| && rest == if JoinsNext(free, size, bp, t) then Removed(free, t + 1) else free
    requires links == if JoinsNext(free, size, bp, t) then ptr[free[t] := ptr[free[t + 1]]] else ptr
    requires n == Grown(free, ptr, size, base, bp, t).1
    ensures var p, next := free[t], Grown(free, ptr, size, base, bp, t).0;
            && FreedPtr(free, ptr, size, base, bp, t)
            == (if p + size[p] == bp then links[bp := next] else links[bp := next][p := bp])
            && FreedList(free, ptr, size, base, bp, t) == (if p + size[p] == bp then rest else Inserted(rest, bp, t))
            && FreedSize(free, ptr, size, base, bp, t)
            == (if p + size[p] == bp then size[bp := n][p := size[p] + n] else size[bp := n])
  {
    hide Removed, Inserted, FreeList, Place;
    ListedMaps(free, ptr, size, base, t);
    if JoinsNext(free, size, bp, t) {
      SetTwice(ptr, free[t], ptr[free[t + 1]], bp);
    } else {
      SetTwice(ptr, free[t], ptr[free[t]], bp);
    }
  }

  lemma ListedMaps(free: seq<int>, ptr: Words, size: Words, base: int, t: nat)
    requires FreeList(free, ptr, size, base) && t < |free|
    ensures free[t] in ptr && free[t] in size && (t + 1 < |free| ==> free[t + 1] in ptr && free[t + 1] in size)
  {
  }

  /** The order of the updates of two links does not matter, nor does one that is overwritten. */
  lemma SetTwice(m: Words, p: int, v: int, q: int)
    requires p in m && p != q
    ensures m[q := v][p := v] == m[p := v][q := v] && m[q := v][p := q] == m[p := v][q := v][p := q]
    ensures m[p] == v ==> m[q := v][p := v] == m[q := v]
  {
  }

  lemma NextTest(free: seq<int>, ptr: Words, size: Words, base: int, bp: int, t: nat)
    requires Returned(free, ptr, size, base, bp, t)
    ensures free[t] in ptr && ptr[free[t]] in ptr && ptr[free[t]] in size && free[t] != bp && ptr[free[t]] != bp
    ensures free[t] in size && free[t] + size[free[t]] <= bp
    ensures bp + size[bp] == ptr[free[t]] <==> JoinsNext(free, size, bp, t)
    ensures JoinsNext(free, size, bp, t) ==> ptr[free[t]] == free[t + 1]
  {
    NotListed(free, ptr, size, base, bp, t);
    Follow(free, ptr, size, base, t);
    assert t > 0 ==> base + size[base] < free[t];
  }

  /** `f`, `links` and `s` are a well-formed list that holds exactly the units `cells`. */
  ghost predicate ListOf(f: seq<int>, links: Words, s: Words, base: int, cells: iset<int>) {
    FreeList(f, links, s, base) && FreeCells(f, s) == cells
  }

  /** The merges keep the list ordered and unfragmented, and add exactly the units of `bp`. */
  lemma FreedIsFree(free: seq<int>, ptr: Words, size: Words, base: int, bp: int, t: nat)
    requires Returned(free, ptr, size, base, bp, t)
    ensures ListOf(FreedList(free, ptr, size, base, bp, t), FreedPtr(free, ptr, size, base, bp, t),
                   FreedSize(free, ptr, size, base, bp, t), base, FreeCells(free, size) + Cells(bp, size[bp]))
    ensures |FreedList(free, ptr, size, base, bp, t)| > t && FreedList(free, ptr, size, base, bp, t)[t] == free[t]
  {
    hide FreeList, FreeCells, Cells, Removed, Inserted, FreedList, FreedPtr, FreedSize, Grown, JoinsNext, Returned;
    NextTest(free, ptr, size, base, bp, t);
    var n := Grown(free, ptr, size, base, bp, t).1;
    var rest, links := MergeNext(free, ptr, size, base, bp, t);
    FreedMaps(free, ptr, size, base, bp, t, rest, links, n);
    MergePrevious(rest, links, size[bp := n], base, bp, t);
  }

  // ---------- bookkeeping of the heap ----------

  lemma Deallocated(alloc: Words, bp: int)
    requires bp in alloc
    requires forall a, b :: a in alloc && b in alloc && a != b ==> a + alloc[a] <= b || b + alloc[b] <= a
    ensures forall x :: IsAllocated(alloc - {bp}, x) <==> IsAllocated(alloc, x) && !InBlock(bp, alloc[bp], x)
  {
    forall x ensures IsAllocated(alloc - {bp}, x) <==> IsAllocated(alloc, x) && !InBlock(bp, alloc[bp], x) {
      if IsAllocated(alloc - {bp}, x) {
        var a :| a in alloc - {bp} && InBlock(a, alloc[a], x);
        assert a in alloc && a != bp;
      }
      if IsAllocated(alloc, x) && !InBlock(bp, alloc[bp], x) {
        var a :| a in alloc && InBlock(a, alloc[a], x);
        assert a in alloc - {bp};
      }
    }
  }

  lemma Allocated(alloc: Words, q: int, n: int)
    requires q !in alloc
    ensures forall x :: IsAllocated(alloc[q := n], x) <==> IsAllocated(alloc, x) || InBlock(q, n, x)
  {
    forall x ensures IsAllocated(alloc[q := n], x) <==> IsAllocated(alloc, x) || InBlock(q, n, x) {
      var b := alloc[q := n];
      assert q in b && b[q] == n;
      if IsAllocated(b, x) {
        var a :| a in b && InBlock(a, b[a], x);
        assert a == q || a in alloc;
      }
      if IsAllocated(alloc, x) {
        var a :| a in alloc && InBlock(a, alloc[a], x);
        assert a in b && b[a] == alloc[a];
      }
    }
  }

  /** No word of a block in `alloc` differs between the two memories. */
  ghost predicate Untouched(alloc: Words, m: Words, m': Words) {
    forall x :: IsAllocated(alloc, x) ==> (x in m <==> x in m') && (x in m ==> m'[x] == m[x])
  }

  lemma HeadersOutside(free: seq<int>, ptr: Words, size: Words, base: int, alloc: Words, arena: iset<int>, top: int, k: nat)
    requires HeapOk(free, ptr, size, base, alloc, arena, top) && k < |free|
    ensures !IsAllocated(alloc, free[k])
  {
    assert k > 0 ==> InBlock(free[k], size[free[k]], free[k]);
  }

  lemma HeadersKnown(free: seq<int>, ptr: Words, size: Words, base: int, alloc: Words, arena: iset<int>, top: int, k: nat)
    requires HeapOk(free, ptr, size, base, alloc, arena, top) && k < |free|
    ensures free[k] in ptr && free[k] in size && ptr[free[k]] == free[Next(k, |free|)] && (size[free[k]] > 0 <==> k > 0)
  {
    Follow(free, ptr, size, base, k);
  }

  lemma SamePosition(free: seq<int>, ptr: Words, size: Words, base: int, alloc: Words, arena: iset<int>, top: int,
                     i: nat, j: nat)
    requires HeapOk(free, ptr, size, base, alloc, arena, top) && i < |free| && j < |free|
    ensures free[i] > 0 && (free[i] == free[j] ==> i == j)
  {
    assert i > 0 ==> base < free[i];
  }

  lemma HeapFreed(free: seq<int>, ptr: Words, size: Words, base: int, alloc: Words, arena: iset<int>, top: int,
                  bp: int, t: nat,
                  free': seq<int>, ptr': Words, size': Words)
    requires HeapOk(free, ptr, size, base, alloc, arena, top) && bp in alloc
    requires ListOf(free', ptr', size', base, FreeCells(free, size) + Cells(bp, alloc[bp]))
    requires Untouched(alloc - {bp}, size, size')
    ensures HeapOk(free', ptr', size', base, alloc - {bp}, arena, top)
    ensures FreeCells(free', size') == FreeCells(free, size) + Cells(bp, alloc[bp])
  {
    Deallocated(alloc, bp);
    var rest := alloc - {bp};
    forall a | a in rest ensures a in size' && size'[a] == rest[a] {
      assert InBlock(a, rest[a], a);
      assert IsAllocated(rest, a);
    }
    forall x ensures IsFree(free', size', x) <==> IsFree(free, size, x) || InBlock(bp, alloc[bp], x) {
      assert IsFree(free', size', x) <==> x in FreeCells(free', size');
      assert IsFree(free, size, x) <==> x in FreeCells(free, size);
    }
  }

  lemma UntouchedSame(alloc: Words, m: Words)
    ensures Untouched(alloc, m, m)
  {
  }

  lemma UntouchedTwice(alloc: Words, m: Words, m': Words, m'': Words)
    requires Untouched(alloc, m, m') && Untouched(alloc, m', m'')
    ensures Untouched(alloc, m, m'')
  {
  }

  /** Some free block has at least `n` units. */
  ghost predicate Fits(free: seq<int>, size: Words, n: int) {
    exists i :: 0 <= i < |free| && free[i] in size && size[free[i]] >= n
  }

  lemma FitsLess(free: seq<int>, size: Words, n: int, m: int)
    requires Fits(free, size, n) && m <= n
    ensures Fits(free, size, m)
  {
    var i :| 0 <= i < |free| && free[i] in size && size[free[i]] >= n;
  }

  /** free() as a whole, on values. */
  lemma Freed(free: seq<int>, ptr: Words, size: Words, base: int, alloc: Words, arena: iset<int>, top: int, bp: int, t: nat)
    requires HeapOk(free, ptr, size, base, alloc, arena, top) && bp in alloc && Returned(free, ptr, size, base, bp, t)
    ensures HeapOk(FreedList(free, ptr, size, base, bp, t), FreedPtr(free, ptr, size, base, bp, t),
                   FreedSize(free, ptr, size, base, bp, t), base, alloc - {bp}, arena, top)
    ensures FreeCells(FreedList(free, ptr, size, base, bp, t), FreedSize(free, ptr, size, base, bp, t))
         == FreeCells(free, size) + Cells(bp, alloc[bp])
    ensures free[t] in FreedList(free, ptr, size, base, bp, t)
    ensures Fits(FreedList(free, ptr, size, base, bp, t), FreedSize(free, ptr, size, base, bp, t), alloc[bp])
    ensures Untouched(alloc - {bp}, ptr, FreedPtr(free, ptr, size, base, bp, t))
    ensures Untouched(alloc - {bp}, size, FreedSize(free, ptr, size, base, bp, t))
  {
    assert size[bp] == alloc[bp];
    FreedUntouched(free, ptr, size, base, alloc, arena, top, bp, t);
    FreedFits(free, ptr, size, base, bp, t);
    hide *;
    FreedIsFree(free, ptr, size, base, bp, t);
    HeapFreed(free, ptr, size, base, alloc, arena, top, bp, t, FreedList(free, ptr, size, base, bp, t),
              FreedPtr(free, ptr, size, base, bp, t), FreedSize(free, ptr, size, base, bp, t));
  }

  lemma FreedFits(free: seq<int>, ptr: Words, size: Words, base: int, bp: int, t: nat)
    requires Returned(free, ptr, size, base, bp, t)
    ensures Fits(FreedList(free, ptr, size, base, bp, t), FreedSize(free, ptr, size, base, bp, t), size[bp])
  {
    hide Removed, Inserted;
    var f := FreedList(free, ptr, size, base, bp, t);
    assert size[free[t]] >= 0 && (t + 1 < |free| ==> size[free[t + 1]] > 0);
    assert f[if free[t] + size[free[t]] == bp then t else t + 1] in {free[t], bp};
  }

  /** `m'` differs from `m` at `a` and `b` at most. */
  ghost predicate DiffersAt(m: Words, m': Words, a: int, b: int) {
    forall x :: x != a && x != b ==> (x in m <==> x in m') && (x in m ==> m'[x] == m[x])
  }

  /** free() writes two headers. */
  lemma FreedPlaces(free: seq<int>, ptr: Words, size: Words, base: int, bp: int, t: nat)
    requires Returned(free, ptr, size, base, bp, t)
    ensures DiffersAt(ptr, FreedPtr(free, ptr, size, base, bp, t), bp, free[t])
    ensures DiffersAt(size, FreedSize(free, ptr, size, base, bp, t), bp, free[t])
  {
    hide Grown, JoinsNext, FreeList;
  }

  lemma DisjointBlocks(free: seq<int>, ptr: Words, size: Words, base: int, alloc: Words, arena: iset<int>, top: int)
    requires HeapOk(free, ptr, size, base, alloc, arena, top)
    ensures forall a :: a in alloc ==> alloc[a] > 0
    ensures forall a, b :: a in alloc && b in alloc && a != b ==> a + alloc[a] <= b || b + alloc[b] <= a
  {
  }

  lemma FreedUntouched(free: seq<int>, ptr: Words, size: Words, base: int, alloc: Words, arena: iset<int>, top: int,
                       bp: int, t: nat)
    requires HeapOk(free, ptr, size, base, alloc, arena, top) && bp in alloc && Returned(free, ptr, size, base, bp, t)
    ensures Untouched(alloc - {bp}, ptr, FreedPtr(free, ptr, size, base, bp, t))
    ensures Untouched(alloc - {bp}, size, FreedSize(free, ptr, size, base, bp, t))
  {
    hide HeapOk, FreeList, IsAllocated, FreedPtr, FreedSize;
    FreedPlaces(free, ptr, size, base, bp, t);
    DisjointBlocks(free, ptr, size, base, alloc, arena, top);
    Deallocated(alloc, bp);
    HeadersOutside(free, ptr, size, base, alloc, arena, top, t);
    assert InBlock(bp, alloc[bp], bp);
  }

  lemma HeapAllocated(free: seq<int>, ptr: Words, size: Words, base: int, alloc: Words, arena: iset<int>, top: int,
                      q: int, n: int,
                      free': seq<int>, ptr': Words, size': Words)
    requires HeapOk(free, ptr, size, base, alloc, arena, top) && n > 0 && Cells(q, n) <= FreeCells(free, size)
    requires ListOf(free', ptr', size', base, FreeCells(free, size) - Cells(q, n))
    requires Untouched(alloc, size, size') && q in size' && size'[q] == n
    ensures q !in alloc && HeapOk(free', ptr', size', base, alloc[q := n], arena, top)
  {
    forall x ensures IsFree(free', size', x) <==> IsFree(free, size, x) && !InBlock(q, n, x) {
      assert IsFree(free', size', x) <==> x in FreeCells(free', size');
      assert IsFree(free, size, x) <==> x in FreeCells(free, size);
    }
    forall x | InBlock(q, n, x) ensures IsFree(free, size, x) && !IsAllocated(alloc, x) {
      assert x in Cells(q, n);
    }
    assert InBlock(q, n, q);
    forall a | a in alloc ensures a in size' && size'[a] == alloc[a] && (a + alloc[a] <= q || q + n <= a) {
      assert InBlock(a, alloc[a], a);
      assert IsAllocated(alloc, a);
      var x := if a <= q then q else a;
      assert InBlock(a, alloc[a], x) ==> IsAllocated(alloc, x);
    }
    Allocated(alloc, q, n);
  }

  lemma HeapGrown(free: seq<int>, ptr: Words, size: Words, base: int, alloc: Words, arena: iset<int>, top: int,
                  hp: int, n: int)
    requires HeapOk(free, ptr, size, base, alloc, arena, top) && n > 0 && hp > base && hp >= top
    ensures hp !in alloc && hp !in free
    ensures HeapOk(free, ptr, size[hp := n], base, alloc[hp := n], arena + Cells(hp, n), hp + n)
    ensures FreeCells(free, size[hp := n]) == FreeCells(free, size)
    ensures Untouched(alloc, size, size[hp := n])
  {
    forall a | a in alloc ensures a + alloc[a] <= hp && a != hp {
      var x := a + alloc[a] - 1;
      assert InBlock(a, alloc[a], x);
      assert IsAllocated(alloc, x) && x in arena;
    }
    forall i | 0 <= i < |free| ensures free[i] != hp {
      assert i > 0 ==> InBlock(free[i], size[free[i]], free[i]);
      assert i > 0 ==> IsFree(free, size, free[i]);
    }
    OtherHeader(free, ptr, size, base, hp, 0, n);
    Allocated(alloc, hp, n);
    forall x ensures IsFree(free, size[hp := n], x) <==> IsFree(free, size, x) {
      assert IsFree(free, size, x) <==> x in FreeCells(free, size);
      assert IsFree(free, size[hp := n], x) <==> x in FreeCells(free, size[hp := n]);
    }
    forall x ensures x in arena + Cells(hp, n) <==> IsFree(free, size[hp := n], x) || IsAllocated(alloc[hp := n], x) {
      assert x in Cells(hp, n) <==> InBlock(hp, n, x);
    }
    var s, b := size[hp := n], alloc[hp := n];
    forall x | IsFree(free, s, x) ensures !IsAllocated(b, x) {
      assert x in arena;
    }
  }

  // ---------- malloc ----------

  /** The units malloc asks for: the bytes rounded up, computed in 32 bits, and one more for the header. */
  function Units(nbytes: nat): nat {
    (nbytes + UNIT - 1) % 0x1_0000_0000 / 8 + 1
  }

  /** The block is big enough for the request exactly when rounding up does not wrap around. */
  lemma UnitsSuffice(nbytes: nat)
    requires nbytes < 0x1_0000_0000
    ensures (Units(nbytes) - 1) * UNIT >= nbytes <==> nbytes <= 0xffff_fff8
    ensures nbytes <= 0xffff_fff8 ==> (Units(nbytes) - 1) * UNIT < nbytes + UNIT
  {
  }

  /** The units that morecore obtains for a request. */
  function CoreUnits(nu: int): int {
    if nu < MIN_CORE then MIN_CORE else nu
  }

  /** The argument of sbrk for `n` units: the bytes in 32 bits, taken as a signed number. */
  function SbrkArg(n: int): int {
    var bytes := n * UNIT % 0x1_0000_0000;
    if bytes < 0x8000_0000 then bytes else bytes - 0x1_0000_0000
  }

  /** sbrk is asked for the units counted on if and only if the request is small, or rounding it up wraps around. */
  lemma AskedFor(nbytes: nat)
    requires nbytes < 0x1_0000_0000
    ensures SbrkArg(CoreUnits(Units(nbytes))) == CoreUnits(Units(nbytes)) * UNIT
            <==> nbytes <= 0x7fff_fff0 || nbytes > 0xffff_fff8
    ensures 0x7fff_fff0 < nbytes <= 0xffff_fff8 ==> SbrkArg(CoreUnits(Units(nbytes))) <= 0
  {
  }

  /** The smallest request that asks for a negative number of bytes, and the one that asks for none. */
  lemma AskedForNothing()
    ensures SbrkArg(CoreUnits(Units(0x7fff_fff1))) == -0x8000_0000 && SbrkArg(CoreUnits(Units(0xffff_fff8))) == 0
  {
  }

  /**
   The units that the process has after a successful sbrk that returned the break `hp`: more above the
   break, or none above a lower one.  A size below 0 wraps around, is no decrease, and changes nothing.
   */
  ghost function Granted(granted: iset<int>, hp: int, arg: int): iset<int> {
    if arg > 0 then granted + Cells(hp, arg / UNIT)
    else if hp * UNIT + arg < 0 then granted
    else iset x | x in granted && x * UNIT < hp * UNIT + arg
  }

  /** The sizes after the tail of free[k] is cut off as a block of `n` units. */
  ghost function SplitSize(free: seq<int>, size: Words, k: nat, n: int): Words
    requires k < |free| && free[k] in size
  {
    size[free[k] := size[free[k]] - n][free[k] + (size[free[k]] - n) := n]
  }

  lemma SplitSizeAt(free: seq<int>, ptr: Words, size: Words, base: int, k: nat, n: int)
    requires FreeList(free, ptr, size, base) && k < |free| && 0 < n < size[free[k]]
    ensures free[k] + (size[free[k]] - n) !in free && SplitSize(free, size, k, n)[free[k]] == size[free[k]] - n
    ensures forall i :: 0 <= i < |free| && i != k ==>
              free[i] in SplitSize(free, size, k, n) && SplitSize(free, size, k, n)[free[i]] == size[free[i]]
  {
  }

  /** Handing out the tail of a block that is larger than needed. */
  lemma SplitBlock(free: seq<int>, ptr: Words, size: Words, base: int, k: nat, n: int)
    requires FreeList(free, ptr, size, base) && k < |free| && 0 < n < size[free[k]]
    ensures FreeList(free, ptr, SplitSize(free, size, k, n), base)
  {
    SplitSizeAt(free, ptr, size, base, k, n);
  }

  lemma SplitCells(free: seq<int>, ptr: Words, size: Words, base: int, k: nat, n: int)
    requires FreeList(free, ptr, size, base) && k < |free| && 0 < n < size[free[k]]
    ensures var tail := Cells(free[k] + (size[free[k]] - n), n);
            tail <= FreeCells(free, size) && FreeCells(free, SplitSize(free, size, k, n)) == FreeCells(free, size) - tail
  {
    var q := free[k] + (size[free[k]] - n);
    var s := SplitSize(free, size, k, n);
    SplitSizeAt(free, ptr, size, base, k, n);
    assert forall i :: 0 <= i < |free| && i != k ==> free[i] + size[free[i]] <= free[k] || free[k] + size[free[k]] <= free[i];
    hide SplitSize, FreeList;
    forall x ensures IsFree(free, s, x) <==> IsFree(free, size, x) && !InBlock(q, n, x) {
      if IsFree(free, s, x) {
        var i :| 0 <= i < |free| && free[i] in s && InBlock(free[i], s[free[i]], x);
        assert InBlock(free[i], size[free[i]], x);
      }
      if IsFree(free, size, x) && !InBlock(q, n, x) {
        var i :| 0 <= i < |free| && free[i] in size && InBlock(free[i], size[free[i]], x);
        assert InBlock(free[i], s[free[i]], x);
      }
    }
    forall x | InBlock(q, n, x) ensures IsFree(free, size, x) {
      assert InBlock(free[k], size[free[k]], x);
    }
  }

  ghost function TakenList(free: seq<int>, size: Words, k: nat, n: int): seq<int>
    requires k < |free| && free[k] in size
  {
    if size[free[k]] == n then Removed(free, k) else free
  }

  ghost function TakenPtr(free: seq<int>, ptr: Words, size: Words, k: nat, n: int): Words
    requires 0 < k < |free| && free[k] in size && free[k] in ptr
  {
    if size[free[k]] == n then ptr[free[k - 1] := ptr[free[k]]] else ptr
  }

  ghost function TakenSize(free: seq<int>, size: Words, k: nat, n: int): Words
    requires k < |free| && free[k] in size
  {
    if size[free[k]] == n then size else SplitSize(free, size, k, n)
  }

  lemma TakenIsList(free: seq<int>, ptr: Words, size: Words, base: int, k: nat, n: int)
    requires FreeList(free, ptr, size, base) && 0 < k < |free| && 0 < n <= size[free[k]]
    ensures var q := free[k] + (size[free[k]] - n);
            && Cells(q, n) <= FreeCells(free, size) && q in TakenSize(free, size, k, n) && TakenSize(free, size, k, n)[q] == n
            && ListOf(TakenList(free, size, k, n), TakenPtr(free, ptr, size, k, n), TakenSize(free, size, k, n), base,
                      FreeCells(free, size) - Cells(q, n))
            && free[k - 1] in TakenList(free, size, k, n)
  {
    hide Cells, FreeCells;
    if size[free[k]] == n {
      RemoveBlock(free, ptr, size, base, k);
      RemoveCells(free, ptr, size, base, k);
      assert Removed(free, k)[k - 1] == free[k - 1];
    } else {
      SplitBlock(free, ptr, size, base, k, n);
      SplitCells(free, ptr, size, base, k, n);
    }
    hide FreeList, Removed;
  }

  /** Taking `n` units from free[k], on values. */
  lemma Taken(free: seq<int>, ptr: Words, size: Words, base: int, alloc: Words, arena: iset<int>, top: int, k: nat,
              n: int, q: int)
    requires HeapOk(free, ptr, size, base, alloc, arena, top) && 0 < k < |free|
    requires 0 < n <= size[free[k]] && q == free[k] + (size[free[k]] - n)
    ensures q > base && q !in alloc && Cells(q, n) <= FreeCells(free, size)
    ensures HeapOk(TakenList(free, size, k, n), TakenPtr(free, ptr, size, k, n), TakenSize(free, size, k, n), base,
                   alloc[q := n], arena, top)
    ensures free[k - 1] in TakenList(free, size, k, n)
    ensures Untouched(alloc, ptr, TakenPtr(free, ptr, size, k, n)) && Untouched(alloc, size, TakenSize(free, size, k, n))
  {
    TakenUntouched(free, ptr, size, base, alloc, arena, top, k, n);
    hide FreeCells, Cells, TakenList, TakenPtr, TakenSize, Untouched, ListOf, IsAllocated, IsFree;
    TakenIsList(free, ptr, size, base, k, n);
    HeapAllocated(free, ptr, size, base, alloc, arena, top, q, n, TakenList(free, size, k, n),
                  TakenPtr(free, ptr, size, k, n), TakenSize(free, size, k, n));
  }

  lemma TakenUntouched(free: seq<int>, ptr: Words, size: Words, base: int, alloc: Words, arena: iset<int>, top: int,
                       k: nat, n: int)
    requires HeapOk(free, ptr, size, base, alloc, arena, top) && 0 < k < |free| && 0 < n <= size[free[k]]
    ensures Untouched(alloc, ptr, TakenPtr(free, ptr, size, k, n)) && Untouched(alloc, size, TakenSize(free, size, k, n))
  {
    var q := free[k] + (size[free[k]] - n);
    HeadersOutside(free, ptr, size, base, alloc, arena, top, k - 1);
    HeadersOutside(free, ptr, size, base, alloc, arena, top, k);
    assert InBlock(free[k], size[free[k]], q);
    assert IsFree(free, size, q) && !IsAllocated(alloc, q);
    hide HeapOk, FreeList, IsAllocated, IsFree;
  }

  lemma OnlyBase(ptr: Words, size: Words, base: int, top: int)
    requires base > 0 && base in ptr && ptr[base] == base && base in size && size[base] == 0
    ensures HeapOk([base], ptr, size, base, map[], iset{}, top)
    ensures forall n :: n > 0 ==> !Fits([base], size, n)
  {
    assert forall x :: !IsFree([base], size, x) && !IsAllocated(map[], x);
  }

  lemma NonePassed(free: seq<int>, size: Words, f: nat, n: int)
    requires f < |free|
    ensures TooSmall(free, size, f, Next(f, |free|), n)
  {
  }

  lemma Found(free: seq<int>, size: Words, k: nat, n: int)
    requires k < |free| && free[k] in size && size[free[k]] >= n
    ensures Fits(free, size, n)
  {
  }

  /** One more block has been passed. */
  lemma Passed(free: seq<int>, size: Words, f: nat, k: nat, n: int)
    requires f < |free| && k < |free| && TooSmall(free, size, f, k, n) && free[k] in size && size[free[k]] < n
    ensures k != f ==> TooSmall(free, size, f, Next(k, |free|), n) && Dist(Next(k, |free|), f, |free|) < Dist(k, f, |free|)
    ensures k == f ==> !Fits(free, size, n)
  {
  }

  // ---------- what the process has ----------

  /** Free blocks do not adjoin, so a run of free units lies in one of them. */
  lemma RunInBlock(free: seq<int>, ptr: Words, size: Words, base: int, q: int, n: int)
    requires FreeList(free, ptr, size, base) && n > 0 && Cells(q, n) <= FreeCells(free, size)
    ensures Fits(free, size, n)
  {
    assert q in Cells(q, n);
    var i :| 0 <= i < |free| && free[i] in size && InBlock(free[i], size[free[i]], q);
    assert free[i] + size[free[i]] in Cells(q, n) <==> free[i] + size[free[i]] < q + n;
    BlockEnd(free, ptr, size, base, i);
  }

  lemma BlockEnd(free: seq<int>, ptr: Words, size: Words, base: int, i: nat)
    requires FreeList(free, ptr, size, base) && i < |free|
    ensures !IsFree(free, size, free[i] + size[free[i]])
  {
  }

  /** The new block of a request for which sbrk was asked. */
  lemma NewBlock(free: seq<int>, ptr: Words, size: Words, base: int, alloc: Words, arena: iset<int>, top: int,
                 nbytes: nat, hp: int, q: int)
    requires HeapOk(free, ptr, size, base, alloc, arena, top) && hp >= top && nbytes < 0x1_0000_0000
    requires !Fits(free, size, Units(nbytes))
    requires Cells(q, Units(nbytes)) <= FreeCells(free, size) + Cells(hp, CoreUnits(Units(nbytes)))
    ensures var granted := Granted(arena, hp, SbrkArg(CoreUnits(Units(nbytes))));
            && (Cells(q, Units(nbytes)) <= granted && (Units(nbytes) - 1) * UNIT >= nbytes <==> nbytes <= 0x7fff_fff0)
            && (arena + Cells(hp, CoreUnits(Units(nbytes))) == granted <==> nbytes <= 0x7fff_fff0 || nbytes > 0xffff_fff8)
  {
    var n, core := Units(nbytes), CoreUnits(Units(nbytes));
    var arg := SbrkArg(core);
    var granted := Granted(arena, hp, arg);
    AskedFor(nbytes);
    UnitsSuffice(nbytes);
    assert n > 0 && core > 0;
    hide Units, CoreUnits, SbrkArg;
    InArena(free, ptr, size, base, alloc, arena, top);
    if 0x7fff_fff0 < nbytes <= 0xffff_fff8 {
      assert granted <= arena;
      assert hp in Cells(hp, core) && hp !in granted;
      if Cells(q, n) <= granted {
        forall x | x in Cells(q, n) ensures x in FreeCells(free, size) {
          assert x in arena;
        }
        RunInBlock(free, ptr, size, base, q, n);
      }
    } else {
      assert granted == arena + Cells(hp, core);
    }
  }

  lemma InArena(free: seq<int>, ptr: Words, size: Words, base: int, alloc: Words, arena: iset<int>, top: int)
    requires HeapOk(free, ptr, size, base, alloc, arena, top)
    ensures FreeList(free, ptr, size, base) && FreeCells(free, size) <= arena && forall x :: x in arena ==> x < top
  {
    forall x | x in FreeCells(free, size) ensures x in arena {
      assert IsFree(free, size, x);
    }
  }

  class Heap {
    const base: int
    var freep: int  // 0 before the first call
    var ptr: Words
    var size: Words
    ghost var free: seq<int>
    ghost var alloc: Words
    ghost var arena: iset<int>
    ghost var top: int
    ghost var granted: iset<int>  // what the process has been given through sbrk

    constructor (base: int)
      requires base > 0
      ensures Inv() && freep == 0 && alloc == map[] && this.base == base && granted == iset{} && top == 0 && free == []
    {
      this.base := base;
      freep, ptr, size := 0, map[], map[];
      free, alloc, arena, top, granted := [], map[], iset{}, 0, iset{};
    }

    ghost predicate Ready()
      reads this
    {
      HeapOk(free, ptr, size, base, alloc, arena, top) && freep in free
    }

    ghost predicate Inv()
      reads this
    {
      base > 0 && if freep == 0 then free == [] && alloc == map[] && arena == iset{} else Ready()
    }

    /** The allocator keeps account of exactly the memory that the process has. */
    ghost predicate Backed()
      reads this
    {
      arena == granted
    }

    /** The block at `ap` is there and holds `nbytes` bytes. */
    ghost predicate Usable(ap: int, nbytes: nat)
      reads this
    {
      Cells(ap - 1, Units(nbytes)) <= granted && (Units(nbytes) - 1) * UNIT >= nbytes
    }

    /** The walk of free(): it ends at the free block that precedes `bp`. */
    method Locate(bp: int, ghost t: nat) returns (p: int)
      requires Ready() && base < bp && Place(free, bp, t)
      ensures p == free[t]
    {
      ghost var k :| 0 <= k < |free| && free[k] == freep;
      p := freep;
      Follow(free, ptr, size, base, k);
      while !(bp > p && bp < ptr[p])
        invariant 0 <= k < |free| && p == free[k] && p in ptr
        decreases Dist(k, t, |free|)
      {
        AtPlace(free, ptr, size, base, bp, t, k);
        if p >= ptr[p] && (bp > p || bp < ptr[p]) {
          break;
        }
        Follow(free, ptr, size, base, k);
        p := ptr[p];
        k := Next(k, |free|);
        Follow(free, ptr, size, base, k);
      }
      AtPlace(free, ptr, size, base, bp, t, k);
    }

    /** The block is free again, merged with its neighbours; no other block is touched. */
    method Free(ap: int)
      requires Ready() && ap - 1 in alloc
      modifies this`freep, this`ptr, this`size, this`free, this`alloc
      ensures Ready() && alloc == old(alloc) - {ap - 1}
      ensures FreeCells(free, size) == old(FreeCells(free, size)) + Cells(ap - 1, old(alloc)[ap - 1])
      ensures Fits(free, size, old(alloc)[ap - 1])
      ensures Untouched(alloc, old(ptr), ptr) && Untouched(alloc, old(size), size)
    {
      var bp := ap - 1;
      ghost var t := AllocatedPlace(free, ptr, size, base, alloc, arena, top, bp);
      var p := Locate(bp, t);
      assert Returned(free, ptr, size, base, bp, t);
      hide HeapOk, FreedList, FreedPtr, FreedSize, FreeCells, Cells, Untouched, Fits, FreeList;
      Link(bp, p, t);
      Freed(old(free), old(ptr), old(size), base, old(alloc), arena, top, bp, t);
      free, alloc := FreedList(old(free), old(ptr), old(size), base, bp, t), alloc - {bp};
    }

    /** The two merges around the place that was found. */
    method Link(bp: int, p: int, ghost t: nat)
      requires Returned(free, ptr, size, base, bp, t) && p == free[t]
      modifies this`freep, this`ptr, this`size
      ensures ptr == FreedPtr(old(free), old(ptr), old(size), base, bp, t)
      ensures size == FreedSize(old(free), old(ptr), old(size), base, bp, t) && freep == p
    {
      NextTest(free, ptr, size, base, bp, t);
      if bp + size[bp] == ptr[p] {
        size := size[bp := size[bp] + size[ptr[p]]];
        ptr := ptr[bp := ptr[ptr[p]]];
      } else {
        ptr := ptr[bp := ptr[p]];
      }
      if p + size[p] == bp {
        size := size[p := size[p] + size[bp]];
        ptr := ptr[p := ptr[bp]];
      } else {
        ptr := ptr[p := bp];
      }
      freep := p;
    }

    /** Asks sbrk for more, whose answer is `more`: a region above everything obtained before, or a refusal. */
    method Morecore(nu: int, more: Option<int>) returns (r: int)
      requires Ready() && nu > 0 && (more.Some? ==> more.value > base && more.value >= top)
      modifies this
      ensures Ready() && alloc == old(alloc) && r == if more.None? then 0 else freep
      ensures more.None? ==> unchanged(this)
      ensures more.Some? ==> Fits(free, size, nu) && arena == old(arena) + Cells(more.value, CoreUnits(nu))
      ensures more.Some? ==> FreeCells(free, size) == old(FreeCells(free, size)) + Cells(more.value, CoreUnits(nu))
      ensures more.Some? ==> granted == Granted(old(granted), more.value, SbrkArg(CoreUnits(nu)))
      ensures Untouched(alloc, old(ptr), ptr) && Untouched(alloc, old(size), size)
    {
      hide HeapOk, FreeCells, Cells, Fits, Untouched, Granted, SbrkArg;
      var n := CoreUnits(nu);
      if more.None? {
        UntouchedSame(alloc, ptr);
        UntouchedSame(alloc, size);
        return 0;
      }
      var hp := more.value;
      HeapGrown(free, ptr, size, base, alloc, arena, top, hp, n);
      granted := Granted(granted, hp, SbrkArg(n));
      size := size[hp := n];
      alloc, arena, top := alloc[hp := n], arena + Cells(hp, n), hp + n;
      label grown:
      Free(hp + 1);
      assert old@grown(alloc) - {hp} == old(alloc);
      UntouchedTwice(alloc, old(size), old@grown(size), size);
      FitsLess(free, size, n, nu);
      r := freep;
    }

    /** The block at free[k], or the tail of it, is handed out. */
    method Take(prevp: int, p: int, nunits: int, ghost k: nat) returns (ap: int)
      requires Ready() && 0 < k < |free| && p == free[k] && prevp == free[k - 1] && 0 < nunits <= size[p]
      modifies this`freep, this`ptr, this`size, this`free, this`alloc
      ensures Ready() && freep == prevp && ap - 1 > base && ap - 1 !in old(alloc) && alloc == old(alloc)[ap - 1 := nunits]
      ensures Cells(ap - 1, nunits) <= old(FreeCells(free, size))
      ensures Untouched(old(alloc), old(ptr), ptr) && Untouched(old(alloc), old(size), size)
    {
      hide HeapOk, Removed, TakenList, Untouched, Cells, FreeCells;
      HeadersKnown(free, ptr, size, base, alloc, arena, top, k);
      ghost var q := p + (size[p] - nunits);
      Taken(free, ptr, size, base, alloc, arena, top, k, nunits, q);
      var p := p;
      if size[p] == nunits {
        ptr := ptr[prevp := ptr[p]];
      } else {
        size := size[p := size[p] - nunits];
        p := p + size[p];
        size := size[p := nunits];
      }
      freep := prevp;
      free, alloc := TakenList(old(free), old(size), k, nunits), alloc[p := nunits];
      ap := p + 1;
    }

    /**
     The block handed out is disjoint from all others and no other block is touched.  The request
     fails exactly when no free block is large enough and sbrk refuses; sbrk is asked at most once.
     The block is usable exactly for requests of at most 0xfffffff8 bytes if a free block is large
     enough, and of at most 0x7ffffff0 bytes if sbrk has to be asked.
     */
    method Malloc(nbytes: nat, more: Option<int>) returns (ap: int)
      requires Inv() && nbytes < 0x1_0000_0000 && (more.Some? ==> more.value > base && more.value >= top)
      modifies this
      ensures Inv() && freep != 0
      ensures ap == 0 <==> more.None? && !old(Fits(free, size, Units(nbytes)))
      ensures ap == 0 ==> alloc == old(alloc)
      ensures ap != 0 ==> ap - 1 > base && ap - 1 !in old(alloc) && alloc == old(alloc)[ap - 1 := Units(nbytes)]
      ensures arena == if old(Fits(free, size, Units(nbytes))) || more.None? then old(arena)
                       else old(arena) + Cells(more.value, CoreUnits(Units(nbytes)))
      ensures old(Backed()) ==>
                (Backed() <==>
                   old(Fits(free, size, Units(nbytes))) || more.None? || nbytes <= 0x7fff_fff0 || nbytes > 0xffff_fff8)
      ensures old(Backed()) && ap != 0 ==>
                (Usable(ap, nbytes) <==> nbytes <= if old(Fits(free, size, Units(nbytes))) then 0xffff_fff8 else 0x7fff_fff0)
      ensures Untouched(old(alloc), old(ptr), ptr) && Untouched(old(alloc), old(size), size)
    {
      assert Units(nbytes) > 0;
      hide HeapOk, Fits, FreeCells, Cells, Untouched, Units, CoreUnits, SbrkArg, Granted;
      var prevp := freep;
      if prevp == 0 {
        prevp := Begin();
      } else {
        UntouchedSame(alloc, ptr);
        UntouchedSame(alloc, size);
      }
      label ready:
      ap := Search(prevp, Units(nbytes), more);
      if ap != 0 && old@ready(Backed()) {
        UnitsSuffice(nbytes);
        InArena(old@ready(free), old@ready(ptr), old@ready(size), base, old@ready(alloc), old@ready(arena), old@ready(top));
        if more.Some? && !old@ready(Fits(free, size, Units(nbytes))) {
          NewBlock(old@ready(free), old@ready(ptr), old@ready(size), base, old@ready(alloc), old@ready(arena),
                   old@ready(top),
                   nbytes, more.value, ap - 1);
        }
      }
      UntouchedTwice(old(alloc), old(ptr), old@ready(ptr), ptr);
      UntouchedTwice(old(alloc), old(size), old@ready(size), size);
    }

    /** The search of malloc(), from the block after `freep` around the list. */
    method Search(freep': int, nunits: int, more: Option<int>) returns (ap: int)
      requires Ready() && freep == freep' && base > 0 && nunits > 0 && (more.Some? ==> more.value > base && more.value >= top)
      modifies this
      ensures Ready() && freep != 0
      ensures ap == 0 <==> more.None? && !old(Fits(free, size, nunits))
      ensures ap == 0 ==> alloc == old(alloc)
      ensures ap != 0 ==> ap - 1 > base && ap - 1 !in old(alloc) && alloc == old(alloc)[ap - 1 := nunits]
      ensures arena == if old(Fits(free, size, nunits)) || more.None? then old(arena)
                       else old(arena) + Cells(more.value, CoreUnits(nunits))
      ensures granted == if old(Fits(free, size, nunits)) || more.None? then old(granted)
                         else Granted(old(granted), more.value, SbrkArg(CoreUnits(nunits)))
      ensures ap != 0 ==> Cells(ap - 1, nunits) <= if old(Fits(free, size, nunits)) then old(FreeCells(free, size))
                                                   else old(FreeCells(free, size)) + Cells(more.value, CoreUnits(nunits))
      ensures Untouched(old(alloc), old(ptr), ptr) && Untouched(old(alloc), old(size), size)
    {
      hide HeapOk, Fits, FreeCells, Cells, Untouched, TooSmall, Granted, SbrkArg, CoreUnits;
      var prevp := freep';
      UntouchedSame(alloc, ptr);
      UntouchedSame(alloc, size);
      ghost var f :| 0 <= f < |free| && free[f] == freep;
      ghost var k := Next(f, |free|);
      ghost var grown := false;
      HeadersKnown(free, ptr, size, base, alloc, arena, top, f);
      SamePosition(free, ptr, size, base, alloc, arena, top, f, f);
      NonePassed(free, size, f, nunits);
      var p := ptr[prevp];
      while true
        invariant Ready() && freep != 0 && alloc == old(alloc)
        invariant 0 <= f < |free| && freep == free[f] && 0 <= k < |free| && p == free[k]
        invariant prevp == free[if k == 0 then |free| - 1 else k - 1]
        invariant TooSmall(free, size, f, k, nunits)
        invariant if grown then more.Some? && !old(Fits(free, size, nunits)) && Fits(free, size, nunits)
                  else Fits(free, size, nunits) == old(Fits(free, size, nunits)) && top == old(top)
        invariant arena == if grown then old(arena) + Cells(more.value, CoreUnits(nunits)) else old(arena)
        invariant granted == if grown then Granted(old(granted), more.value, SbrkArg(CoreUnits(nunits))) else old(granted)
        invariant FreeCells(free, size) == if grown then old(FreeCells(free, size)) + Cells(more.value, CoreUnits(nunits))
                                           else old(FreeCells(free, size))
        invariant Untouched(alloc, old(ptr), ptr) && Untouched(alloc, old(size), size)
        decreases !grown, Dist(k, f, |free|)
      {
        HeadersKnown(free, ptr, size, base, alloc, arena, top, k);
        label visit:
        if size[p] >= nunits {
          Found(free, size, k, nunits);
          SamePosition(free, ptr, size, base, alloc, arena, top, k - 1, k);
          ap := Take(prevp, p, nunits, k);
          UntouchedTwice(old(alloc), old(ptr), old@visit(ptr), ptr);
          UntouchedTwice(old(alloc), old(size), old@visit(size), size);
          return;
        }
        Passed(free, size, f, k, nunits);
        SamePosition(free, ptr, size, base, alloc, arena, top, k, f);
        if p == freep {
          p := Morecore(nunits, more);
          f :| 0 <= f < |free| && free[f] == freep;
          SamePosition(free, ptr, size, base, alloc, arena, top, f, f);
          if p == 0 {
            return 0;
          }
          UntouchedTwice(alloc, old(ptr), old@visit(ptr), ptr);
          UntouchedTwice(alloc, old(size), old@visit(size), size);
          k, grown := f, true;
          HeadersKnown(free, ptr, size, base, alloc, arena, top, f);
          NonePassed(free, size, f, nunits);
        }
        prevp := p;
        p := ptr[p];
        k := Next(k, |free|);
      }
    }

    /** The first call makes `base` the whole free list. */
    method Begin() returns (prevp: int)
      requires Inv() && freep == 0
      modifies this`freep, this`ptr, this`size, this`free
      ensures Ready() && freep == prevp == base
      ensures forall n :: n > 0 ==> !Fits(free, size, n) && !old(Fits(free, size, n))
      ensures FreeCells(free, size) == old(FreeCells(free, size))
      ensures Untouched(alloc, old(ptr), ptr) && Untouched(alloc, old(size), size)
    {
      freep, prevp, ptr := base, base, ptr[base := base];
      size := size[base := 0];
      free := [base];
      OnlyBase(ptr, size, base, top);
      assert forall x :: !IsAllocated(alloc, x);
    }
  }

  /** A first request for 2^31 - 15 bytes, with an sbrk that does not refuse, returns a block that is not there. */
  method LargeRequest(base: int, brk: int) returns (heap: Heap, ap: int)
    requires 0 < base < brk
    ensures fresh(heap) && heap.Inv() && ap != 0 && ap - 1 in heap.alloc && !heap.Usable(ap, 0x7fff_fff1) && !heap.Backed()
  {
    heap := new Heap(base);
    ap := heap.Malloc(0x7fff_fff1, Some(brk));
  }
}
