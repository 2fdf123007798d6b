/**
 The on-disk format of fs.h: little-endian words, inodes packed eight to a block, and the free
 bit map.  A disk is a sequence of 512-byte blocks, seen through the buffer cache.
 */
module FsLayout {

  const BSIZE := 512
  const NDIRECT := 12
  const NINDIRECT := 128
  const MAXFILE := NDIRECT + NINDIRECT
  const BPB := BSIZE * 8
  const IPB := 8
  const DINODE := 64
  const UINT := 0x1_0000_0000

  type byte = x: int | 0 <= x < 256
  type uint16 = x: int | 0 <= x < 0x1_0000
  type uint32 = x: int | 0 <= x < UINT

  type Block = b: seq<byte> | |b| == BSIZE witness seq(BSIZE, _ => 0)
  type Disk = seq<Block>

  function ZeroBlock(): (z: Block)
    ensures forall k :: 0 <= k < BSIZE ==> z[k] == 0
  {
    seq(BSIZE, _ => 0)
  }

  datatype Super = Super(size: nat, ninodes: nat, inodestart: nat, bmapstart: nat)

  function DataStart(sb: Super): nat {
    sb.bmapstart + sb.size / BPB + 1
  }

  ghost predicate ValidSuper(sb: Super, d: Disk) {
    && |d| == sb.size < UINT
    && 2 <= sb.inodestart
    && sb.inodestart + sb.ninodes / IPB + 1 <= sb.bmapstart
    && DataStart(sb) <= sb.size
  }

  // ---------- copying into a buffer ----------

  /** memmove of `s` into a buffer at `off`. */
  function Splice(b: seq<byte>, off: nat, s: seq<byte>): (r: seq<byte>)
    requires off + |s| <= |b|
    ensures |r| == |b|
    ensures forall k :: 0 <= k < |b| ==> r[k] == if off <= k < off + |s| then s[k - off] else b[k]
  {
    b[..off] + s + b[off + |s|..]
  }

  // ---------- little-endian integers ----------

  function Bytes32(v: uint32): (s: seq<byte>)
    ensures |s| == 4
  {
    [v % 256, v / 256 % 256, v / 65536 % 256, v / 16777216]
  }

  function Read16(s: seq<byte>, off: nat): uint16
    requires off + 2 <= |s|
  {
    var lo: int, hi: int := s[off], s[off + 1];
    lo + 256 * hi
  }

  function Read32(s: seq<byte>, off: nat): uint32
    requires off + 4 <= |s|
  {
    var b0: int, b1: int, b2: int, b3: int := s[off], s[off + 1], s[off + 2], s[off + 3];
    b0 + 256 * b1 + 65536 * b2 + 16777216 * b3
  }

  lemma Digits(v: uint32)
    ensures v == v % 256 + 256 * (v / 256 % 256) + 65536 * (v / 65536 % 256) + 16777216 * (v / 16777216)
  {
  }

  /** Whatever surrounds an integer in a buffer, reading it back gives the integer. */
  lemma ReadBytes(s: seq<byte>, off: nat, v: uint32)
    requires off + 4 <= |s| && s[off..off + 4] == Bytes32(v)
    ensures Read32(s, off) == v
  {
    Digits(v);
    var t := s[off..off + 4];
    assert s[off] == t[0] && s[off + 1] == t[1] && s[off + 2] == t[2] && s[off + 3] == t[3];
  }

  /** Entry `i` of an indirect block. */
  function Word(b: Block, i: nat): uint32
    requires i < NINDIRECT
  {
    Read32(b, 4 * i)
  }

  function SetWord(b: Block, i: nat, v: uint32): (r: Block)
    requires i < NINDIRECT
    ensures forall j :: 0 <= j < NINDIRECT ==> Word(r, j) == if i == j then v else Word(b, j)
  {
    var r := Splice(b, 4 * i, Bytes32(v));
    assert r[4 * i..4 * i + 4] == Bytes32(v);
    ReadBytes(r, 4 * i, v);
    r
  }

  // ---------- inodes ----------

  datatype RawInode = Inode(typ: uint16, major: uint16, minor: uint16, nlink: uint16, size: uint32, addrs: seq<uint32>)

  type Inode = n: RawInode | |n.addrs| == NDIRECT + 1 witness Inode(0, 0, 0, 0, 0, seq(NDIRECT + 1, _ => 0))

  function Addrs(a: seq<uint32>): (s: seq<byte>)
    ensures |s| == 4 * |a|
  {
    if a == [] then [] else Addrs(a[..|a| - 1]) + Bytes32(a[|a| - 1])
  }

  /** The fields before the addresses. */
  function Fields(n: Inode): (s: seq<byte>)
    ensures |s| == 12
  {
    [n.typ % 256, n.typ / 256, n.major % 256, n.major / 256, n.minor % 256, n.minor / 256,
     n.nlink % 256, n.nlink / 256] + Bytes32(n.size)
  }

  function Encode(n: Inode): (s: seq<byte>)
    ensures |s| == DINODE
  {
    Fields(n) + Addrs(n.addrs)
  }

  function Decode(s: seq<byte>): Inode
    requires |s| == DINODE
  {
    Inode(Read16(s, 0), Read16(s, 2), Read16(s, 4), Read16(s, 6), Read32(s, 8),
          seq(NDIRECT + 1, i requires 0 <= i < NDIRECT + 1 => Read32(s, 12 + 4 * i)))
  }

  lemma {:induction false} AddrsAt(a: seq<uint32>, i: nat)
    requires i < |a|
    ensures Addrs(a)[4 * i..4 * i + 4] == Bytes32(a[i])
  {
    var n := |a| - 1;
    if i < n {
      AddrsAt(a[..n], i);
      assert Addrs(a)[4 * i..4 * i + 4] == Addrs(a[..n])[4 * i..4 * i + 4];
    }
  }

  /** An inode read back from its 64 bytes is the inode that was written. */
  lemma InodeRoundTrip(n: Inode)
    ensures Decode(Encode(n)) == n
  {
    var s := Encode(n);
    assert forall k :: 0 <= k < 12 ==> s[k] == Fields(n)[k];
    assert s[8..12] == Bytes32(n.size);
    ReadBytes(s, 8, n.size);
    forall i | 0 <= i < NDIRECT + 1 ensures Read32(s, 12 + 4 * i) == n.addrs[i] {
      AddrsAt(n.addrs, i);
      assert s[12..] == Addrs(n.addrs);
      assert s[12 + 4 * i..12 + 4 * i + 4] == s[12..][4 * i..4 * i + 4];
      ReadBytes(s, 12 + 4 * i, n.addrs[i]);
    }
    assert Decode(s).addrs == n.addrs;
  }

  function IBlock(sb: Super, i: nat): nat {
    i / IPB + sb.inodestart
  }

  function GetInode(sb: Super, d: Disk, i: nat): Inode
    requires ValidSuper(sb, d) && i < sb.ninodes
  {
    var off := i % IPB * DINODE;
    Decode(d[IBlock(sb, i)][off..off + DINODE])
  }

  /** iupdate's effect on the disk. */
  function PutInode(sb: Super, d: Disk, i: nat, n: Inode): (r: Disk)
    requires ValidSuper(sb, d) && i < sb.ninodes
    ensures ValidSuper(sb, r)
    ensures forall b :: 0 <= b < |d| && b != IBlock(sb, i) ==> r[b] == d[b]
    ensures forall j :: 0 <= j < sb.ninodes ==> GetInode(sb, r, j) == if i == j then n else GetInode(sb, d, j)
  {
    var b, off := IBlock(sb, i), i % IPB * DINODE;
    var r := d[b := Splice(d[b], off, Encode(n))];
    PutInodeSlots(sb, d, i, n);
    r
  }

  lemma PutInodeSlots(sb: Super, d: Disk, i: nat, n: Inode)
    requires ValidSuper(sb, d) && i < sb.ninodes
    ensures var b := IBlock(sb, i);
            var r := d[b := Splice(d[b], i % IPB * DINODE, Encode(n))];
            forall j :: 0 <= j < sb.ninodes ==> GetInode(sb, r, j) == if i == j then n else GetInode(sb, d, j)
  {
    hide Encode, Decode;
    var b, off := IBlock(sb, i), i % IPB * DINODE;
    var r := d[b := Splice(d[b], off, Encode(n))];
    forall j | 0 <= j < sb.ninodes ensures GetInode(sb, r, j) == if i == j then n else GetInode(sb, d, j) {
      var off' := j % IPB * DINODE;
      if i == j {
        assert r[b][off..off + DINODE] == Encode(n);
        InodeRoundTrip(n);
      } else if IBlock(sb, j) == b {
        assert r[b][off'..off' + DINODE] == d[b][off'..off' + DINODE];
      }
    }
  }

  // ---------- the free bit map ----------

  /** Bit `k` of a byte: x & (1 << k) is not zero. */
  predicate TestBit(x: nat, k: nat) {
    if k == 0 then x % 2 == 1 else TestBit(x / 2, k - 1)
  }

  function Mask(k: nat): nat {
    if k == 0 then 1 else 2 * Mask(k - 1)
  }

  /** Turns bit `k` over: x | m when it was clear, x & ~m when it was set. */
  function FlipBit(x: nat, k: nat): nat {
    if k == 0 then (if x % 2 == 0 then x + 1 else x - 1) else 2 * FlipBit(x / 2, k - 1) + x % 2
  }

  lemma {:induction false} FlipBitIs(x: nat, k: nat)
    ensures FlipBit(x, k) == if TestBit(x, k) then x - Mask(k) else x + Mask(k)
  {
    if k > 0 {
      FlipBitIs(x / 2, k - 1);
    }
  }

  lemma {:induction false} FlipBitBelow(x: nat, k: nat, n: nat)
    requires k < n && x < Mask(n)
    ensures FlipBit(x, k) < Mask(n)
  {
    var half := Mask(n - 1);
    assert Mask(n) == 2 * half;
    if k > 0 {
      assert x / 2 < half;
      FlipBitBelow(x / 2, k - 1, n - 1);
    }
  }

  /** The byte with bit `k` set, as balloc writes it, or cleared, as bfree does: the same byte turned over. */
  function SetBit(x: byte, k: nat): (r: byte)
    requires k < 8 && !TestBit(x, k)
    ensures r == FlipBit(x, k)
  {
    FlipBitIs(x, k);
    MaskByte();
    FlipBitBelow(x, k, 8);
    x + Mask(k)
  }

  function ClearBit(x: byte, k: nat): (r: byte)
    requires k < 8 && TestBit(x, k)
    ensures r == FlipBit(x, k)
  {
    FlipBitIs(x, k);
    MaskByte();
    FlipBitBelow(x, k, 8);
    x - Mask(k)
  }

  lemma MaskByte()
    ensures Mask(8) == 256
  {
  }

  lemma {:induction false} FlipBitTest(x: nat, k: nat, j: nat)
    ensures TestBit(FlipBit(x, k), j) == if j == k then !TestBit(x, k) else TestBit(x, j)
  {
    if k > 0 && j > 0 {
      FlipBitTest(x / 2, k - 1, j - 1);
      assert FlipBit(x, k) / 2 == FlipBit(x / 2, k - 1);
    }
  }

  function BBlock(sb: Super, b: nat): nat {
    b / BPB + sb.bmapstart
  }

  /** Whether block `b` is marked in use. */
  predicate Bit(sb: Super, d: Disk, b: nat)
    requires ValidSuper(sb, d) && b < sb.size
  {
    var bi := b % BPB;
    TestBit(d[BBlock(sb, b)][bi / 8], bi % 8)
  }

  /** The bit map with the mark of `b` turned over. */
  function Flip(sb: Super, d: Disk, b: nat): (r: Disk)
    requires ValidSuper(sb, d) && b < sb.size
    ensures ValidSuper(sb, r)
    ensures forall a :: 0 <= a < |d| && a != BBlock(sb, b) ==> r[a] == d[a]
    ensures forall c :: 0 <= c < sb.size ==> Bit(sb, r, c) == if b == c then !Bit(sb, d, b) else Bit(sb, d, c)
  {
    var a, bi := BBlock(sb, b), b % BPB;
    MaskByte();
    FlipBitBelow(d[a][bi / 8], bi % 8, 8);
    var r := d[a := d[a][bi / 8 := FlipBit(d[a][bi / 8], bi % 8)]];
    FlipBits(sb, d, b, r);
    r
  }

  lemma FlipBits(sb: Super, d: Disk, b: nat, r: Disk)
    requires ValidSuper(sb, d) && b < sb.size && |r| == |d|
    requires var a, bi := BBlock(sb, b), b % BPB;
             FlipBit(d[a][bi / 8], bi % 8) < 256 && r == d[a := d[a][bi / 8 := FlipBit(d[a][bi / 8], bi % 8)]]
    ensures forall c :: 0 <= c < sb.size ==> Bit(sb, r, c) == if b == c then !Bit(sb, d, b) else Bit(sb, d, c)
  {
    forall c | 0 <= c < sb.size ensures Bit(sb, r, c) == if b == c then !Bit(sb, d, b) else Bit(sb, d, c) {
      FlipBitTest(d[BBlock(sb, b)][b % BPB / 8], b % BPB % 8, c % BPB % 8);
    }
  }

  // ---------- regions ----------

  /** Bits depend on the bit map blocks only. */
  lemma BitsFrame(sb: Super, d: Disk, e: Disk)
    requires ValidSuper(sb, d) && ValidSuper(sb, e)
    requires forall c :: sb.bmapstart <= c < DataStart(sb) ==> e[c] == d[c]
    ensures forall b :: 0 <= b < sb.size ==> Bit(sb, e, b) == Bit(sb, d, b)
  {
  }

  /** Inodes depend on the inode blocks only. */
  lemma InodesFrame(sb: Super, d: Disk, e: Disk)
    requires ValidSuper(sb, d) && ValidSuper(sb, e)
    requires forall c :: sb.inodestart <= c < sb.bmapstart ==> e[c] == d[c]
    ensures forall i :: 0 <= i < sb.ninodes ==> GetInode(sb, e, i) == GetInode(sb, d, i)
  {
  }

  lemma Regions(sb: Super, d: Disk, i: nat, b: nat)
    requires ValidSuper(sb, d)
    ensures i < sb.ninodes ==> sb.inodestart <= IBlock(sb, i) < sb.bmapstart
    ensures b < sb.size ==> sb.bmapstart <= BBlock(sb, b) < DataStart(sb)
  {
  }
}
