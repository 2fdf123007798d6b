/**
 The IDE driver of ide.c as a queue of requests with one active request at its head, refining the
 synchronous disk of memide.c.

 `Iderw` is the critical section of iderw up to its wait, `Ideintr` is the interrupt handler.  The
 controller is a request register: idestart fills it, and the completion interrupt finds its
 command carried out.  A waiting process holds the sleep lock of its buffer, so nobody else
 changes a queued buffer.
 */
module DiskQueue {

  const FSSIZE := 1000

  type Block = seq<int>

  /** A sector is named by the drive, which is the low bit of the device number, and the block number. */
  type Key = (nat, nat)

  type Disk = map<Key, Block>

  predicate Complete(d: Disk) {
    forall drive: nat, b: nat :: drive < 2 && b < FSSIZE ==> (drive, b) in d
  }

  /** The parts of a buffer that the disk driver uses. */
  datatype Request = Request(key: Key, valid: bool, dirty: bool, data: Block)

  /** The command that idestart gives to the controller. */
  datatype Command = Idle | Read(key: Key) | WriteData(key: Key, data: Block)

  function Start(r: Request): Command {
    if r.dirty then WriteData(r.key, r.data) else Read(r.key)
  }

  // ---------- the synchronous disk ----------

  /** iderw of memide.c: what one request does to the disk and to its buffer. */
  function MemDisk(d: Disk, r: Request): Disk {
    if r.dirty then d[r.key := r.data] else d
  }

  function MemBuf(d: Disk, r: Request): (s: Request)
    requires r.key in d
    ensures s.valid && !s.dirty && s.key == r.key
  {
    if r.dirty then r.(dirty := false, valid := true) else r.(data := d[r.key], valid := true)
  }

  /** The disk after a list of requests served one at a time. */
  function Replay(d: Disk, log: seq<Request>): Disk {
    if log == [] then d else MemDisk(Replay(d, log[..|log| - 1]), log[|log| - 1])
  }

  /** Each block holds what the last write request for it in the list carried. */
  lemma {:induction false} ReplayLastWrite(d: Disk, log: seq<Request>, k: Key)
    requires k in d
    ensures k in Replay(d, log)
    ensures (forall i :: 0 <= i < |log| && log[i].dirty ==> log[i].key != k) ==> Replay(d, log)[k] == d[k]
    ensures forall i :: 0 <= i < |log| && log[i].dirty && log[i].key == k && LastFor(log, i, k) ==>
            Replay(d, log)[k] == log[i].data
  {
    if log != [] {
      var n := |log| - 1;
      ReplayLastWrite(d, log[..n], k);
      assert forall i :: 0 <= i < n && LastFor(log, i, k) ==> LastFor(log[..n], i, k);
    }
  }

  /** No request after the one at `i` writes block `k`. */
  ghost predicate LastFor(log: seq<Request>, i: nat, k: Key) {
    forall j :: i < j < |log| && log[j].dirty ==> log[j].key != k
  }

  class Buf {
    const dev: nat
    const blockno: nat
    var valid: bool
    var dirty: bool
    var data: Block
    var qnext: Buf?

    constructor (dev: nat, blockno: nat)
      ensures this.dev == dev && this.blockno == blockno && !valid && !dirty
    {
      this.dev, this.blockno := dev, blockno;
      valid, dirty, data, qnext := false, false, [], null;
    }

    function Req(): Request
      reads this
    {
      Request((dev % 2, blockno), valid, dirty, data)
    }

    /** There is something to do: iderw waits until this is false. */
    predicate Pending()
      reads this
    {
      !valid || dirty
    }
  }

  function Elems(q: seq<Buf>): set<Buf> {
    set b | b in q
  }

  class Ide {
    const havedisk1: bool
    var idequeue: Buf?
    var command: Command
    var disk: Disk
    ghost var q: seq<Buf>         // the queue that the qnext pointers form
    ghost var issued: seq<Buf>    // all requests so far, in the order of their iderw calls
    ghost var finished: seq<Buf>  // those completed, in the order of completion
    ghost const disk0: Disk
    ghost var log: seq<Request>   // the completed requests as they stood when they completed

    ghost predicate Linked()
      reads this, q
    {
      && (q == [] <==> idequeue == null) && (q != [] ==> q[0] == idequeue && q[|q| - 1].qnext == null)
      && (forall i, j :: 0 <= i < j < |q| ==> q[i] != q[j])
      && (forall i {:trigger q[i].qnext} :: 0 <= i < |q| - 1 ==> q[i].qnext == q[i + 1])
    }

    ghost predicate Valid()
      reads this, q
    {
      && Linked()
      && (forall i :: 0 <= i < |q| ==> q[i].Pending())
      && (q == [] ==> command == Idle)
      && (q != [] ==> command == Start(q[0].Req()) && q[0].blockno < FSSIZE)
      && issued == finished + q
      && Complete(disk) && disk == Replay(disk0, log) && |log| == |finished|
    }

    constructor (d: Disk, havedisk1: bool)
      requires Complete(d)
      ensures Valid() && q == [] && disk == d && issued == [] && log == []
    {
      this.havedisk1, idequeue, command, disk, disk0 := havedisk1, null, Idle, d, d;
      q, issued, finished, log := [], [], [], [];
    }

    /** The loop of iderw that finds the end of the queue: the last buffer, or null for an empty queue. */
    method Last() returns (p: Buf?)
      requires Valid()
      ensures p == if q == [] then null else q[|q| - 1]
    {
      p := idequeue;
      if p == null {
        return;
      }
      ghost var i := 0;
      while p.qnext != null
        invariant 0 <= i < |q| && p == q[i]
        decreases |q| - i
      {
        p, i := p.qnext, i + 1;
      }
    }

    /**
     iderw up to its wait: the request joins the end of the queue, and starts if it is the only one.
     The panics are a buffer that is not locked, nothing to do, a missing second disk, and a block
     past the end of the disk at the head of the queue.
     */
    method Iderw(b: Buf, locked: bool) returns (ok: bool)
      requires Valid() && b !in q
      modifies this`idequeue, this`command, this`q, this`issued, b`qnext, Elems(q)`qnext
      ensures ok <==> locked && b.Pending() && (b.dev == 0 || havedisk1) && (old(q) == [] ==> b.blockno < FSSIZE)
      ensures ok ==> Valid() && q == old(q) + [b] && issued == old(issued) + [b]
    {
      if !locked || (b.valid && !b.dirty) || (b.dev != 0 && !havedisk1) {
        return false;
      }
      var last := Last();
      b.qnext := null;
      if last == null {
        if b.blockno >= FSSIZE {
          return false;
        }
        idequeue := b;
        command := Start(b.Req());
      } else {
        assert last in q;
        last.qnext := b;
      }
      q := q + [b];
      issued := issued + [b];
      assert issued == finished + q;
      return true;
    }

    /**
     ideintr: the active request completes, with exactly the effect that the synchronous disk has on
     it, and the next one starts.  Nothing happens when the queue is empty.  The panic is a block
     past the end of the disk.
     */
    method Ideintr() returns (ok: bool)
      requires Valid()
      modifies this, Elems(q)`valid, Elems(q)`dirty, Elems(q)`data
      ensures ok <==> |old(q)| < 2 || old(q)[1].blockno < FSSIZE
      ensures issued == old(issued)
      ensures old(q) == [] ==> q == [] && disk == old(disk) && finished == old(finished) && log == old(log)
      ensures old(q) != [] && ok ==>
                var b := old(q)[0];
                && q == old(q)[1..] && finished == old(finished) + [b] && log == old(log) + [old(b.Req())]
                && old(b.Req()).key in old(disk)
                && disk == MemDisk(old(disk), old(b.Req())) && b.Req() == MemBuf(old(disk), old(b.Req()))
      ensures ok ==> Valid()
      ensures forall x :: x in old(q) && x != old(q)[0] ==> x.Req() == old(x.Req())
    {
      if idequeue == null {
        return true;
      }
      assert idequeue in q;
      Finish(idequeue);
      if idequeue != null {
        assert idequeue == q[0];
        if idequeue.blockno >= FSSIZE {
          return false;
        }
        command := Start(idequeue.Req());
      }
      return true;
    }

    /** The part of ideintr that takes the active request off the queue. */
    method Finish(b: Buf)
      requires Valid() && q != [] && b == q[0]
      modifies this`idequeue, this`command, this`disk, this`q, this`finished, this`log, b`valid, b`dirty, b`data
      ensures Linked() && q == old(q)[1..] && command == Idle && (forall i :: 0 <= i < |q| ==> q[i].Pending())
      ensures finished == old(finished) + [b] && issued == finished + q
      ensures Complete(disk) && disk == Replay(disk0, log) && log == old(log) + [old(b.Req())]
      ensures old(b.Req()).key in old(disk) && disk == MemDisk(old(disk), old(b.Req()))
      ensures b.Req() == MemBuf(old(disk), old(b.Req()))
    {
      ReplayNext(disk0, log, b.Req());
      log := log + [b.Req()];
      // the controller has carried out its command
      match command {
        case WriteData(k, data) => disk := disk[k := data];
        case Read(k) => b.data := disk[k];
      }
      command := Idle;
      idequeue := b.qnext;
      b.valid := true;
      b.dirty := false;
      finished := finished + [b];
      q := q[1..];
      assert issued == finished + q;
    }
  }

  lemma ReplayNext(d: Disk, log: seq<Request>, r: Request)
    ensures Replay(d, log + [r]) == MemDisk(Replay(d, log), r)
  {
  }
}
