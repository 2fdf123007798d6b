/**
 The pipe of pipe.c: a ring of 512 bytes with 32-bit counters that wrap around.

 pipewrite and piperead hold the pipe's lock except while they sleep, so each is a series of
 uninterrupted pieces.  A method is one piece: it starts or goes on with the lock held and runs until
 the routine returns or sleeps.  Every interleaving of readers, writers and closers is a sequence of
 calls of these methods.  `written` and `delivered` are all the bytes that ever went in and out.
 */
module Pipes {

  const SIZE := 512
  const WORD := 0x1_0000_0000

  type Byte = x: int | 0 <= x < 256

  datatype Status = Finished | Asleep | Failed

  /** The counters tell an empty and a full ring apart although they wrap. */
  lemma Counters(r: nat, w: nat)
    requires r <= w <= r + SIZE
    ensures w % WORD == (r % WORD + SIZE) % WORD <==> w == r + SIZE
    ensures r % WORD == w % WORD <==> r == w
    ensures (w % WORD - r % WORD) % WORD == w - r
  {
  }

  lemma Remainder(x: nat, k: nat, b: nat)
    requires x == SIZE * k + b && b < SIZE
    ensures x % SIZE == b
  {
  }

  /** The size of the ring divides the range of the counters. */
  lemma Increment(w: nat)
    ensures (w % WORD + 1) % WORD == (w + 1) % WORD && w % WORD % SIZE == w % SIZE
  {
    var q, r := w / WORD, w % WORD;
    assert w == SIZE * (0x80_0000 * q + r / SIZE) + r % SIZE;
    Remainder(w, 0x80_0000 * q + r / SIZE, r % SIZE);
    Wrap(w, q, r);
  }

  lemma Wrap(w: nat, q: nat, r: nat)
    requires w == WORD * q + r && r < WORD
    ensures (w + 1) % WORD == (r + 1) % WORD
  {
  }

  /** Two positions of the window do not share a cell of the ring. */
  lemma Cells(k: nat, w: nat)
    requires k < w < k + SIZE
    ensures k % SIZE != w % SIZE
  {
  }

  class Pipe {
    const data: array<Byte>
    var nread: nat
    var nwrite: nat
    var readopen: bool
    var writeopen: bool
    ghost var written: seq<Byte>
    ghost var delivered: seq<Byte>
    ghost var readersAsleep: nat
    ghost var writersAsleep: nat

    constructor ()
      ensures Inv() && fresh(data) && written == delivered == [] && readopen && writeopen && readersAsleep == writersAsleep == 0
    {
      data := new Byte[512];
      nread, nwrite, readopen, writeopen := 0, 0, true, true;
      written, delivered, readersAsleep, writersAsleep := [], [], 0, 0;
    }

    /** The bytes in the ring are those written and not yet delivered. */
    ghost predicate Inv()
      reads this, data
    {
      && data.Length == SIZE
      && nread == |delivered| % WORD && nwrite == |written| % WORD
      && delivered <= written && |written| <= |delivered| + SIZE
      && forall k :: |delivered| <= k < |written| ==> data[k % SIZE] == written[k]
    }

    /** A reader sleeps only on an empty pipe that may still be written to. */
    ghost predicate ReadersQuiet()
      reads this
    {
      readersAsleep > 0 ==> delivered == written && writeopen
    }

    /** A writer sleeps only on a full pipe that may still be read. */
    ghost predicate WritersQuiet()
      reads this
    {
      writersAsleep > 0 ==> |written| == |delivered| + SIZE && readopen
    }

    /** The number of bytes in the ring, from the counters. */
    function Count(): (n: nat)
      requires Inv()
      reads this, data
      ensures n == |written| - |delivered| <= SIZE
    {
      Counters(|delivered|, |written|);
      (nwrite - nread) % WORD
    }

    /** One byte goes into the ring. */
    method Put(b: Byte)
      requires Inv() && |written| < |delivered| + SIZE
      modifies this`nwrite, this`written, data
      ensures Inv() && written == old(written) + [b]
    {
      Increment(|written|);
      forall k | |delivered| <= k < |written| ensures k % SIZE != |written| % SIZE {
        Cells(k, |written|);
      }
      data[nwrite % SIZE] := b;
      nwrite := (nwrite + 1) % WORD;
      written := written + [b];
    }

    /** One byte comes out of the ring: the oldest. */
    method Get() returns (b: Byte)
      requires Inv() && |delivered| < |written|
      modifies this`nread, this`delivered
      ensures Inv() && delivered == old(delivered) + [b]
    {
      Increment(|delivered|);
      b := data[nread % SIZE];
      nread := (nread + 1) % WORD;
      delivered := delivered + [b];
    }

    /**
     pipewrite from byte `i0` on: it goes on until all is written or the ring is full.  A reader is
     left asleep beside bytes exactly when one sleeps, more bytes are to be written than the ring
     holds, and the writer is killed or the read end closed: the path that gives up wakes nobody.
     */
    method Write(addr: seq<Byte>, i0: nat, killed: bool) returns (i: nat, status: Status)
      requires Inv() && i0 <= |addr|
      modifies this`nwrite, this`written, this`readersAsleep, this`writersAsleep, data
      ensures Inv() && i0 <= i <= |addr| && written == old(written) + addr[i0..i]
      ensures i - i0 == if |addr| - i0 < SIZE - old(Count()) then |addr| - i0 else SIZE - old(Count())
      ensures status.Finished? <==> i == |addr|
      ensures !status.Finished? ==> Count() == SIZE && (status.Failed? <==> !readopen || killed)
      ensures readersAsleep == (if status.Failed? then old(readersAsleep) else 0)
      ensures writersAsleep == old(writersAsleep) + (if status.Asleep? then 1 else 0)
      ensures old(ReadersQuiet()) ==>
                (ReadersQuiet() <==> !(old(readersAsleep) > 0 && |addr| - i0 > SIZE && (killed || !readopen)))
      ensures old(WritersQuiet()) ==> WritersQuiet()
    {
      i := i0;
      while i < |addr|
        invariant Inv() && i0 <= i <= |addr| && written == old(written) + addr[i0..i]
        invariant readersAsleep == old(readersAsleep) && writersAsleep == old(writersAsleep)
        invariant old(WritersQuiet()) && writersAsleep > 0 ==> i == i0
      {
        Counters(|delivered|, |written|);
        if nwrite == (nread + SIZE) % WORD {
          if !readopen || killed {
            return i, Failed;
          }
          readersAsleep := 0;
          writersAsleep := writersAsleep + 1;
          return i, Asleep;
        }
        Put(addr[i]);
        i := i + 1;
      }
      readersAsleep := 0;
      status := Finished;
    }

    /** piperead: it sleeps on an empty pipe that may still be written to, and otherwise takes what there is. */
    method Read(n: nat, killed: bool) returns (out: seq<Byte>, status: Status)
      requires Inv()
      modifies this`nread, this`delivered, this`readersAsleep, this`writersAsleep
      ensures Inv() && delivered == old(delivered) + out
      ensures status.Finished? <==> !(old(delivered == written) && writeopen)
      ensures readersAsleep == old(readersAsleep) + (if status.Asleep? then 1 else 0)
      ensures writersAsleep == (if status.Finished? then 0 else old(writersAsleep))
      ensures !status.Finished? ==> out == [] && delivered == written && writeopen && (status.Failed? <==> killed)
      ensures status.Finished? ==> |out| == if n < old(Count()) then n else old(Count())
      ensures status.Finished? && out == [] && n > 0 ==> !writeopen && delivered == written
      ensures (old(ReadersQuiet()) ==> ReadersQuiet()) && (old(WritersQuiet()) ==> WritersQuiet())
    {
      Counters(|delivered|, |written|);
      out := [];
      if nread == nwrite && writeopen {
        if killed {
          return out, Failed;
        }
        readersAsleep := readersAsleep + 1;
        return out, Asleep;
      }
      var i := 0;
      while i < n
        invariant Inv() && delivered == old(delivered) + out && i == |out| <= n
        invariant readersAsleep == old(readersAsleep) && writersAsleep == old(writersAsleep)
        invariant old(ReadersQuiet()) && readersAsleep > 0 ==> delivered == written && writeopen
      {
        Counters(|delivered|, |written|);
        if nread == nwrite {
          break;
        }
        var b := Get();
        out := out + [b];
        i := i + 1;
      }
      writersAsleep := 0;
      status := Finished;
    }

    /** pipeclose: tells whether both ends are closed, so that the pipe is to be freed. */
    method Close(writable: bool) returns (freed: bool)
      requires Inv()
      modifies this`readopen, this`writeopen, this`readersAsleep, this`writersAsleep
      ensures Inv() && freed == (!readopen && !writeopen)
      ensures writeopen == (old(writeopen) && !writable) && readopen == (old(readopen) && writable)
      ensures readersAsleep == (if writable then 0 else old(readersAsleep))
      ensures writersAsleep == (if writable then old(writersAsleep) else 0)
      ensures (old(ReadersQuiet()) ==> ReadersQuiet()) && (old(WritersQuiet()) ==> WritersQuiet())
    {
      if writable {
        writeopen := false;
        readersAsleep := 0;
      } else {
        readopen := false;
        writersAsleep := 0;
      }
      freed := !readopen && !writeopen;
    }
  }

  /** A reader sleeps on a new pipe; a killed writer of 513 bytes fills the ring and leaves the reader asleep. */
  method LeftAsleep(addr: seq<Byte>) returns (p: Pipe)
    requires |addr| == SIZE + 1
    ensures fresh(p) && p.Inv() && p.readersAsleep == 1 && p.Count() == SIZE && p.readopen && p.writeopen
  {
    p := new Pipe();
    var out, status := p.Read(1, false);
    var i;
    i, status := p.Write(addr, 0, true);
  }
}
