/**
 The ring of pipe.c, with its wrapping 32-bit counters.

 A method runs from taking p->lock to releasing it or going to sleep; `wakes` lists the
 wakeups it calls.  What it does to the pipe's state is the monitor's program for pipes, so
 the results about sleepers apply; what it does to the bytes is a first-in-first-out queue.
 */
module Pipe {
  import opened Sleepers
  import opened Monitor
  import opened Common

  newtype byte = x: int | 0 <= x < 256

  datatype Outcome = Returned(value: int) | Slept(chan: Chan)

  /** The counters hold these numbers of bytes, modulo 2^32, and stay within the ring. */
  predicate Counts(nread: int, nwrite: int, taken: nat, written: nat) {
    taken <= written <= taken + PIPESIZE && nread == taken % UINT && nwrite == written % UINT
  }

  lemma CountersMean(nread: int, nwrite: int, taken: nat, written: nat)
    requires Counts(nread, nwrite, taken, written)
    ensures nwrite == (nread + PIPESIZE) % UINT <==> written - taken == PIPESIZE
    ensures nread == nwrite <==> written == taken
    ensures nread % PIPESIZE == taken % PIPESIZE && nwrite % PIPESIZE == written % PIPESIZE
    ensures (nwrite - nread) % UINT == written - taken
  {
    RingIndex(taken);
    RingIndex(written);
    Distance(taken, written - taken);
  }

  lemma Distance(t: nat, k: nat)
    requires k <= PIPESIZE
    ensures (t + k) % UINT == (t % UINT + k) % UINT
    ensures ((t + k) % UINT - t % UINT) % UINT == k
    ensures k < PIPESIZE ==> (t + k) % UINT != (t % UINT + PIPESIZE) % UINT
    ensures (t + k) % UINT == t % UINT <==> k == 0
  {
  }

  lemma RingIndex(n: nat)
    ensures n % UINT % PIPESIZE == n % PIPESIZE
    ensures (n % UINT + 1) % UINT == (n + 1) % UINT
  {
    WholeRings(n / UINT * 0x80_0000, n % UINT);
    WrapNext(n);
  }

  lemma WholeRings(q: int, r: int)
    ensures (q * 512 + r) % 512 == r % 512
  {
  }

  lemma WrapNext(n: nat)
    ensures (n % UINT + 1) % UINT == (n + 1) % UINT
  {
  }

  lemma OtherIndex(i: nat, j: nat)
    requires i < j < i + PIPESIZE
    ensures i % PIPESIZE != j % PIPESIZE
  {
  }

  class Ring {
    const data: array<byte>
    var nread: int
    var nwrite: int
    var readopen: bool
    var writeopen: bool
    ghost var taken: seq<byte>       // every byte piperead has returned, in order
    ghost var written: seq<byte>     // every byte pipewrite has put in, in order

    /** What has been read is a prefix of what has been written, and the ring holds the rest. */
    ghost predicate Valid()
      reads this, data
    {
      && data.Length == PIPESIZE && Counts(nread, nwrite, |taken|, |written|)
      && taken == written[..|taken|]
      && forall k: nat :: |taken| <= k < |written| ==> Holds(k)
    }

    ghost predicate Holds(k: nat)
      requires data.Length == PIPESIZE && k < |written|
      reads this, data
    {
      data[k % PIPESIZE] == written[k]
    }

    ghost function Ctl(): (r: PipeCtl)
      requires Valid()
      reads this, data
    {
      PipeCtl(|written| - |taken|, readopen, writeopen)
    }

    /** pipealloc. */
    constructor ()
      ensures Valid() && fresh(data) && taken == written == [] && Ctl() == PipeCtl(0, true, true)
    {
      data := new byte[PIPESIZE];
      nread, nwrite, readopen, writeopen := 0, 0, true, true;
      taken, written := [], [];
    }

    /** data[nwrite++ % PIPESIZE] = b. */
    method Put(b: byte)
      requires Valid() && |written| - |taken| < PIPESIZE
      modifies this`nwrite, this`written, data
      ensures Valid() && written == old(written) + [b]
    {
      CountersMean(nread, nwrite, |taken|, |written|);
      RingIndex(|written|);
      ghost var w := |written|;
      data[nwrite % PIPESIZE] := b;
      nwrite := (nwrite + 1) % UINT;
      written := written + [b];
      forall k: nat | |taken| <= k < |written|
        ensures Holds(k)
      {
        if k < w {
          assert old(Holds(k));
          OtherIndex(k, w);
        }
      }
    }

    /** b = data[nread++ % PIPESIZE]. */
    method Get() returns (b: byte)
      requires Valid() && |taken| < |written|
      modifies this`nread, this`taken
      ensures Valid() && b == written[|old(taken)|] && taken == old(taken) + [b]
    {
      CountersMean(nread, nwrite, |taken|, |written|);
      RingIndex(|taken|);
      assert Holds(|taken|);
      b := data[nread % PIPESIZE];
      nread := (nread + 1) % UINT;
      taken := taken + [b];
      forall k: nat | |taken| <= k < |written|
        ensures Holds(k)
      {
        assert old(Holds(k));
      }
    }

    /** addr[i] = data[nread++ % PIPESIZE]. */
    method GetInto(addr: array<byte>, i: nat)
      requires Valid() && |taken| < |written| && i < addr.Length && addr != data
      modifies this`nread, this`taken, addr
      ensures Valid() && taken == old(taken) + [addr[i]]
      ensures forall k :: 0 <= k < addr.Length && k != i ==> addr[k] == old(addr[k])
    {
      var b := Get();
      label Got:
      addr[i] := b;
      forall k: nat | |taken| <= k < |written|
        ensures Holds(k)
      {
        assert old@Got(Holds(k));
      }
    }

    /** pipewrite with src[start..] left to write. */
    method Pipewrite(src: seq<byte>, start: nat, killed: bool) returns (i: nat, out: Outcome, wakes: seq<Chan>)
      requires Valid() && start <= |src|
      modifies this`nwrite, this`written, data
      ensures Valid() && start <= i <= |src| && written == old(written) + src[start..i]
      ensures i == start + Min(|src| - start, PIPESIZE - (|old(written)| - |taken|))
      ensures out == if i == |src| then Returned(|src|) else if !readopen || killed then Returned(-1) else Slept(NWRITE)
      ensures PipeCode(Write(|src| - start), killed, old(Ctl()))
           == Move(Ctl(), wakes, if out.Slept? then Sleep(out.chan, Write(|src| - i)) else Leave)
    {
      i, wakes := start, [];
      while i < |src|
        invariant Valid() && start <= i <= |src| && written == old(written) + src[start..i]
      {
        CountersMean(nread, nwrite, |taken|, |written|);
        if nwrite == (nread + PIPESIZE) % UINT {
          if !readopen || killed { return i, Returned(-1), wakes; }
          wakes := wakes + [NREAD];
          return i, Slept(NWRITE), wakes;
        }
        Put(src[i]);
        i := i + 1;
      }
      wakes := wakes + [NREAD];
      out := Returned(|src|);
    }

    /** piperead of up to n bytes. */
    method Piperead(addr: array<byte>, n: nat, killed: bool) returns (i: nat, out: Outcome, wakes: seq<Chan>)
      requires Valid() && n <= addr.Length && addr != data
      modifies this`nread, this`taken, addr
      ensures Valid() && i <= n && taken == old(taken) + addr[..i]
      ensures forall k :: i <= k < addr.Length ==> addr[k] == old(addr[k])
      ensures i == Min(n, |written| - |old(taken)|)
      ensures out == if written != old(taken) || !writeopen then Returned(i)
                     else if killed then Returned(-1) else Slept(NREAD)
      ensures out == Returned(0) && n > 0 ==> !writeopen && taken == written
      ensures PipeCode(Read(n), killed, old(Ctl()))
           == Move(Ctl(), wakes, if out.Slept? then Sleep(out.chan, Read(n)) else Leave)
    {
      hide Ring.Holds;
      i, wakes := 0, [];
      CountersMean(nread, nwrite, |taken|, |written|);
      if nread == nwrite && writeopen {
        return 0, if killed then Returned(-1) else Slept(NREAD), wakes;
      }
      while i < n
        invariant Valid() && i <= n && taken == old(taken) + addr[..i]
        invariant forall k :: i <= k < addr.Length ==> addr[k] == old(addr[k])
      {
        CountersMean(nread, nwrite, |taken|, |written|);
        if nread == nwrite { break; }
        ghost var was := addr[..i];
        GetInto(addr, i);
        assert addr[..i + 1] == was + [addr[i]];
        i := i + 1;
      }
      wakes := wakes + [NWRITE];
      out := Returned(i);
    }

    /** pipeclose: the pipe is freed when both ends are closed. */
    method Pipeclose(writable: bool) returns (freed: bool, wakes: seq<Chan>)
      requires Valid()
      modifies this`readopen, this`writeopen
      ensures Valid() && freed == (!readopen && !writeopen)
      ensures writeopen == (old(writeopen) && !writable) && readopen == (old(readopen) && writable)
      ensures PipeCode(Close(writable), false, old(Ctl())) == Move(Ctl(), wakes, Leave)
    {
      if writable {
        writeopen := false;
        wakes := [NREAD];
      } else {
        readopen := false;
        wakes := [NWRITE];
      }
      freed := !readopen && !writeopen;
      forall k: nat | |taken| <= k < |written|
        ensures Holds(k)
      {
        assert old(Holds(k));
      }
    }
  }
}
