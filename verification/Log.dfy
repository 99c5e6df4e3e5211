/**
 The write-ahead log of log.c over the buffer cache: log_write, commit and recovery.

 Each method is proved against the write-by-write specification of module LogSpec, so the
 crash theorems there speak about this code.
 */
module Log {
  import opened Common
  import opened Bio
  import opened LogSpec
  import LogOps

  /** What one turn of write_log reads: the block's slot is not a logged block, and earlier
      turns have not changed the block. */
  lemma LogStep(v: Image, start: nat, size: nat, bs: seq<nat>, k: nat)
    requires Loggable(|v|, start, size, bs) && k < |bs|
    ensures start + k + 1 < |v| && start + k + 1 !in bs && bs[k] < |v|
    ensures Logged(v, v, start, bs, k)[bs[k]] == v[bs[k]]
  {
    LoggedAt(v, v, start, size, bs, k);
  }

  /** What one turn of install_trans reads: its slot, unchanged by earlier turns. */
  lemma InstallStep(d: Image, start: nat, size: nat, bs: seq<nat>, k: nat)
    requires Loggable(|d|, start, size, bs) && k < |bs|
    ensures start + k + 1 < |d| && start + k + 1 !in bs && bs[k] < |d|
    ensures Installed(d, start, bs, k)[start + k + 1] == d[start + k + 1]
    ensures SetOf(bs[k..]) - {bs[k]} == SetOf(bs[k + 1..])
  {
    InstalledElse(d, start, size, bs, k, start + k + 1);
    assert bs[k..] == [bs[k]] + bs[k + 1..];
  }

  /** Installing and erasing leave the disk and the view equal in the log area. */
  lemma InstalledArea(d: Image, v: Image, start: nat, size: nat, bs: seq<nat>)
    requires |d| == |v| && Loggable(|d|, start, size, bs)
    requires forall k :: start <= k < start + size ==> v[k] == d[k]
    ensures forall k :: start <= k < start + size ==>
              Erased(Installed(v, start, bs, |bs|), start)[k] == Erased(Installed(d, start, bs, |bs|), start)[k]
    ensures Erased(Installed(d, start, bs, |bs|), start)[start][0] == 0
    ensures Installed(v, start, bs, |bs|)[start] == Installed(d, start, bs, |bs|)[start]
    ensures var t := InstallTrace(d, start, bs); t == t[..|bs|] + [t[|bs|]]
  {
    InstalledAt(d, start, size, bs, |bs|);
    InstalledAt(v, start, size, bs, |bs|);
    assert forall k :: start <= k < start + size ==> k !in bs[..|bs|];
  }

  lemma CommitAppends(h: seq<Image>, d: Image, v: Image, start: nat, size: nat, bs: seq<nat>)
    requires |d| == |v| && Loggable(|d|, start, size, bs) && bs != []
    ensures h + CommitTrace(d, v, start, size, bs)
         == h + LogTrace(d, v, start, bs) + [Sealed(d, v, start, size, bs)]
            + InstallTrace(Sealed(d, v, start, size, bs), start, bs)
  {
    var s := Sealed(d, v, start, size, bs);
    var l, t := LogTrace(d, v, start, bs), InstallTrace(s, start, bs);
    hide Sealed, InstallTrace, LogTrace, Loggable;
    Regroup(h, l, [s], t);
  }

  lemma Regroup<T>(h: seq<T>, a: seq<T>, b: seq<T>, c: seq<T>)
    ensures h + (a + b + c) == h + a + b + c
  {
    assert h + (a + b + c) == h + a + b + c;
  }

  lemma SealedArea(d: Image, v: Image, start: nat, size: nat, bs: seq<nat>)
    requires |d| == |v| && Loggable(|d|, start, size, bs)
    requires forall k :: start <= k < start + size ==> v[k] == d[k]
    ensures forall k :: start <= k < start + size ==>
              Sealed(v, v, start, size, bs)[k] == Sealed(d, v, start, size, bs)[k]
  {
    LoggedAt(d, v, start, size, bs, |bs|);
    LoggedAt(v, v, start, size, bs, |bs|);
    forall k | start < k < start + size
      ensures Sealed(v, v, start, size, bs)[k] == Sealed(d, v, start, size, bs)[k]
    {
      if k <= start + |bs| {
        assert Logged(d, v, start, bs, |bs|)[start + 1 + (k - start - 1)] == v[bs[k - start - 1]];
        assert Logged(v, v, start, bs, |bs|)[start + 1 + (k - start - 1)] == v[bs[k - start - 1]];
      }
    }
  }

  lemma ViewKeptAt(v: Image, start: nat, size: nat, bs: seq<nat>, k: nat)
    requires Loggable(|v|, start, size, bs) && k < |v| && !(start <= k < start + size)
    ensures Installed(Sealed(v, v, start, size, bs), start, bs, |bs|)[k] == v[k]
  {
    var s := Sealed(v, v, start, size, bs);
    LoggedAt(v, v, start, size, bs, |bs|);
    assert bs[..|bs|] == bs;
    if k in bs {
      var i: nat :| i < |bs| && bs[i] == k;
      InstalledHit(s, start, size, bs, |bs|, i);
      assert s[start + 1 + i] == v[bs[i]];
    } else {
      InstalledElse(s, start, size, bs, |bs|, k);
    }
  }

  /** Committing writes to home blocks what the cache already shows there. */
  lemma ViewKept(v: Image, start: nat, size: nat, bs: seq<nat>)
    requires Loggable(|v|, start, size, bs)
    ensures SameHome(Erased(Installed(Sealed(v, v, start, size, bs), start, bs, |bs|), start), v, start, size)
  {
    forall k: nat | k < |v| && !(start <= k < start + size)
      ensures Installed(Sealed(v, v, start, size, bs), start, bs, |bs|)[k] == v[k]
    {
      ViewKeptAt(v, start, size, bs, k);
    }
  }

  lemma LogBounds(nblocks: nat, start: nat, size: nat, bs: seq<nat>)
    requires Loggable(nblocks, start, size, bs)
    ensures start + |bs| < start + size <= nblocks && |bs| < size && forall i :: 0 <= i < |bs| ==> bs[i] < nblocks
  {
  }

  // ---- how far a loop has come ----

  /** Disk, cache and history of writes after k turns of write_log from d, v and h. */
  ghost predicate LogTo(d: Image, v: Image, h: seq<Image>, start: nat, size: nat, bs: seq<nat>, k: nat,
                        disk: Image, view: Image, hist: seq<Image>)
  {
    && |d| == |v| && Loggable(|v|, start, size, bs) && k <= |bs|
    && disk == Logged(d, v, start, bs, k) && view == Logged(v, v, start, bs, k)
    && hist == h + LogTrace(d, v, start, bs)[..k]
  }

  lemma LogFits(d: Image, v: Image, h: seq<Image>, start: nat, size: nat, bs: seq<nat>, k: nat,
                disk: Image, view: Image, hist: seq<Image>)
    requires LogTo(d, v, h, start, size, bs, k, disk, view, hist)
    ensures Loggable(|v|, start, size, bs)
  {
  }

  lemma InstallFits(d: Image, v: Image, h: seq<Image>, start: nat, size: nat, bs: seq<nat>, k: nat,
                    disk: Image, view: Image, hist: seq<Image>)
    requires InstallTo(d, v, h, start, size, bs, k, disk, view, hist)
    ensures Loggable(|v|, start, size, bs)
  {
  }

  lemma LogStart(d: Image, v: Image, h: seq<Image>, start: nat, size: nat, bs: seq<nat>)
    requires |d| == |v| && Loggable(|v|, start, size, bs)
    ensures LogTo(d, v, h, start, size, bs, 0, d, v, h)
  {
  }

  lemma LogNext(d: Image, v: Image, h: seq<Image>, start: nat, size: nat, bs: seq<nat>, k: nat,
                disk: Image, view: Image, hist: seq<Image>)
    requires LogTo(d, v, h, start, size, bs, k, disk, view, hist) && k < |bs|
    ensures start + k + 1 < |view| == |disk| == |v| && bs[k] < |view|
    ensures var e := disk[start + k + 1 := view[bs[k]]];
            LogTo(d, v, h, start, size, bs, k + 1, e, view[start + k + 1 := view[bs[k]]], hist + [e])
  {
    LogStep(v, start, size, bs, k);
    var e, t := disk[start + k + 1 := view[bs[k]]], LogTrace(d, v, start, bs);
    assert t[..k + 1] == t[..k] + [t[k]];
    assert e == Logged(d, v, start, bs, k + 1);
  }

  lemma LogAll(d: Image, v: Image, h: seq<Image>, start: nat, size: nat, bs: seq<nat>, disk: Image, view: Image,
               hist: seq<Image>)
    requires LogTo(d, v, h, start, size, bs, |bs|, disk, view, hist)
    ensures |d| == |v| && Loggable(|v|, start, size, bs) && hist == h + LogTrace(d, v, start, bs)
    ensures disk == Logged(d, v, start, bs, |bs|) && view == Logged(v, v, start, bs, |bs|)
  {
    assert LogTrace(d, v, start, bs)[..|bs|] == LogTrace(d, v, start, bs);
  }

  /** The same for install_trans; d and v agree in the log area. */
  ghost predicate InstallTo(d: Image, v: Image, h: seq<Image>, start: nat, size: nat, bs: seq<nat>, k: nat,
                            disk: Image, view: Image, hist: seq<Image>)
  {
    && |d| == |v| && Loggable(|v|, start, size, bs) && k <= |bs|
    && (forall i :: start <= i < start + size ==> v[i] == d[i])
    && disk == Installed(d, start, bs, k) && view == Installed(v, start, bs, k)
    && hist == h + InstallTrace(d, start, bs)[..k]
  }

  lemma InstallStart(d: Image, v: Image, h: seq<Image>, start: nat, size: nat, bs: seq<nat>)
    requires |d| == |v| && Loggable(|v|, start, size, bs) && forall i :: start <= i < start + size ==> v[i] == d[i]
    ensures InstallTo(d, v, h, start, size, bs, 0, d, v, h)
  {
  }

  lemma InstallNext(d: Image, v: Image, h: seq<Image>, start: nat, size: nat, bs: seq<nat>, k: nat,
                    disk: Image, view: Image, hist: seq<Image>)
    requires InstallTo(d, v, h, start, size, bs, k, disk, view, hist) && k < |bs|
    ensures start + k + 1 < |view| == |disk| == |v| && bs[k] < |view| && view[start + k + 1] == disk[start + k + 1]
    ensures var e := disk[bs[k] := disk[start + k + 1]];
            InstallTo(d, v, h, start, size, bs, k + 1, e, view[bs[k] := disk[start + k + 1]], hist + [e])
  {
    InstallStep(d, start, size, bs, k);
    InstallStep(v, start, size, bs, k);
    var t := InstallTrace(d, start, bs);
    assert t[..k + 1] == t[..k] + [t[k]];
    assert v[start + k + 1] == d[start + k + 1];
  }

  /** After all turns; the header's erasure is the last write of the trace. */
  lemma InstallAll(d: Image, v: Image, h: seq<Image>, start: nat, size: nat, bs: seq<nat>, disk: Image, view: Image,
                   hist: seq<Image>)
    requires InstallTo(d, v, h, start, size, bs, |bs|, disk, view, hist)
    ensures |disk| == |view| == |d| == |v| && Loggable(|v|, start, size, bs) && start + size <= |d|
    ensures view[start] == disk[start]
    ensures disk == Installed(d, start, bs, |bs|) && view == Installed(v, start, bs, |bs|)
    ensures var e, w := disk[start := Header(view[start], [])], view[start := Header(view[start], [])];
            && e == Erased(disk, start) && w == Erased(view, start) && e[start][0] == 0
            && (forall k :: start <= k < start + size ==> w[k] == e[k])
            && hist + [e] == h + InstallTrace(d, start, bs)
  {
    InstalledArea(d, v, start, size, bs);
  }

  lemma SealOf(d: Image, v: Image, start: nat, size: nat, bs: seq<nat>)
    requires |d| == |v| && Loggable(|d|, start, size, bs)
    ensures var l := Logged(d, v, start, bs, |bs|);
            |l| == |d| && l[start] == d[start] && Sealed(d, v, start, size, bs) == l[start := Header(l[start], bs)]
  {
    LoggedAt(d, v, start, size, bs, |bs|);
  }

  /** Buffers in use are of the blocks `held`. */
  ghost predicate HeldAt(bs: seq<Buf>, held: set<nat>, i: nat)
    requires i < |bs|
  {
    bs[i].refcnt != 0 ==> bs[i].dev == ROOTDEV && bs[i].blockno in held
  }

  ghost predicate HeldBy(bs: seq<Buf>, held: set<nat>) {
    |bs| == NBUF + 1 && forall i :: 0 <= i < NBUF ==> HeldAt(bs, held, i)
  }

  /** Fewer than NBUF blocks pinned or in use leave a buffer for block k, if it has none. */
  lemma RoomFor(bs: seq<Buf>, home: map<Key, nat>, view: seq<Block>, disk: seq<Block>, used: set<nat>, k: nat)
    requires CacheOk(bs, home, view, disk) && HeldBy(bs, used) && k !in used
    requires |Pins(bs) + used| < NBUF || k in Pins(bs)
    ensures if (ROOTDEV, k) in home
            then home[(ROOTDEV, k)] < NBUF && bs[home[(ROOTDEV, k)]].refcnt == 0 && !bs[home[(ROOTDEV, k)]].locked
            else exists i :: 0 <= i < NBUF && !bs[i].Busy()
  {
    PinsHome(bs, home, view, disk);
    if (ROOTDEV, k) in home {
      var b := home[(ROOTDEV, k)];
      assert HeldAt(bs, used, b) && BufOk(bs, b, home, view, disk);
    } else {
      forall i | 0 <= i < NBUF && bs[i].Busy()
        ensures bs[i].dev == ROOTDEV && bs[i].blockno in Pins(bs) + used
      {
        assert HeldAt(bs, used, i) && BufOk(bs, i, home, view, disk);
      }
      VictimExists(bs, home, view, disk, Pins(bs) + used);
    }
  }

  /** Readers may hold these blocks during a commit of bs: none of them is logged or in the log
      area, and a buffer is left for the log. */
  ghost predicate Apart(bs: seq<nat>, start: nat, size: nat, held: set<nat>) {
    && (forall k :: k in held ==> k !in bs && !(start <= k < start + size))
    && |SetOf(bs) + held| < NBUF
  }

  /** The pins before turn `tail` of install_trans: those of a commit, or none in recovery. */
  ghost function Left(bs: seq<nat>, recovering: bool, tail: nat): (pins: set<nat>)
    requires tail <= |bs|
  {
    if recovering then {} else SetOf(bs[tail..])
  }

  lemma LeftAt(bs: seq<nat>, recovering: bool, tail: nat)
    requires tail < |bs|
    ensures Left(bs, recovering, tail) == if recovering then {} else SetOf(bs[tail..])
    ensures Left(bs, recovering, tail + 1) == if recovering then {} else SetOf(bs[tail + 1..])
  {
  }

  lemma LeftEnd(bs: seq<nat>, recovering: bool)
    ensures Left(bs, recovering, |bs|) == {}
  {
    assert bs[|bs|..] == [];
  }

  /** What one turn of either copying loop needs of its block and its slot. */
  lemma ApartAt(nblocks: nat, start: nat, size: nat, bs: seq<nat>, tail: nat, held: set<nat>)
    requires tail < |bs| && Apart(bs, start, size, held) && Loggable(nblocks, start, size, bs)
    ensures bs[tail] !in held && start + tail + 1 !in held
    ensures start + tail + 1 < nblocks && bs[tail] < nblocks && bs[tail] != start + tail + 1
    ensures bs[tail] in SetOf(bs) && bs[tail] in SetOf(bs[tail..])
    ensures start + tail + 1 !in SetOf(bs) && start + tail + 1 !in SetOf(bs[tail..])
    ensures |SetOf(bs) + held| < NBUF && |SetOf(bs[tail..]) + held| < NBUF
    ensures SetOf(bs[tail..]) - {bs[tail]} == SetOf(bs[tail + 1..])
  {
    assert bs[tail..] == [bs[tail]] + bs[tail + 1..];
    SlotOutside(nblocks, start, size, bs, tail);
    hide Loggable;
    SubsetSize(SetOf(bs[tail..]) + held, SetOf(bs) + held);
  }

  lemma SlotOutside(nblocks: nat, start: nat, size: nat, bs: seq<nat>, tail: nat)
    requires tail < |bs| && Loggable(nblocks, start, size, bs)
    ensures start + tail + 1 < nblocks && bs[tail] < nblocks && bs[tail] != start + tail + 1 && tail + 1 < size
    ensures start + tail + 1 !in bs && start + tail + 1 !in bs[tail..] && bs[tail] !in bs[tail + 1..]
  {
  }

  /** And what writing the header needs. */
  lemma HeldRoom(nblocks: nat, start: nat, size: nat, bs: seq<nat>, held: set<nat>)
    requires Loggable(nblocks, start, size, bs) && Apart(bs, start, size, held)
    ensures {} + held == held && |held| < NBUF && start !in held && start !in SetOf(bs) && |SetOf(bs) + held| < NBUF
    ensures start < nblocks && Loggable(nblocks, start, size, [])
  {
    SubsetSize(held, SetOf(bs) + held);
  }

  /** Recovery is alone. */
  lemma Alone(nblocks: nat, start: nat, size: nat, bs: seq<nat>)
    requires Loggable(nblocks, start, size, bs)
    ensures Apart(bs, start, size, {}) && Left(bs, true, 0) == {}
  {
    SetOfSize(bs);
    assert SetOf(bs) + {} == SetOf(bs);
  }

  class Log {
    const bc: Bcache
    const start: nat
    const size: nat
    var n: nat                 // lh.n
    const block: array<nat>    // lh.block
    var outstanding: nat
    var committing: bool

    /** initlog: takes the log's place from the super block and recovers. */
    constructor (c: Bcache, logstart: nat, nlog: nat)
      requires c.Valid() && c.Pinned() == {} && c.view == c.disk.blocks && HeldBy(c.buf[..], {})
      requires Recoverable(c.disk.blocks, logstart, nlog)
      modifies c, c.buf, c.disk
      ensures bc == c && start == logstart && size == nlog && outstanding == 0 && !committing
      ensures Valid() && HeldBy(bc.buf[..], {}) && n == 0 && bc.view == bc.disk.blocks
      ensures bc.disk.blocks == Recovered(old(c.disk.blocks), logstart, nlog)
      ensures bc.disk.history == old(c.disk.history) + RecoverTrace(old(c.disk.blocks), logstart, nlog)
    {
      bc, start, size := c, logstart, nlog;
      n, outstanding, committing := 0, 0, false;
      block := new nat[LOGSIZE];
      new;
      RecoverFromLog();
    }

    ghost function Lh(): (bs: seq<nat>)
      requires n <= block.Length
      reads this, block
    {
      block[..n]
    }

    /** What begin_op and end_op decide on. */
    function Ctl(): (c: LogOps.Ctl)
      reads this
    {
      LogOps.Ctl(n, outstanding, committing)
    }

    /** lh lists blocks that the log can take. */
    ghost predicate Listing()
      reads this, bc, block
    {
      block.Length == LOGSIZE && n <= LOGSIZE && Loggable(|bc.view|, start, size, Lh())
    }

    /** The header on disk is empty, and the log area is not modified in the cache. */
    ghost predicate Clean()
      reads this, bc, bc.disk
    {
      && start < |bc.disk.blocks| && start + size <= |bc.view| == |bc.disk.blocks|
      && bc.disk.blocks[start][0] == 0
      && forall k :: start <= k < start + size ==> bc.view[k] == bc.disk.blocks[k]
    }

    /** Between commits: the pins are exactly the logged blocks, the header on disk is
        empty, and the log area is not modified in the cache. */
    ghost predicate Valid()
      reads this, bc, bc.disk, bc.buf, block
    {
      bc.Valid() && Listing() && bc.Pinned() == SetOf(Lh()) && Clean()
    }

    /** What Commit starts from is what the crash theorems of LogSpec speak about, as long as
        nobody has a buffer with changes that are not logged. */
    lemma ReadyToCommit()
      requires Valid()
      requires forall i :: 0 <= i < NBUF && bc.buf[i].locked && bc.buf[i].valid ==> Saved(bc.buf[i], bc.disk.blocks)
      ensures Pending(bc.disk.blocks, bc.view, start, size, Lh())
    {
      var bs := bc.buf[..];
      PinsHome(bs, bc.home, bc.view, bc.disk.blocks);
      forall k | 0 <= k < |bc.view| && bc.view[k] != bc.disk.blocks[k]
        ensures k in Lh()
      {
        assert BufOk(bs, bc.home[(ROOTDEV, k)], bc.home, bc.view, bc.disk.blocks);
        assert k in bc.Pinned();
      }
    }

    // ---- buffers while others read ----

    /** Buffer i is as its reader had it in b0, or free if it was free. */
    ghost predicate ReaderAt(b0: seq<Buf>, i: nat)
      requires i < bc.buf.Length && i < |b0|
      reads bc.buf
    {
      if b0[i].refcnt != 0 then bc.buf[i].SameAs(b0[i]) else bc.buf[i].refcnt == 0
    }

    /** All buffers but these two are as they were in b0. */
    ghost predicate OthersRead(b0: seq<Buf>, b: nat, mine: nat)
      reads bc.buf
    {
      && bc.buf.Length == NBUF + 1 == |b0|
      && forall i :: 0 <= i < NBUF && i != b && i != mine ==> ReaderAt(b0, i)
    }

    /** The cache is right with exactly `pins` pinned, all its buffers are as in b0, and those
        in use are of the blocks `held`. */
    ghost predicate Ready(held: set<nat>, pins: set<nat>, b0: seq<Buf>)
      reads bc, bc.disk, bc.buf
    {
      bc.Valid() && bc.Pinned() == pins && OthersRead(b0, HEAD, HEAD) && HeldBy(b0, held)
    }

    lemma ReadyNow(held: set<nat>)
      requires bc.Valid() && HeldBy(bc.buf[..], held)
      ensures Ready(held, bc.Pinned(), bc.buf[..])
    {
      forall i | 0 <= i < NBUF
        ensures ReaderAt(bc.buf[..], i)
      {
      }
    }

    lemma ReadyHeld(held: set<nat>, pins: set<nat>, b0: seq<Buf>)
      requires Ready(held, pins, b0)
      ensures HeldBy(bc.buf[..], held)
    {
      forall i | 0 <= i < NBUF
        ensures HeldAt(bc.buf[..], held, i)
      {
        assert ReaderAt(b0, i) && HeldAt(b0, held, i);
      }
    }

    lemma AllUsed(held: set<nat>, b0: seq<Buf>, mine: nat, k: nat)
      requires mine <= NBUF && OthersRead(b0, mine, mine) && HeldBy(b0, held)
      requires mine < NBUF ==> bc.buf[mine].dev == ROOTDEV && bc.buf[mine].blockno == k
      ensures HeldBy(bc.buf[..], if mine < NBUF then held + {k} else held)
    {
      var used := if mine < NBUF then held + {k} else held;
      forall i | 0 <= i < NBUF
        ensures HeldAt(bc.buf[..], used, i)
      {
        assert i != mine ==> ReaderAt(b0, i) && HeldAt(b0, held, i);
      }
    }

    /** Reads block k, which no reader has. */
    method FetchOne(k: nat, ghost held: set<nat>, ghost pins: set<nat>, ghost b0: seq<Buf>) returns (b: nat)
      requires Ready(held, pins, b0) && k < |bc.view| && k !in held && (|pins + held| < NBUF || k in pins)
      modifies bc`home, bc.disk, bc.buf
      ensures bc.Valid() && bc.Pinned() == pins && OthersRead(b0, b, b)
      ensures bc.disk.blocks == old(bc.disk.blocks) && bc.disk.history == old(bc.disk.history)
      ensures bc.Held(b) && bc.buf[b].dev == ROOTDEV && bc.buf[b].blockno == k && bc.buf[b].data == bc.view[k]
      ensures bc.buf[b].dirty == (k in pins) && bc.buf[b].refcnt == 1 && b0[b].refcnt == 0
    {
      AllUsed(held, b0, HEAD, k);
      RoomFor(bc.buf[..], bc.home, bc.view, bc.disk.blocks, held, k);
      hide CacheOk, Bcache.Ringed, HeldBy;
      var asleep;
      b, asleep := bc.Bread(k);
      assert old(ReaderAt(b0, b));
      forall i | 0 <= i < NBUF && i != b
        ensures ReaderAt(b0, i)
      {
        assert old(ReaderAt(b0, i));
      }
    }

    /** Reads block k, which no reader has, while the caller has block m's buffer. */
    method FetchTwo(k: nat, m: nat, mine: nat, ghost held: set<nat>, ghost pins: set<nat>,
                    ghost b0: seq<Buf>) returns (b: nat)
      requires bc.Valid() && bc.Pinned() == pins && OthersRead(b0, mine, mine) && HeldBy(b0, held)
      requires bc.Held(mine) && bc.buf[mine].dev == ROOTDEV && bc.buf[mine].blockno == m && bc.buf[mine].refcnt == 1
      requires k < |bc.view| && k !in held && k != m && (|pins + (held + {m})| < NBUF || k in pins)
      modifies bc`home, bc.disk, bc.buf
      ensures bc.Valid() && bc.Pinned() == pins && OthersRead(b0, b, mine)
      ensures bc.disk.blocks == old(bc.disk.blocks) && bc.disk.history == old(bc.disk.history)
      ensures bc.Held(b) && bc.buf[b].blockno == k && bc.buf[b].data == bc.view[k] && bc.buf[mine] == old(bc.buf[mine])
      ensures bc.buf[b].dirty == (k in pins) && bc.buf[b].refcnt == 1 && b0[b].refcnt == 0 && b != mine
    {
      AllUsed(held, b0, mine, m);
      RoomFor(bc.buf[..], bc.home, bc.view, bc.disk.blocks, held + {m}, k);
      hide CacheOk, Bcache.Ringed, HeldBy;
      var asleep;
      b, asleep := bc.Bread(k);
      assert b != mine && old(ReaderAt(b0, b));
      forall i | 0 <= i < NBUF && i != b && i != mine
        ensures ReaderAt(b0, i)
      {
        assert old(ReaderAt(b0, i));
      }
    }

    /** New data for a held buffer, written through to the disk. */
    method WriteThrough(x: Block, dst: nat)
      requires bc.Valid() && bc.Held(dst)
      modifies bc`view, bc.disk, bc.buf
      ensures bc.Valid() && bc.Held(dst) && !bc.buf[dst].dirty
      ensures forall c :: 0 <= c < NBUF && c != dst ==> bc.buf[c] == old(bc.buf[c])
      ensures bc.buf[dst].refcnt == old(bc.buf[dst].refcnt)
      ensures bc.buf[dst].blockno == old(bc.buf[dst].blockno) < |old(bc.view)|
      ensures bc.buf[dst].data == x
      ensures bc.view == old(bc.view)[old(bc.buf[dst].blockno) := x]
      ensures bc.disk.blocks == old(bc.disk.blocks)[old(bc.buf[dst].blockno) := x] && |bc.disk.blocks| == |bc.view|
      ensures bc.disk.blocks[bc.buf[dst].blockno] == x
      ensures bc.disk.history == old(bc.disk.history) + [bc.disk.blocks]
      ensures bc.Pinned() == old(bc.Pinned()) - {old(bc.buf[dst].blockno)}
    {
      ghost var p := bc.Pinned();
      bc.SetData(dst, x);
      PinsReplace(old(bc.buf[..]), dst, bc.buf[dst]);
      assert bc.Pinned() == p;
      bc.Bwrite(dst);
    }

    /** The search of log_write: lh lists block k once (absorption). */
    method Record(k: nat)
      requires block.Length == LOGSIZE && n < LOGSIZE
      modifies this`n, block
      ensures n <= LOGSIZE && Lh() == Recorded(old(Lh()), k)
    {
      var i := 0;
      while i < n && block[i] != k
        invariant 0 <= i <= n && k !in block[..i]
      {
        i := i + 1;
      }
      ghost var was := Lh();
      assert i < n ==> was[i] == k;
      block[i] := k;
      if i == n {
        n := n + 1;
        assert Lh() == was + [k];
      } else {
        assert Lh() == was;
      }
    }

    /** log_write: records the block of a held, changed buffer and pins it.  The requirements on
        n and outstanding are the panics of the source.  The log goes on being right exactly if
        the block is not one of the log's own. */
    method LogWrite(b: nat)
      requires Valid() && bc.Held(b) && bc.buf[b].blockno < |bc.view|
      requires n < LOGSIZE && n < size - 1
      requires outstanding >= 1
      modifies this`n, block, bc.buf
      ensures bc.Valid() && bc.buf[..] == old(bc.buf[..])[b := old(bc.buf[b]).(dirty := true)]
      ensures n <= LOGSIZE && Lh() == Recorded(old(Lh()), old(bc.buf[b].blockno)) && bc.Pinned() == SetOf(Lh())
      ensures Valid() <==> !(start <= old(bc.buf[b].blockno) < start + size)
    {
      Sized();
      hide Bcache.Valid, Loggable, SetOf;
      ghost var bs, k := Lh(), bc.buf[b].blockno;
      LoggableMore(|bc.view|, start, size, bs, k);
      Record(bc.buf[b].blockno);
      bc.Pin(b);
    }

    // ---- copying blocks ----

    /** The common end of both copying loops: moves src's data to dst and to the disk, and
        gives both buffers back. */
    method CopyOut(src: nat, dst: nat, ghost pins: set<nat>, ghost b0: seq<Buf>)
      requires bc.Valid() && bc.Pinned() == pins && OthersRead(b0, src, dst)
      requires bc.Held(src) && bc.Held(dst) && src != dst
      requires bc.buf[src].refcnt == 1 && bc.buf[dst].refcnt == 1 && b0[src].refcnt == 0 && b0[dst].refcnt == 0
      requires bc.buf[src].blockno < |bc.view| && bc.buf[src].blockno != bc.buf[dst].blockno
      requires Saved(bc.buf[src], bc.disk.blocks)
      modifies bc, bc.disk, bc.buf
      ensures old(bc.buf[dst].blockno) < |old(bc.view)|
      ensures bc.Valid() && bc.Pinned() == pins - {old(bc.buf[dst].blockno)} && OthersRead(b0, HEAD, HEAD)
      ensures bc.view == old(bc.view)[old(bc.buf[dst].blockno) := old(bc.buf[src].data)]
      ensures bc.disk.blocks == old(bc.disk.blocks)[old(bc.buf[dst].blockno) := old(bc.buf[src].data)]
      ensures bc.disk.history == old(bc.disk.history) + [bc.disk.blocks]
    {
      hide CacheOk, Bcache.Ringed, HeldBy;
      WriteThrough(bc.buf[src].data, dst);
      bc.Brelse(src);
      bc.Brelse(dst);
      forall i | 0 <= i < NBUF
        ensures ReaderAt(b0, i)
      {
        if i != src && i != dst {
          assert old(ReaderAt(b0, i)) && bc.buf[i].SameAs(old(bc.buf[i]));
        }
      }
    }

    /** The body of the loop of write_log: copies cached block k into a log slot. */
    method CopyToLog(k: nat, slot: nat, ghost held: set<nat>, ghost pins: set<nat>, ghost b0: seq<Buf>)
      requires Ready(held, pins, b0) && k < |bc.view| && slot < |bc.view| && k != slot && k !in held && slot !in held
      requires k in pins && slot !in pins && |pins + held| < NBUF
      modifies bc, bc.disk, bc.buf
      ensures Ready(held, pins, b0)
      ensures bc.disk.blocks == old(bc.disk.blocks)[slot := old(bc.view)[k]]
      ensures bc.view == old(bc.view)[slot := old(bc.view)[k]]
      ensures bc.disk.history == old(bc.disk.history) + [bc.disk.blocks]
    {
      hide CacheOk, Bcache.Ringed, HeldBy, OthersRead;
      var to := FetchOne(slot, held, pins, b0);
      var from := FetchTwo(k, slot, to, held, pins, b0);
      SwapOthers(b0, to, from);
      CopyOut(from, to, pins, b0);
      assert pins - {slot} == pins;
    }

    lemma SwapOthers(b0: seq<Buf>, b: nat, mine: nat)
      requires OthersRead(b0, mine, b)
      ensures OthersRead(b0, b, mine)
    {
      forall i | 0 <= i < NBUF && i != b && i != mine
        ensures ReaderAt(b0, i)
      {
      }
    }

    /** The body of the loop of install_trans: copies a log slot to block k.  In recovery
        nothing is pinned, and nobody else is there. */
    method CopyHome(slot: nat, k: nat, ghost held: set<nat>, ghost pins: set<nat>, ghost b0: seq<Buf>)
      requires Ready(held, pins, b0) && k < |bc.view| && slot < |bc.view| && k != slot && k !in held && slot !in held
      requires slot !in pins && bc.view[slot] == bc.disk.blocks[slot]
      requires |pins + held| < NBUF && (k in pins || (pins == {} && held == {}))
      modifies bc, bc.disk, bc.buf
      ensures Ready(held, pins - {k}, b0)
      ensures bc.disk.blocks == old(bc.disk.blocks)[k := old(bc.disk.blocks)[slot]]
      ensures bc.view == old(bc.view)[k := old(bc.disk.blocks)[slot]]
      ensures bc.disk.history == old(bc.disk.history) + [bc.disk.blocks]
    {
      Sized();
      hide CacheOk, Bcache.Ringed, HeldBy, OthersRead;
      var lbuf := FetchOne(slot, held, pins, b0);
      assert pins == {} && held == {} ==> pins + (held + {slot}) == {slot};
      var dbuf := FetchTwo(k, slot, lbuf, held, pins, b0);
      SwapOthers(b0, lbuf, dbuf);
      CopyOut(lbuf, dbuf, pins, b0);
    }

    lemma Sized()
      requires bc.Valid()
      ensures bc.buf.Length == NBUF + 1 && |bc.view| == |bc.disk.blocks|
    {
    }

    // ---- the loops ----

    /** lh lists bs. */
    ghost predicate Lists(bs: seq<nat>)
      reads this, block
    {
      block.Length == LOGSIZE && n <= LOGSIZE && block[..n] == bs
    }

    lemma ListedAt(bs: seq<nat>, tail: nat)
      requires Lists(bs) && tail < n
      ensures tail < |bs| && tail < block.Length && block[tail] == bs[tail]
    {
    }

    lemma AllListed(bs: seq<nat>)
      requires Lists(bs)
      ensures n == |bs|
    {
    }

    /** One turn of write_log. */
    method WriteLogBlock(tail: nat, ghost bs: seq<nat>, ghost d: Image, ghost v: Image, ghost h: seq<Image>,
                         ghost held: set<nat>, ghost b0: seq<Buf>)
      requires Lists(bs) && tail < n && Apart(bs, start, size, held) && Ready(held, SetOf(bs), b0)
      requires LogTo(d, v, h, start, size, bs, tail, bc.disk.blocks, bc.view, bc.disk.history)
      modifies bc, bc.disk, bc.buf
      ensures Ready(held, SetOf(bs), b0)
      ensures LogTo(d, v, h, start, size, bs, tail + 1, bc.disk.blocks, bc.view, bc.disk.history)
    {
      hide Ready, Apart, SetOf, LogTo, Lists, Loggable, Left;
      ListedAt(bs, tail);
      LogFits(d, v, h, start, size, bs, tail, bc.disk.blocks, bc.view, bc.disk.history);
      ApartAt(|v|, start, size, bs, tail, held);
      LogNext(d, v, h, start, size, bs, tail, bc.disk.blocks, bc.view, bc.disk.history);
      CopyToLog(block[tail], start + tail + 1, held, SetOf(bs), b0);
    }

    /** write_log: after it the log slots hold the logged blocks. */
    method WriteLog(ghost bs: seq<nat>, ghost held: set<nat>, ghost b0: seq<Buf>)
      requires Lists(bs) && Loggable(|bc.view|, start, size, bs) && Apart(bs, start, size, held)
      requires Ready(held, SetOf(bs), b0) && |bc.view| == |bc.disk.blocks|
      modifies bc, bc.disk, bc.buf
      ensures Ready(held, SetOf(bs), b0)
      ensures LogTo(old(bc.disk.blocks), old(bc.view), old(bc.disk.history), start, size, bs, |bs|,
                    bc.disk.blocks, bc.view, bc.disk.history)
    {
      hide Ready, Apart, SetOf, Loggable, LogTo, Lists;
      ghost var d, v, h := bc.disk.blocks, bc.view, bc.disk.history;
      LogStart(d, v, h, start, size, bs);
      AllListed(bs);
      var tail := 0;
      while tail < n
        invariant 0 <= tail <= n && Ready(held, SetOf(bs), b0)
        invariant LogTo(d, v, h, start, size, bs, tail, bc.disk.blocks, bc.view, bc.disk.history)
      {
        WriteLogBlock(tail, bs, d, v, h, held, b0);
        tail := tail + 1;
      }
    }

    /** One turn of install_trans. */
    method InstallBlock(tail: nat, ghost bs: seq<nat>, ghost d: Image, ghost v: Image, ghost h: seq<Image>,
                        ghost recovering: bool, ghost held: set<nat>, ghost b0: seq<Buf>)
      requires Lists(bs) && tail < n && Apart(bs, start, size, held) && (recovering ==> held == {})
      requires Ready(held, Left(bs, recovering, tail), b0)
      requires InstallTo(d, v, h, start, size, bs, tail, bc.disk.blocks, bc.view, bc.disk.history)
      modifies bc, bc.disk, bc.buf
      ensures Ready(held, Left(bs, recovering, tail + 1), b0)
      ensures InstallTo(d, v, h, start, size, bs, tail + 1, bc.disk.blocks, bc.view, bc.disk.history)
    {
      hide Ready, Apart, SetOf, InstallTo, Lists, Loggable, Left;
      ListedAt(bs, tail);
      InstallFits(d, v, h, start, size, bs, tail, bc.disk.blocks, bc.view, bc.disk.history);
      LeftAt(bs, recovering, tail);
      ApartAt(|v|, start, size, bs, tail, held);
      InstallNext(d, v, h, start, size, bs, tail, bc.disk.blocks, bc.view, bc.disk.history);
      assert recovering ==> {} + held == {} && {} - {bs[tail]} == {};
      CopyHome(start + tail + 1, block[tail], held, Left(bs, recovering, tail), b0);
    }

    /** install_trans: copies the logged blocks home; each home write drops the block's pin. */
    method InstallTrans(ghost bs: seq<nat>, ghost recovering: bool, ghost held: set<nat>, ghost b0: seq<Buf>)
      requires Lists(bs) && Loggable(|bc.view|, start, size, bs) && Apart(bs, start, size, held)
      requires (recovering ==> held == {}) && Ready(held, Left(bs, recovering, 0), b0) && |bc.view| == |bc.disk.blocks|
      requires forall k :: start <= k < start + size ==> bc.view[k] == bc.disk.blocks[k]
      modifies bc, bc.disk, bc.buf
      ensures Ready(held, {}, b0)
      ensures InstallTo(old(bc.disk.blocks), old(bc.view), old(bc.disk.history), start, size, bs, |bs|,
                        bc.disk.blocks, bc.view, bc.disk.history)
    {
      hide Ready, Apart, SetOf, Loggable, Left, InstallTo, Lists;
      ghost var d, v, h := bc.disk.blocks, bc.view, bc.disk.history;
      InstallStart(d, v, h, start, size, bs);
      AllListed(bs);
      LeftEnd(bs, recovering);
      var tail := 0;
      while tail < n
        invariant 0 <= tail <= n && Ready(held, Left(bs, recovering, tail), b0)
        invariant InstallTo(d, v, h, start, size, bs, tail, bc.disk.blocks, bc.view, bc.disk.history)
      {
        InstallBlock(tail, bs, d, v, h, recovering, held, b0);
        tail := tail + 1;
      }
    }

    /** The loop of write_head over a copy of the header block's data. */
    method FillHeader(was: Block, ghost nblocks: nat) returns (hb: Block)
      requires block.Length == LOGSIZE && n <= LOGSIZE && Loggable(nblocks, start, size, Lh())
      ensures hb == Header(was, Lh())
    {
      hb := was[0 := n];
      var i := 0;
      while i < n
        invariant 0 <= i <= n
        invariant hb[0] == n && forall j :: 0 <= j < i ==> hb[j + 1] == block[j]
        invariant hb[i + 1..] == was[i + 1..]
      {
        assert Lh()[i] == block[i];
        hb := hb[i + 1 := block[i]];
        i := i + 1;
      }
      assert hb == Header(was, Lh());
    }

    /** write_head: the single write that commits, or erases, what lh lists. */
    method WriteHead(ghost bs: seq<nat>, ghost held: set<nat>, ghost pins: set<nat>, ghost b0: seq<Buf>)
      requires Lists(bs) && Loggable(|bc.view|, start, size, bs)
      requires Ready(held, pins, b0) && start !in pins && start !in held && |pins + held| < NBUF
      modifies bc, bc.disk, bc.buf
      ensures start < |old(bc.view)| == |old(bc.disk.blocks)| && Ready(held, pins, b0)
      ensures bc.disk.blocks == old(bc.disk.blocks)[start := Header(old(bc.view)[start], bs)]
      ensures bc.view == old(bc.view)[start := Header(old(bc.view)[start], bs)]
      ensures bc.disk.history == old(bc.disk.history) + [bc.disk.blocks]
    {
      Sized();
      hide CacheOk, Bcache.Ringed, Header, Listed, HeldBy;
      var b := FetchOne(start, held, pins, b0);
      var hb := FillHeader(bc.buf[b].data, |bc.view|);
      hide Loggable;
      PutHeader(hb, b, pins, b0);
    }

    /** The end of write_head: the header's data, bwrite and brelse. */
    method PutHeader(hb: Block, b: nat, ghost pins: set<nat>, ghost b0: seq<Buf>)
      requires bc.Valid() && bc.Pinned() == pins && OthersRead(b0, b, b) && |b0| > b && b0[b].refcnt == 0
      requires bc.Held(b) && bc.buf[b].refcnt == 1 && bc.buf[b].blockno !in pins
      modifies bc, bc.disk, bc.buf
      ensures old(bc.buf[b].blockno) < |old(bc.view)| == |old(bc.disk.blocks)|
      ensures bc.Valid() && bc.Pinned() == pins && OthersRead(b0, HEAD, HEAD)
      ensures bc.disk.blocks == old(bc.disk.blocks)[old(bc.buf[b].blockno) := hb]
      ensures bc.view == old(bc.view)[old(bc.buf[b].blockno) := hb]
      ensures bc.disk.history == old(bc.disk.history) + [bc.disk.blocks]
    {
      Sized();
      hide CacheOk, Bcache.Ringed;
      assert pins - {bc.buf[b].blockno} == pins;
      WriteThrough(hb, b);
      forall i | 0 <= i < NBUF && i != b
        ensures ReaderAt(b0, i)
      {
        assert old(ReaderAt(b0, i));
      }
      Return(b, pins, b0);
    }

    /** brelse of a buffer that is saved, when the others are as in b0. */
    method Return(b: nat, ghost pins: set<nat>, ghost b0: seq<Buf>)
      requires bc.Valid() && bc.Pinned() == pins && bc.Held(b) && OthersRead(b0, b, b) && b0[b].refcnt == 0
      requires bc.buf[b].refcnt == 1 && Saved(bc.buf[b], bc.disk.blocks)
      modifies bc`cyc, bc`stamp, bc`clock, bc.buf
      ensures bc.Valid() && bc.Pinned() == pins && OthersRead(b0, HEAD, HEAD)
    {
      hide CacheOk, Bcache.Ringed;
      bc.Brelse(b);
      forall i | 0 <= i < NBUF
        ensures ReaderAt(b0, i)
      {
        if i != b { assert old(ReaderAt(b0, i)) && bc.buf[i].SameAs(old(bc.buf[i])); }
      }
    }

    /** The loop of read_head over a copy of the header block's data. */
    method TakeList(lh: Block)
      requires block.Length == LOGSIZE && lh[0] <= LOGSIZE
      modifies this`n, block
      ensures n <= LOGSIZE && Lh() == Listed(lh)
    {
      n := lh[0];
      var i := 0;
      while i < n
        invariant 0 <= i <= n == lh[0]
        invariant forall j :: 0 <= j < i ==> block[j] == lh[j + 1]
      {
        block[i] := lh[i + 1];
        i := i + 1;
      }
    }

    /** read_head: takes the transaction the disk's header lists. */
    method ReadHead(ghost b0: seq<Buf>)
      requires Ready({}, {}, b0) && block.Length == LOGSIZE
      requires start < |bc.view| && bc.view[start] == bc.disk.blocks[start] && bc.view[start][0] <= LOGSIZE
      modifies this`n, block, bc, bc.buf, bc.disk
      ensures Ready({}, {}, b0) && bc.view == old(bc.view)
      ensures bc.disk.blocks == old(bc.disk.blocks) && bc.disk.history == old(bc.disk.history)
      ensures n <= LOGSIZE && Lh() == Listed(bc.view[start])
    {
      Sized();
      hide CacheOk, Bcache.Ringed, HeldBy;
      ghost var none: set<nat> := {};
      assert none + none == none;
      var b := FetchOne(start, {}, {}, b0);
      TakeList(bc.buf[b].data);
      Return(b, {}, b0);
    }

    // ---- recovery and commit ----

    /** What recovery and commit have in common: install_trans, then an empty header. */
    method InstallAndErase(ghost bs: seq<nat>, ghost recovering: bool, ghost held: set<nat>, ghost b0: seq<Buf>)
      requires Lists(bs) && Loggable(|bc.view|, start, size, bs) && Apart(bs, start, size, held)
      requires (recovering ==> held == {}) && Ready(held, Left(bs, recovering, 0), b0) && |bc.view| == |bc.disk.blocks|
      requires forall k :: start <= k < start + size ==> bc.view[k] == bc.disk.blocks[k]
      modifies this`n, bc, bc.buf, bc.disk
      ensures n == 0 && Listing() && Clean() && Ready(held, {}, b0)
      ensures bc.disk.blocks == Erased(Installed(old(bc.disk.blocks), start, bs, |bs|), start)
      ensures bc.view == Erased(Installed(old(bc.view), start, bs, |bs|), start)
      ensures bc.disk.history == old(bc.disk.history) + InstallTrace(old(bc.disk.blocks), start, bs)
    {
      hide Ready, Header, Installed, InstallTrace, SetOf, Apart, Left, InstallTo, Loggable;
      ghost var d, v, h := bc.disk.blocks, bc.view, bc.disk.history;
      LogBounds(|v|, start, size, bs);
      HeldRoom(|v|, start, size, bs, held);
      InstallTrans(bs, recovering, held, b0);
      InstallAll(d, v, h, start, size, bs, bc.disk.blocks, bc.view, bc.disk.history);
      n := 0;
      WriteHead([], held, {}, b0);
    }

    /** Between commits, with the log empty. */
    lemma BackToNormal(held: set<nat>, b0: seq<Buf>)
      requires Ready(held, {}, b0) && Listing() && n == 0 && Clean()
      ensures Valid() && HeldBy(bc.buf[..], held)
    {
      assert SetOf(Lh()) == {};
      ReadyHeld(held, {}, b0);
    }

    /** recover_from_log: finishes the transaction the header lists, and erases it. */
    method RecoverFromLog()
      requires bc.Valid() && bc.Pinned() == {} && HeldBy(bc.buf[..], {}) && block.Length == LOGSIZE
      requires bc.view == bc.disk.blocks && Recoverable(bc.disk.blocks, start, size)
      modifies this`n, block, bc, bc.buf, bc.disk
      ensures Valid() && HeldBy(bc.buf[..], {}) && n == 0 && bc.view == bc.disk.blocks
      ensures bc.disk.blocks == Recovered(old(bc.disk.blocks), start, size)
      ensures bc.disk.history == old(bc.disk.history) + RecoverTrace(old(bc.disk.blocks), start, size)
    {
      ghost var b0 := bc.buf[..];
      ReadyNow({});
      hide Ready, Bcache.Valid, HeldBy;
      ReadHead(b0);
      Alone(|bc.view|, start, size, Lh());
      hide Apart, Left;
      InstallAndErase(Lh(), true, {}, b0);
      BackToNormal({}, b0);
    }

    /** The first half of commit: the log, then the header. */
    method Seal(ghost bs: seq<nat>, ghost held: set<nat>, ghost b0: seq<Buf>)
      requires Lists(bs) && Loggable(|bc.view|, start, size, bs) && Apart(bs, start, size, held)
      requires Ready(held, SetOf(bs), b0) && |bc.view| == |bc.disk.blocks| && bc.view[start] == bc.disk.blocks[start]
      modifies bc, bc.buf, bc.disk
      ensures Ready(held, SetOf(bs), b0)
      ensures bc.disk.blocks == Sealed(old(bc.disk.blocks), old(bc.view), start, size, bs)
      ensures bc.view == Sealed(old(bc.view), old(bc.view), start, size, bs)
      ensures bc.disk.history
           == old(bc.disk.history) + LogTrace(old(bc.disk.blocks), old(bc.view), start, bs) + [bc.disk.blocks]
    {
      ghost var d, v, h := bc.disk.blocks, bc.view, bc.disk.history;
      HeldRoom(|v|, start, size, bs, held);
      SealOf(d, v, start, size, bs);
      SealOf(v, v, start, size, bs);
      LogBounds(|v|, start, size, bs);
      hide Ready, SetOf, Apart, Sealed, Logged, LogTrace, Header, LogTo, Loggable;
      WriteLog(bs, held, b0);
      LogAll(d, v, h, start, size, bs, bc.disk.blocks, bc.view, bc.disk.history);
      WriteHead(bs, held, SetOf(bs), b0);
    }

    /** A commit with something to write. */
    method CommitSome(ghost bs: seq<nat>, ghost held: set<nat>, ghost b0: seq<Buf>)
      requires Lists(bs) && Loggable(|bc.view|, start, size, bs) && Apart(bs, start, size, held) && Clean()
      requires Ready(held, SetOf(bs), b0) && bs != []
      modifies this`n, bc, bc.buf, bc.disk
      ensures n == 0 && Listing() && Clean() && Ready(held, {}, b0)
      ensures bc.disk.history == old(bc.disk.history) + LogTrace(old(bc.disk.blocks), old(bc.view), start, bs)
                + [Sealed(old(bc.disk.blocks), old(bc.view), start, size, bs)]
                + InstallTrace(Sealed(old(bc.disk.blocks), old(bc.view), start, size, bs), start, bs)
      ensures bc.view == Erased(Installed(Sealed(old(bc.view), old(bc.view), start, size, bs), start, bs, |bs|), start)
    {
      LogBounds(|bc.view|, start, size, bs);
      SealedArea(bc.disk.blocks, bc.view, start, size, bs);
      assert bs[0..] == bs;
      assert Left(bs, false, 0) == SetOf(bs);
      hide Header, Listed, Installed, Logged, Sealed, Erased, SetOf, InstallTrace, LogTrace, Loggable, Apart, Ready,
          Left;
      Seal(bs, held, b0);
      InstallAndErase(bs, false, held, b0);
    }

    /** commit, run by the last end_op of a transaction, while readers may hold other blocks:
        their buffers stay as they are. */
    method Commit(ghost held: set<nat>)
      requires Valid() && HeldBy(bc.buf[..], held) && Apart(Lh(), start, size, held)
      modifies this`n, bc, bc.buf, bc.disk
      ensures Valid() && HeldBy(bc.buf[..], held) && OthersRead(old(bc.buf[..]), HEAD, HEAD) && n == 0
      ensures bc.disk.history == old(bc.disk.history)
                + CommitTrace(old(bc.disk.blocks), old(bc.view), start, size, old(Lh()))
      ensures SameHome(bc.view, old(bc.view), start, size)
    {
      ghost var b0 := bc.buf[..];
      Sized();
      ReadyNow(held);
      if n > 0 {
        ghost var d, v, h, bs := bc.disk.blocks, bc.view, bc.disk.history, Lh();
        ViewKept(v, start, size, bs);
        CommitSome(bs, held, b0);
        CommitAppends(h, d, v, start, size, bs);
        BackToNormal(held, b0);
      } else {
        hide Bcache.Valid, HeldBy, Apart;
      }
    }

    /** One pass of the loop of begin_op: the operation enters, or must sleep on &log. */
    method BeginOp() returns (entered: bool)
      modifies this`outstanding
      ensures entered == LogOps.CanBegin(old(Ctl()))
      ensures Ctl() == if entered then LogOps.Begin(old(Ctl())) else old(Ctl())
    {
      if committing {
        entered := false;
      } else if n + (outstanding + 1) * MAXOPBLOCKS > LOGSIZE {
        entered := false;
      } else {
        outstanding := outstanding + 1;
        entered := true;
      }
    }

    /** end_op: the last operation of the transaction commits it.  `!committing` is the panic
        of the source; LogOps.NoCommitWhileOpen shows that it cannot happen. */
    method EndOp(ghost held: set<nat>)
      requires Valid() && outstanding > 0 && !committing
      requires outstanding == 1 ==> HeldBy(bc.buf[..], held) && Apart(Lh(), start, size, held)
      modifies this`outstanding, this`committing, this`n, bc, bc.buf, bc.disk
      ensures Valid() && !committing && outstanding == old(outstanding) - 1
      ensures LogOps.End(old(Ctl())).committing ==>
                && n == 0 && HeldBy(bc.buf[..], held) && OthersRead(old(bc.buf[..]), HEAD, HEAD)
                && SameHome(bc.view, old(bc.view), start, size)
      ensures !LogOps.End(old(Ctl())).committing ==>
                n == old(n) && bc.view == old(bc.view) && bc.buf[..] == old(bc.buf[..])
      ensures bc.disk.history == old(bc.disk.history)
                + if old(outstanding) != 1 then []
                  else CommitTrace(old(bc.disk.blocks), old(bc.view), start, size, old(Lh()))
    {
      hide Bcache.Valid, CommitTrace, SetOf, Loggable, SameHome, HeldBy, OthersRead;
      outstanding := outstanding - 1;
      if outstanding == 0 {
        committing := true;
        Commit(held);
        committing := false;
      }
    }
  }
}
