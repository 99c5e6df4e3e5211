/**
 The block device of memide.c and the buffer cache of bio.c.

 A buffer is named by its index in the table; index NBUF is the ring's `head`.
 Buffers hang on the ring through `prev` and `next`, most recently released first.
 The ghost field `view` is the plain map from block number to contents that the cache
 stands for; every operation says what it does to `view`, to the pins and to the disk.
 */
module Bio {
  import opened Common

  const NBUF: nat := 30
  const HEAD: nat := NBUF
  const BWORDS: nat := 128
  const ROOTDEV: nat := 1

  type Word = w: int | 0 <= w < 0x1_0000_0000

  /** The 512 bytes of a block, as the 128 words the log header is made of. */
  type Block = b: seq<Word> | |b| == BWORDS witness seq(BWORDS, _ => 0)

  const ZERO_BLOCK: Block := seq(BWORDS, _ => 0)

  /** struct buf; `valid` and `dirty` are its flag bits, `locked` its sleep lock. */
  datatype Buf = Buf(valid: bool, dirty: bool, dev: nat, blockno: nat, locked: bool, refcnt: nat,
                     data: Block, prev: nat, next: nat)
  {
    predicate Busy() {
      refcnt != 0 || dirty
    }

    /** Everything but the ring links. */
    predicate SameAs(o: Buf) {
      this.(prev := o.prev, next := o.next) == o
    }
  }

  // ---- the ring ----

  /** The links run from the head through the buffers cyc[1], cyc[2], ... back to the head. */
  ghost predicate RingOk(bs: seq<Buf>, cyc: seq<nat>) {
    && |bs| == NBUF + 1 && |cyc| >= 2
    && cyc[0] == HEAD && cyc[|cyc|-1] == HEAD
    && (forall i :: 1 <= i < |cyc| - 1 ==> cyc[i] < NBUF)
    && (forall i, j :: 1 <= i < j < |cyc| - 1 ==> cyc[i] != cyc[j])
    && (forall i :: 0 <= i < |cyc| - 1 ==> bs[cyc[i]].next == cyc[i+1])
    && (forall i :: 1 <= i < |cyc| ==> bs[cyc[i]].prev == cyc[i-1])
  }

  /** Every buffer is on the ring. */
  ghost predicate RingFull(cyc: seq<nat>) {
    |cyc| == NBUF + 2 && forall b: nat :: b < NBUF ==> b in cyc
  }

  /** The ring is in order of release, latest first. */
  ghost predicate Sorted(cyc: seq<nat>, stamp: map<nat, nat>, clock: nat) {
    && (forall i :: 1 <= i < |cyc| - 1 ==> cyc[i] in stamp && stamp[cyc[i]] < clock)
    && (forall i, j :: 1 <= i < j < |cyc| - 1 ==> stamp[cyc[i]] > stamp[cyc[j]])
  }

  function SetNext(bs: seq<Buf>, i: nat, x: nat): (r: seq<Buf>)
    requires i < |bs|
  {
    bs[i := bs[i].(next := x)]
  }

  function SetPrev(bs: seq<Buf>, i: nat, x: nat): (r: seq<Buf>)
    requires i < |bs|
  {
    bs[i := bs[i].(prev := x)]
  }

  /** The four pointer writes that put b behind the head. */
  function LinkFront(bs: seq<Buf>, b: nat): (r: seq<Buf>)
    requires b < |bs| == NBUF + 1 && bs[HEAD].next <= NBUF
    ensures |r| == |bs|
  {
    var first := bs[HEAD].next;
    SetNext(SetPrev(SetPrev(SetNext(bs, b, first), b, HEAD), first, b), HEAD, b)
  }

  lemma LinkFrontSame(bs: seq<Buf>, b: nat, i: nat)
    requires b < |bs| == NBUF + 1 && bs[HEAD].next <= NBUF && i < |bs|
    ensures LinkFront(bs, b)[i].SameAs(bs[i])
  {
  }

  /** The two pointer writes that take b out of the ring. */
  function Unlink(bs: seq<Buf>, b: nat): (r: seq<Buf>)
    requires b < |bs| == NBUF + 1 && bs[b].next <= NBUF && bs[b].prev <= NBUF
    ensures |r| == |bs| && forall i :: 0 <= i < |bs| ==> r[i].SameAs(bs[i])
  {
    var s := SetPrev(bs, bs[b].next, bs[b].prev);
    SetNext(s, s[b].prev, s[b].next)
  }

  lemma LinkFrontOk(bs: seq<Buf>, cyc: seq<nat>, b: nat)
    requires RingOk(bs, cyc) && b < NBUF && b !in cyc
    ensures bs[HEAD].next <= NBUF
    ensures RingOk(LinkFront(bs, b), [HEAD, b] + cyc[1..])
  {
    assert bs[cyc[0]].next == cyc[1];
    var r, c := LinkFront(bs, b), [HEAD, b] + cyc[1..];
    forall i | 0 <= i < |c| - 1
      ensures r[c[i]].next == c[i+1]
    {
      if i >= 2 { assert c[i] == cyc[i-1] && bs[cyc[i-1]].next == cyc[i]; }
    }
    forall i | 1 <= i < |c|
      ensures r[c[i]].prev == c[i-1]
    {
      if i >= 2 { assert c[i] == cyc[i-1] && bs[cyc[i-1]].prev == cyc[i-2]; }
    }
  }

  lemma FrontSorted(bs: seq<Buf>, cyc: seq<nat>, b: nat, stamp: map<nat, nat>, clock: nat)
    requires RingOk(bs, cyc) && Sorted(cyc, stamp, clock) && b < NBUF && b !in cyc
    ensures Sorted([HEAD, b] + cyc[1..], stamp[b := clock], clock + 1)
    ensures forall c :: c in [HEAD, b] + cyc[1..] <==> c == b || c in cyc
  {
    assert cyc == [HEAD] + cyc[1..];
  }

  /** Dropping the k-th element. */
  function Skip(i: nat, k: nat): (r: nat) {
    if i < k then i else i + 1
  }

  lemma UnlinkLinks(bs: seq<Buf>, cyc: seq<nat>, k: nat, i: nat)
    requires RingOk(bs, cyc) && 1 <= k < |cyc| - 1 && i < |cyc| - 2
    ensures bs[cyc[k]].next <= NBUF && bs[cyc[k]].prev <= NBUF
    ensures Unlink(bs, cyc[k])[cyc[Skip(i, k)]].next == cyc[Skip(i + 1, k)]
    ensures Unlink(bs, cyc[k])[cyc[Skip(i + 1, k)]].prev == cyc[Skip(i, k)]
  {
    assert bs[cyc[k]].next == cyc[k+1] && bs[cyc[k]].prev == cyc[k-1];
    var o, p := Skip(i, k), Skip(i + 1, k);
    assert bs[cyc[o]].next == cyc[o+1] && bs[cyc[p]].prev == cyc[p-1];
  }

  lemma DropDistinct(cyc: seq<nat>, k: nat)
    requires 1 <= k < |cyc| - 1 && cyc[0] == HEAD && cyc[|cyc|-1] == HEAD
    requires forall i :: 1 <= i < |cyc| - 1 ==> cyc[i] < NBUF
    requires forall i, j :: 1 <= i < j < |cyc| - 1 ==> cyc[i] != cyc[j]
    ensures var c := cyc[..k] + cyc[k+1..];
            && (forall i :: 0 <= i < |c| ==> c[i] == cyc[Skip(i, k)])
            && (forall i, j :: 1 <= i < j < |c| - 1 ==> c[i] != c[j])
            && cyc[k] !in c
  {
  }

  lemma DropSorted(cyc: seq<nat>, k: nat, stamp: map<nat, nat>, clock: nat)
    requires 1 <= k < |cyc| - 1 && Sorted(cyc, stamp, clock)
    ensures Sorted(cyc[..k] + cyc[k+1..], stamp, clock)
  {
    var c := cyc[..k] + cyc[k+1..];
    assert forall i :: 0 <= i < |c| ==> c[i] == cyc[Skip(i, k)];
  }

  lemma UnlinkOk(bs: seq<Buf>, cyc: seq<nat>, k: nat)
    requires RingOk(bs, cyc) && 1 <= k < |cyc| - 1
    ensures bs[cyc[k]].next <= NBUF && bs[cyc[k]].prev <= NBUF
    ensures RingOk(Unlink(bs, cyc[k]), cyc[..k] + cyc[k+1..]) && cyc[k] !in cyc[..k] + cyc[k+1..]
  {
    UnlinkLinks(bs, cyc, k, 0);
    DropDistinct(cyc, k);
    var r, c := Unlink(bs, cyc[k]), cyc[..k] + cyc[k+1..];
    forall i | 0 <= i < |c| - 1
      ensures r[c[i]].next == c[i+1]
    {
      UnlinkLinks(bs, cyc, k, i);
    }
    forall i | 1 <= i < |c|
      ensures r[c[i]].prev == c[i-1]
    {
      UnlinkLinks(bs, cyc, k, i - 1);
    }
  }

  /** Changes that leave the links alone leave the ring alone. */
  lemma RingFrame(bs: seq<Buf>, b: nat, x: Buf, cyc: seq<nat>)
    requires RingOk(bs, cyc) && b < |bs| && x.prev == bs[b].prev && x.next == bs[b].next
    ensures RingOk(bs[b := x], cyc)
  {
    var r := bs[b := x];
    forall i | 0 <= i < |cyc| - 1
      ensures r[cyc[i]].next == cyc[i+1]
    {
      assert bs[cyc[i]].next == cyc[i+1];
    }
    forall i | 1 <= i < |cyc|
      ensures r[cyc[i]].prev == cyc[i-1]
    {
      assert bs[cyc[i]].prev == cyc[i-1];
    }
  }

  /** b may be recycled, and no buffer that may be was released before it. */
  ghost predicate LeastRecent(bs: seq<Buf>, stamp: map<nat, nat>, b: nat)
    requires |bs| == NBUF + 1
  {
    && b < NBUF && !bs[b].Busy() && b in stamp
    && forall c :: 0 <= c < NBUF && !bs[c].Busy() ==> c in stamp && stamp[b] <= stamp[c]
  }

  // ---- the contents ----

  type Key = (nat, nat)   // (dev, block)

  ghost predicate BufOk(bs: seq<Buf>, i: nat, home: map<Key, nat>, view: seq<Block>, disk: seq<Block>)
    requires i < |bs|
  {
    var b := bs[i];
    && (b.locked ==> b.refcnt > 0)
    && (b.dirty ==> b.valid)
    && (b.dev != 0 ==> (b.dev, b.blockno) in home && home[(b.dev, b.blockno)] == i)
    && (b.valid ==> b.dev == ROOTDEV && b.blockno < |view| && view[b.blockno] == b.data)
    && (b.valid && !b.dirty && !b.locked ==> b.blockno < |disk| && b.data == disk[b.blockno])
  }

  /** The pinned blocks: their buffers are dirty and may not be recycled. */
  ghost function Pins(bs: seq<Buf>): (r: set<nat>)
    requires |bs| == NBUF + 1
  {
    set i | 0 <= i < NBUF && bs[i].dirty :: bs[i].blockno
  }

  lemma PinsReplace(bs: seq<Buf>, b: nat, x: Buf)
    requires |bs| == NBUF + 1 && b < NBUF && x.dirty == bs[b].dirty && (x.dirty ==> x.blockno == bs[b].blockno)
    ensures Pins(bs[b := x]) == Pins(bs)
  {
    var r := bs[b := x];
    forall k
      ensures k in Pins(r) <==> k in Pins(bs)
    {
      if k in Pins(r) {
        var i :| 0 <= i < NBUF && r[i].dirty && r[i].blockno == k;
        assert bs[i].dirty && bs[i].blockno == k;
      }
      if k in Pins(bs) {
        var i :| 0 <= i < NBUF && bs[i].dirty && bs[i].blockno == k;
        assert r[i].dirty && r[i].blockno == k;
      }
    }
  }

  lemma PinsHome(bs: seq<Buf>, home: map<Key, nat>, view: seq<Block>, disk: seq<Block>)
    requires CacheOk(bs, home, view, disk)
    ensures forall k :: k in Pins(bs) <==> (ROOTDEV, k) in home && bs[home[(ROOTDEV, k)]].dirty
  {
    forall k | k in Pins(bs)
      ensures (ROOTDEV, k) in home && bs[home[(ROOTDEV, k)]].dirty
    {
      var i :| 0 <= i < NBUF && bs[i].dirty && bs[i].blockno == k;
      assert BufOk(bs, i, home, view, disk);
    }
  }

  /** When the busy buffers hold fewer than NBUF different blocks, bget finds a victim. */
  lemma VictimExists(bs: seq<Buf>, home: map<Key, nat>, view: seq<Block>, disk: seq<Block>, s: set<nat>)
    requires CacheOk(bs, home, view, disk) && |s| < NBUF
    requires forall i :: 0 <= i < NBUF && bs[i].Busy() ==> bs[i].dev == ROOTDEV && bs[i].blockno in s
    ensures exists i :: 0 <= i < NBUF && !bs[i].Busy()
  {
    if forall i :: 0 <= i < NBUF ==> bs[i].Busy() {
      forall i | 0 <= i < NBUF
        ensures bs[i].blockno in s && (ROOTDEV, bs[i].blockno) in home && home[(ROOTDEV, bs[i].blockno)] == i
      {
        assert bs[i].Busy() && BufOk(bs, i, home, view, disk);
      }
      var t: set<nat>, n := {}, 0;
      while n < NBUF
        invariant 0 <= n <= NBUF && |t| == n && t <= s
        invariant forall k :: k in t ==> exists i :: 0 <= i < n && bs[i].blockno == k
      {
        t, n := t + {bs[n].blockno}, n + 1;
      }
      SubsetSize(t, s);
    }
  }

  /** No block is in two buffers (`home` names the one it is in), buffers agree with `view`,
      and `view` departs from the disk only where a valid buffer holds the contents. */
  ghost predicate CacheOk(bs: seq<Buf>, home: map<Key, nat>, view: seq<Block>, disk: seq<Block>) {
    && |bs| == NBUF + 1
    && |view| == |disk|
    && (forall i :: 0 <= i < NBUF ==> BufOk(bs, i, home, view, disk))
    && (forall k :: k in home ==> home[k] < NBUF && bs[home[k]].dev == k.0 && bs[home[k]].blockno == k.1 && k.0 != 0)
    && (forall k :: 0 <= k < |view| && view[k] != disk[k] ==>
          (ROOTDEV, k) in home && bs[home[(ROOTDEV, k)]].valid)
  }

  /** Changing the links only keeps the contents right. */
  lemma LinksOk(bs: seq<Buf>, cs: seq<Buf>, home: map<Key, nat>, view: seq<Block>, disk: seq<Block>)
    requires CacheOk(bs, home, view, disk)
    requires |cs| == |bs| && forall i :: 0 <= i <= NBUF ==> cs[i].SameAs(bs[i])
    ensures CacheOk(cs, home, view, disk) && Pins(cs) == Pins(bs)
  {
    forall i | 0 <= i < NBUF
      ensures BufOk(cs, i, home, view, disk)
    {
      assert BufOk(bs, i, home, view, disk);
    }
    assert Pins(cs) == Pins(bs) by {
      forall k ensures k in Pins(cs) <==> k in Pins(bs) {
        if i :| 0 <= i < NBUF && cs[i].dirty && cs[i].blockno == k { assert cs[i].SameAs(bs[i]); }
        if i :| 0 <= i < NBUF && bs[i].dirty && bs[i].blockno == k { assert cs[i].SameAs(bs[i]); }
      }
    }
  }

  lemma LinksSame(bs: seq<Buf>, cs: seq<Buf>, home: map<Key, nat>, view: seq<Block>, disk: seq<Block>)
    requires |bs| == |cs| == NBUF + 1 && forall i :: 0 <= i <= NBUF ==> cs[i].SameAs(bs[i])
    ensures CacheOk(cs, home, view, disk) <==> CacheOk(bs, home, view, disk)
    ensures Pins(cs) == Pins(bs)
  {
    forall k
      ensures k in Pins(cs) <==> k in Pins(bs)
    {
      if i :| 0 <= i < NBUF && cs[i].dirty && cs[i].blockno == k { assert cs[i].SameAs(bs[i]); }
      if i :| 0 <= i < NBUF && bs[i].dirty && bs[i].blockno == k { assert cs[i].SameAs(bs[i]); }
    }
    if CacheOk(bs, home, view, disk) { LinksOk(bs, cs, home, view, disk); }
    if CacheOk(cs, home, view, disk) {
      forall i | 0 <= i <= NBUF
        ensures bs[i].SameAs(cs[i])
      {
        assert cs[i].SameAs(bs[i]);
      }
      LinksOk(cs, bs, home, view, disk);
    }
  }

  /** Changing one buffer, and the view and the disk at its block only, keeps the others right. */
  lemma ReplaceOk(bs: seq<Buf>, b: nat, x: Buf, home: map<Key, nat>,
                  view: seq<Block>, disk: seq<Block>, view': seq<Block>, disk': seq<Block>)
    requires CacheOk(bs, home, view, disk) && b < NBUF
    requires x.dev == bs[b].dev && x.blockno == bs[b].blockno
    requires |view'| == |view| && |disk'| == |disk|
    requires forall k :: 0 <= k < |view| && !(x.dev == ROOTDEV && k == x.blockno) ==>
        view'[k] == view[k] && disk'[k] == disk[k]
    requires BufOk(bs[b := x], b, home, view', disk')
    requires x.dev == ROOTDEV && x.blockno < |view| && view'[x.blockno] != disk'[x.blockno] ==> x.valid
    ensures CacheOk(bs[b := x], home, view', disk')
  {
    var r := bs[b := x];
    forall i | 0 <= i < NBUF
      ensures BufOk(r, i, home, view', disk')
    {
      assert BufOk(bs, i, home, view, disk) && BufOk(bs, b, home, view, disk);
    }
  }

  // ---- releasing a buffer ----

  /** What the holder of a buffer has changed is pinned for the log, or on the disk. */
  ghost predicate Saved(x: Buf, disk: seq<Block>) {
    x.dirty || (x.blockno < |disk| && x.data == disk[x.blockno])
  }

  function Released(bs: seq<Buf>, b: nat): (r: seq<Buf>)
    requires b < |bs| && bs[b].refcnt > 0
  {
    bs[b := bs[b].(locked := false, refcnt := bs[b].refcnt - 1)]
  }

  lemma HeldRef(bs: seq<Buf>, b: nat, home: map<Key, nat>, view: seq<Block>, disk: seq<Block>)
    requires CacheOk(bs, home, view, disk) && b < NBUF && bs[b].locked
    ensures bs[b].refcnt > 0
  {
    assert BufOk(bs, b, home, view, disk);
  }

  /** Releasing a held buffer keeps the cache right if and only if its contents are saved. */
  lemma ReleaseOkIff(bs: seq<Buf>, b: nat, home: map<Key, nat>, view: seq<Block>, disk: seq<Block>)
    requires CacheOk(bs, home, view, disk) && b < NBUF && bs[b].locked && bs[b].valid
    ensures bs[b].refcnt > 0
    ensures CacheOk(Released(bs, b), home, view, disk) <==> Saved(bs[b], disk)
  {
    assert BufOk(bs, b, home, view, disk);
    var r := Released(bs, b);
    if Saved(bs[b], disk) {
      ReplaceOk(bs, b, r[b], home, view, disk, view, disk);
    }
    if CacheOk(r, home, view, disk) {
      assert BufOk(r, b, home, view, disk);
    }
  }

  /** Otherwise, if it was the last reference, bget may give the buffer to another block; then no
      buffer has the change, and bread finds the old contents on the disk. */
  lemma UnsavedIsLost(bs: seq<Buf>, b: nat, key: Key, home: map<Key, nat>, view: seq<Block>, disk: seq<Block>)
    requires CacheOk(bs, home, view, disk) && b < NBUF && bs[b].locked && bs[b].valid && bs[b].refcnt == 1
    requires !Saved(bs[b], disk) && key != (ROOTDEV, bs[b].blockno)
    ensures !Released(bs, b)[b].Busy()
    ensures var r := Recycled(Released(bs, b), b, key);
            forall i :: 0 <= i < NBUF && r[i].valid ==> !(r[i].dev == ROOTDEV && r[i].blockno == bs[b].blockno)
    ensures bs[b].blockno < |view| == |disk| && disk[bs[b].blockno] != view[bs[b].blockno]
  {
    assert BufOk(bs, b, home, view, disk);
    var r := Recycled(Released(bs, b), b, key);
    forall i | 0 <= i < NBUF && r[i].valid
      ensures !(r[i].dev == ROOTDEV && r[i].blockno == bs[b].blockno)
    {
      assert BufOk(bs, i, home, view, disk);
    }
  }

  /** bget's recycled buffer. */
  function Recycled(bs: seq<Buf>, b: nat, key: Key): (r: seq<Buf>)
    requires b < |bs|
  {
    bs[b := bs[b].(dev := key.0, blockno := key.1, valid := false, dirty := false, refcnt := 1)]
  }

  /** Recycling a clean unreferenced buffer loses nothing: its contents are on the disk. */
  lemma RecycleOk(bs: seq<Buf>, b: nat, key: Key, home: map<Key, nat>, view: seq<Block>, disk: seq<Block>)
    requires CacheOk(bs, home, view, disk) && b < NBUF && !bs[b].Busy() && key !in home && key.0 != 0
    ensures CacheOk(Recycled(bs, b, key), (home - {(bs[b].dev, bs[b].blockno)})[key := b], view, disk)
    ensures Pins(Recycled(bs, b, key)) == Pins(bs)
  {
    var r := Recycled(bs, b, key);
    var h := (home - {(bs[b].dev, bs[b].blockno)})[key := b];
    assert BufOk(bs, b, home, view, disk);
    forall i | 0 <= i < NBUF
      ensures BufOk(r, i, h, view, disk)
    {
      assert BufOk(bs, i, home, view, disk);
    }
    PinsReplace(bs, b, r[b]);
  }

  /** The disk: single-block writes are atomic, and a crash can fall between any two. */
  class Disk {
    var blocks: seq<Block>
    ghost var history: seq<seq<Block>>  // the contents after each write so far

    constructor (image: seq<Block>)
      ensures blocks == image && history == []
    {
      blocks, history := image, [];
    }
  }

  class Bcache {
    const disk: Disk
    const buf: array<Buf>
    ghost var cyc: seq<nat>
    ghost var stamp: map<nat, nat>     // when each buffer last moved to the front
    ghost var clock: nat
    ghost var home: map<Key, nat>
    ghost var view: seq<Block>

    /** The ring is whole and in order. */
    ghost predicate Ringed()
      reads this, buf
    {
      buf.Length == NBUF + 1 && RingOk(buf[..], cyc) && RingFull(cyc) && Sorted(cyc, stamp, clock)
    }

    ghost predicate Valid()
      reads this, disk, buf
    {
      Ringed() && CacheOk(buf[..], home, view, disk.blocks)
    }

    ghost function Pinned(): (r: set<nat>)
      requires Valid()
      reads this, disk, buf
    {
      Pins(buf[..])
    }

    /** bget and acquiresleep would not block on block k. */
    ghost predicate Free(k: nat)
      requires Valid()
      reads this, disk, buf
    {
      (ROOTDEV, k) in home ==> !buf[home[(ROOTDEV, k)]].locked
    }

    /** A buffer that bread returned and brelse has not taken back. */
    ghost predicate Held(b: nat)
      requires Valid()
      reads this, disk, buf
    {
      b < NBUF && buf[b].locked && buf[b].valid
    }

    /** binit: threads every buffer onto the ring. */
    constructor (d: Disk)
      ensures Valid() && disk == d && view == d.blocks && home == map[]
      ensures fresh(buf) && forall b :: 0 <= b < NBUF ==> !buf[b].Busy() && !buf[b].locked
    {
      disk := d;
      buf := new Buf[NBUF + 1](_ => Buf(false, false, 0, 0, false, 0, ZERO_BLOCK, 0, 0));
      home, view, clock, stamp, cyc := map[], d.blocks, 0, map[], [];
      new;
      LinkAll();
    }

    method LinkAll()
      requires buf.Length == NBUF + 1
      modifies this`cyc, this`stamp, this`clock, buf
      ensures RingOk(buf[..], cyc) && RingFull(cyc) && Sorted(cyc, stamp, clock)
      ensures forall i :: 0 <= i <= NBUF ==> buf[i].SameAs(old(buf[i]))
    {
      buf[HEAD] := buf[HEAD].(prev := HEAD, next := HEAD);
      cyc, stamp, clock := [HEAD, HEAD], map[], 0;
      for b := 0 to NBUF
        invariant |cyc| == b + 2 && RingOk(buf[..], cyc) && Sorted(cyc, stamp, clock)
        invariant forall i :: 0 <= i <= NBUF ==> buf[i].SameAs(old(buf[i]))
        invariant forall c: nat :: c < b ==> c in cyc
        invariant forall c :: c in cyc ==> c < b || c == HEAD
      {
        PutFront(b);
      }
    }

    /** The pointer writes that put b behind the head. */
    method WriteLinks(b: nat)
      requires buf.Length == NBUF + 1 && b < NBUF && buf[HEAD].next <= NBUF
      modifies buf
      ensures buf[..] == LinkFront(old(buf[..]), b)
    {
      buf[b] := buf[b].(next := buf[HEAD].next);
      buf[b] := buf[b].(prev := HEAD);
      buf[buf[HEAD].next] := buf[buf[HEAD].next].(prev := b);
      buf[HEAD] := buf[HEAD].(next := b);
    }

    method PutFront(b: nat)
      requires buf.Length == NBUF + 1 && RingOk(buf[..], cyc) && Sorted(cyc, stamp, clock)
      requires b < NBUF && b !in cyc
      modifies this`cyc, this`stamp, this`clock, buf
      ensures cyc == [HEAD, b] + old(cyc)[1..] && RingOk(buf[..], cyc)
      ensures forall c :: c in cyc <==> c == b || c in old(cyc)
      ensures clock == old(clock) + 1 && stamp == old(stamp)[b := old(clock)] && Sorted(cyc, stamp, clock)
      ensures forall i :: 0 <= i <= NBUF ==> buf[i].SameAs(old(buf[i]))
    {
      LinkFrontOk(buf[..], cyc, b);
      FrontSorted(buf[..], cyc, b, stamp, clock);
      hide RingOk, LinkFront, Sorted;
      ghost var bs := buf[..];
      WriteLinks(b);
      forall i: nat | i <= NBUF
        ensures buf[i].SameAs(bs[i])
      {
        LinkFrontSame(bs, b, i);
      }
      cyc, stamp, clock := [HEAD, b] + cyc[1..], stamp[b := clock], clock + 1;
    }

    /** Takes the k-th buffer out of the ring. */
    method TakeOut(b: nat, ghost k: nat)
      requires buf.Length == NBUF + 1 && RingOk(buf[..], cyc) && Sorted(cyc, stamp, clock)
      requires 1 <= k < |cyc| - 1 && b == cyc[k]
      modifies this`cyc, buf
      ensures cyc == old(cyc)[..k] + old(cyc)[k+1..] && b !in cyc && RingOk(buf[..], cyc)
      ensures Sorted(cyc, stamp, clock)
      ensures forall c :: c in old(cyc) ==> c == b || c in cyc
      ensures forall i :: 0 <= i <= NBUF ==> buf[i].SameAs(old(buf[i]))
    {
      UnlinkOk(buf[..], cyc, k);
      ghost var bs := buf[..];
      buf[buf[b].next] := buf[buf[b].next].(prev := buf[b].prev);
      buf[buf[b].prev] := buf[buf[b].prev].(next := buf[b].next);
      assert buf[..] == Unlink(bs, b);
      ghost var was := cyc;
      cyc := was[..k] + was[k+1..];
      assert was == was[..k] + [b] + was[k+1..];
      DropSorted(was, k, stamp, clock);
    }

    /** The first search of bget. */
    method Lookup(dev: nat, blockno: nat) returns (b: nat)
      requires Valid() && dev != 0
      ensures b == if (dev, blockno) in home then home[(dev, blockno)] else HEAD
    {
      b := buf[HEAD].next;
      ghost var i := 1;
      assert buf[cyc[0]].next == cyc[1];
      while b != HEAD
        invariant 1 <= i <= NBUF + 1 && b == cyc[i]
        invariant forall j :: 1 <= j < i ==> !(buf[cyc[j]].dev == dev && buf[cyc[j]].blockno == blockno)
        decreases NBUF + 1 - i
      {
        assert BufOk(buf[..], b, home, view, disk.blocks);
        if buf[b].dev == dev && buf[b].blockno == blockno { return; }
        assert buf[cyc[i]].next == cyc[i+1];
        b := buf[b].next;
        i := i + 1;
      }
      forall c: nat | c < NBUF
        ensures !(buf[c].dev == dev && buf[c].blockno == blockno)
      {
        assert c in cyc;
        var j :| 0 <= j < |cyc| && cyc[j] == c;
      }
    }

    /** The second search of bget: the least recently released buffer that is unreferenced
        and clean, or HEAD when there is none. */
    method Victim() returns (b: nat)
      requires Valid()
      ensures b <= NBUF
      ensures b == HEAD <==> forall c :: 0 <= c < NBUF ==> buf[c].Busy()
      ensures b < NBUF ==> LeastRecent(buf[..], stamp, b)
    {
      b := buf[HEAD].prev;
      ghost var i := NBUF;
      assert buf[cyc[NBUF+1]].prev == cyc[NBUF];
      while b != HEAD && !(buf[b].refcnt == 0 && !buf[b].dirty)
        invariant 0 <= i <= NBUF && b == cyc[i]
        invariant forall j :: i < j <= NBUF ==> buf[cyc[j]].Busy()
        decreases i
      {
        assert buf[cyc[i]].prev == cyc[i-1];
        b := buf[b].prev;
        i := i - 1;
      }
      forall c: nat | c < NBUF && !buf[c].Busy()
        ensures b < NBUF && c in stamp && b in stamp && stamp[b] <= stamp[c]
      {
        assert c in cyc;
        var j :| 0 <= j < |cyc| && cyc[j] == c;
      }
    }

    method TakeRef(b: nat)
      requires Valid() && b < NBUF
      modifies buf
      ensures Valid() && Pinned() == old(Pinned())
      ensures buf[..] == old(buf[..])[b := old(buf[b]).(refcnt := old(buf[b].refcnt) + 1)]
    {
      ghost var bs := buf[..];
      assert BufOk(bs, b, home, view, disk.blocks);
      buf[b] := buf[b].(refcnt := buf[b].refcnt + 1);
      ReplaceOk(bs, b, buf[b], home, view, disk.blocks, view, disk.blocks);
      RingFrame(bs, b, buf[b], cyc);
      PinsReplace(bs, b, buf[b]);
      assert buf[..] == bs[b := buf[b]];
    }

    method Recycle(b: nat, dev: nat, blockno: nat)
      requires Valid() && b < NBUF && !buf[b].Busy() && dev != 0 && (dev, blockno) !in home
      modifies this`home, buf
      ensures Valid() && Pinned() == old(Pinned())
      ensures buf[..] == old(buf[..])[b := buf[b]]
      ensures buf[b] == old(buf[b]).(dev := dev, blockno := blockno, valid := false, dirty := false, refcnt := 1,
          locked := false)
      ensures home == (old(home) - {(old(buf[b].dev), old(buf[b].blockno))})[(dev, blockno) := b]
    {
      ghost var bs := buf[..];
      assert BufOk(bs, b, home, view, disk.blocks);
      RecycleOk(bs, b, (dev, blockno), home, view, disk.blocks);
      home := (home - {(buf[b].dev, buf[b].blockno)})[(dev, blockno) := b];
      buf[b] := buf[b].(dev := dev, blockno := blockno);
      buf[b] := buf[b].(valid := false, dirty := false);
      buf[b] := buf[b].(refcnt := 1);
      RingFrame(bs, b, buf[b], cyc);
      assert buf[..] == Recycled(bs, b, (dev, blockno));
    }

    /** The part of bget under bcache.lock: finds the block's buffer or recycles one, and
        takes a reference.  HEAD stands for the panic "no buffers". */
    method Bget(dev: nat, blockno: nat) returns (b: nat)
      requires Valid() && dev != 0
      modifies this`home, buf
      ensures Valid() && b <= NBUF && Pinned() == old(Pinned())
      ensures forall c :: 0 <= c <= NBUF && (c != b || b == HEAD) ==> buf[c] == old(buf[c])
      ensures b == HEAD <==> (dev, blockno) !in old(home) && forall c :: 0 <= c < NBUF ==> old(buf[c].Busy())
      ensures b == HEAD ==> home == old(home)
      ensures (dev, blockno) in old(home) ==>
                && b == old(home)[(dev, blockno)] && home == old(home)
                && buf[b] == old(buf[b]).(refcnt := old(buf[b].refcnt) + 1)
      ensures b != HEAD && (dev, blockno) !in old(home) ==>
                && LeastRecent(old(buf[..]), stamp, b) && !buf[b].locked
                && buf[b] == old(buf[b]).(dev := dev, blockno := blockno, valid := false, dirty := false,
                    refcnt := 1, locked := false)
                && home == (old(home) - {(old(buf[b].dev), old(buf[b].blockno))})[(dev, blockno) := b]
    {
      b := Lookup(dev, blockno);
      if b != HEAD {
        TakeRef(b);
        return;
      }
      b := Victim();
      if b != HEAD {
        Recycle(b, dev, blockno);
      }
    }

    /** acquiresleep on a buffer lock that is free. */
    method Lock(b: nat)
      requires Valid() && b < NBUF && !buf[b].locked && buf[b].refcnt > 0
      modifies buf
      ensures Valid() && buf[..] == old(buf[..])[b := old(buf[b]).(locked := true)]
      ensures Pinned() == old(Pinned())
    {
      ghost var bs := buf[..];
      assert BufOk(bs, b, home, view, disk.blocks);
      buf[b] := buf[b].(locked := true);
      PinsReplace(bs, b, buf[b]);
      ReplaceOk(bs, b, buf[b], home, view, disk.blocks, view, disk.blocks);
      RingFrame(bs, b, buf[b], cyc);
      assert buf[..] == bs[b := buf[b]];
    }

    /** Syncs a locked buffer with the disk: a dirty one is written, an invalid one is read. */
    method Iderw(b: nat)
      requires Valid() && b < NBUF && buf[b].locked && (buf[b].dirty || !buf[b].valid)
      requires buf[b].dev == ROOTDEV && buf[b].blockno < |view|
      modifies disk, buf
      ensures Valid() && view == old(view)
      ensures forall c :: 0 <= c <= NBUF && c != b ==> buf[c] == old(buf[c])
      ensures buf[b] == old(buf[b]).(valid := true, dirty := false, data := old(view)[old(buf[b].blockno)])
      ensures if old(buf[b].dirty)
              then disk.blocks == old(disk.blocks)[old(buf[b].blockno) := old(view)[old(buf[b].blockno)]]
                   && disk.history == old(disk.history) + [disk.blocks]
              else disk.blocks == old(disk.blocks) && disk.history == old(disk.history) && Pinned() == old(Pinned())
    {
      ghost var bs, dk := buf[..], disk.blocks;
      assert BufOk(bs, b, home, view, dk);
      if buf[b].dirty {
        buf[b] := buf[b].(dirty := false);
        disk.blocks := disk.blocks[buf[b].blockno := buf[b].data];
        disk.history := disk.history + [disk.blocks];
      } else {
        buf[b] := buf[b].(data := disk.blocks[buf[b].blockno]);
      }
      buf[b] := buf[b].(valid := true);
      ReplaceOk(bs, b, buf[b], home, view, dk, view, disk.blocks);
      if !bs[b].dirty { PinsReplace(bs, b, buf[b]); }
      RingFrame(bs, b, buf[b], cyc);
      assert buf[..] == bs[b := buf[b]];
    }

    /** bread: the locked buffer of block k, holding its contents; HEAD stands for the panic "no
        buffers".  If another process has the buffer locked, the caller is left asleep, with a
        reference that keeps the buffer in place; Resume goes on from there. */
    method Bread(k: nat) returns (b: nat, asleep: bool)
      requires Valid() && k < |view|
      modifies this`home, disk, buf
      ensures Valid() && b <= NBUF && disk.blocks == old(disk.blocks) && disk.history == old(disk.history)
      ensures asleep <==> !old(Free(k))
      ensures b == HEAD <==> (ROOTDEV, k) !in old(home) && forall c :: 0 <= c < NBUF ==> old(buf[c].Busy())
      ensures b != HEAD ==> buf[b].blockno == k && buf[b].dev == ROOTDEV
      ensures b != HEAD && !asleep ==> Held(b) && buf[b].data == view[k]
      ensures asleep ==> home == old(home) && buf[b] == old(buf[b]).(refcnt := old(buf[b].refcnt) + 1)
      ensures (ROOTDEV, k) in old(home) ==> b == old(home)[(ROOTDEV, k)]
      ensures (ROOTDEV, k) !in old(home) && b != HEAD ==> !old(buf[b].Busy())
      ensures b != HEAD ==> buf[b].dirty == (k in old(Pinned()))
      ensures forall c :: 0 <= c < NBUF && c != b ==> buf[c] == old(buf[c])
      ensures b != HEAD ==> buf[b].refcnt == old(buf[b].refcnt) + 1
      ensures Pinned() == old(Pinned())
    {
      PinsHome(buf[..], home, view, disk.blocks);
      b := Bget(ROOTDEV, k);
      asleep := false;
      if b != HEAD {
        if buf[b].locked { return b, true; }
        Resume(b);
      }
    }

    /** bread from acquiresleep on, when the buffer's lock is free. */
    method Resume(b: nat)
      requires Valid() && b < NBUF && !buf[b].locked && buf[b].refcnt > 0
      requires buf[b].dev == ROOTDEV && buf[b].blockno < |view|
      modifies disk, buf
      ensures Valid() && disk.blocks == old(disk.blocks) && disk.history == old(disk.history)
      ensures Pinned() == old(Pinned())
      ensures buf[b] == old(buf[b]).(locked := true, valid := true, data := view[old(buf[b].blockno)])
      ensures forall c :: 0 <= c <= NBUF && c != b ==> buf[c] == old(buf[c])
    {
      Lock(b);
      assert BufOk(buf[..], b, home, view, disk.blocks);
      if !buf[b].valid {
        Iderw(b);
      }
    }

    /** The holder of a buffer changes its data, and with it the view. */
    method SetData(b: nat, x: Block)
      requires Valid() && Held(b)
      modifies this`view, buf
      ensures Valid() && buf[..] == old(buf[..])[b := old(buf[b]).(data := x)]
      ensures buf[b].blockno < |old(view)| && view == old(view)[buf[b].blockno := x]
    {
      ghost var bs, v := buf[..], view;
      assert BufOk(bs, b, home, view, disk.blocks);
      buf[b] := buf[b].(data := x);
      view := view[buf[b].blockno := x];
      ReplaceOk(bs, b, buf[b], home, v, disk.blocks, view, disk.blocks);
      RingFrame(bs, b, buf[b], cyc);
      assert buf[..] == bs[b := buf[b]];
    }

    /** The flag write of log_write: the block stays cached until it is written home. */
    method Pin(b: nat)
      requires Valid() && Held(b)
      modifies buf
      ensures Valid() && buf[..] == old(buf[..])[b := old(buf[b]).(dirty := true)]
      ensures Pinned() == old(Pinned()) + {buf[b].blockno}
    {
      ghost var bs := buf[..];
      assert BufOk(bs, b, home, view, disk.blocks);
      PinsHome(bs, home, view, disk.blocks);
      buf[b] := buf[b].(dirty := true);
      ReplaceOk(bs, b, buf[b], home, view, disk.blocks, view, disk.blocks);
      RingFrame(bs, b, buf[b], cyc);
      assert buf[..] == bs[b := buf[b]];
      PinsHome(buf[..], home, view, disk.blocks);
    }

    /** Writes a held buffer through to the disk. */
    method Bwrite(b: nat)
      requires Valid() && Held(b)
      modifies disk, buf
      ensures Valid() && view == old(view) && Held(b) && !buf[b].dirty && buf[b].data == old(buf[b].data)
      ensures buf[b].blockno == old(buf[b].blockno) < |view| && buf[b].refcnt == old(buf[b].refcnt)
      ensures forall c :: 0 <= c < NBUF && c != b ==> buf[c] == old(buf[c])
      ensures disk.blocks == old(disk.blocks)[buf[b].blockno := view[buf[b].blockno]]
      ensures disk.history == old(disk.history) + [disk.blocks]
      ensures Pinned() == old(Pinned()) - {buf[b].blockno}
    {
      PinsHome(buf[..], home, view, disk.blocks);
      assert BufOk(buf[..], b, home, view, disk.blocks);
      Pin(b);
      Iderw(b);
      PinsHome(buf[..], home, view, disk.blocks);
    }

    /** brelse before the ring is touched: unlocks the buffer and drops its reference. */
    method Unref(b: nat)
      requires Valid() && Held(b)
      modifies buf
      ensures old(buf[b].refcnt) > 0
      ensures Ringed() && buf[..] == Released(old(buf[..]), b) && Pins(buf[..]) == old(Pinned())
      ensures CacheOk(buf[..], home, view, disk.blocks) <==> Saved(old(buf[b]), disk.blocks)
    {
      ghost var bs := buf[..];
      ReleaseOkIff(bs, b, home, view, disk.blocks);
      buf[b] := buf[b].(locked := false);
      buf[b] := buf[b].(refcnt := buf[b].refcnt - 1);
      RingFrame(bs, b, buf[b], cyc);
      PinsReplace(bs, b, buf[b]);
      assert buf[..] == Released(bs, b);
    }

    method MoveToFront(b: nat)
      requires Ringed() && b < NBUF
      modifies this`cyc, this`stamp, this`clock, buf
      ensures Ringed()
      ensures forall c :: 0 <= c <= NBUF ==> buf[c].SameAs(old(buf[c]))
      ensures stamp == old(stamp)[b := old(clock)] && clock == old(clock) + 1
    {
      assert b in cyc;
      ghost var k :| 0 <= k < |cyc| && cyc[k] == b;
      TakeOut(b, k);
      PutFront(b);
    }

    /** brelse: gives a buffer back; with the last reference it moves to the front of the ring.
        The cache goes on standing for `view` exactly if what the holder changed is logged or
        written. */
    method Brelse(b: nat)
      requires Valid() && Held(b)
      modifies this`cyc, this`stamp, this`clock, buf
      ensures Ringed() && Pins(buf[..]) == old(Pinned())
      ensures Valid() <==> Saved(old(buf[b]), disk.blocks)
      ensures forall c :: 0 <= c < NBUF && c != b ==> buf[c].SameAs(old(buf[c]))
      ensures buf[b].refcnt + 1 == old(buf[b].refcnt)
      ensures buf[b].SameAs(old(buf[b]).(locked := false, refcnt := buf[b].refcnt))
      ensures if buf[b].refcnt == 0
              then stamp == old(stamp)[b := old(clock)] && clock == old(clock) + 1
              else stamp == old(stamp) && clock == old(clock) && cyc == old(cyc)
    {
      hide CacheOk, BufOk, RingOk, RingFull, Sorted, Saved, Pins;
      HeldRef(buf[..], b, home, view, disk.blocks);
      Unref(b);
      if buf[b].refcnt == 0 {
        ghost var bs := buf[..];
        MoveToFront(b);
        LinksSame(bs, buf[..], home, view, disk.blocks);
      }
    }
  }
}
