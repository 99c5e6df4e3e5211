/**
 fileread and filewrite of file.c for open inodes: the file offset, and the splitting of a
 write into transactions that fit their log reservation.
 */
module FileIo {
  import opened Common
  import opened FsSpec
  import opened Fs
  import LogOps

  const CHUNK: int := (MAXOPBLOCKS - 1 - 1 - 2) / 2 * 512

  class OpenFile {
    const ip: Inode
    const readable: bool
    const writable: bool
    var off: int

    constructor (i: Inode, r: bool, w: bool)
      ensures ip == i && readable == r && writable == w && off == 0
    {
      ip, readable, writable, off := i, r, w, 0;
    }
  }

  /** An int argument as the uint it is passed as. */
  function ToUint(n: int): (r: int)
    requires -UINT / 2 <= n < UINT / 2
    ensures 0 <= r < UINT && (r == n || r == n + UINT)
  {
    if n < 0 then n + UINT else n
  }

  /** begin_op: the operation has logged nothing yet. */
  method BeginOp(d: Disk)
    modifies d`logged
    ensures d.logged == {}
  {
    d.logged := {};
  }

  /** end_op; an operation must have stayed within its quota. */
  method EndOp(d: Disk, quota: int)
    requires |d.logged| <= quota
  {
  }

  /** With every operation within the bound of filewrite's chunks, log_write never panics, if
      and only if the disk has at most three bitmap blocks. */
  lemma ChunksNeverPanicIff(blocks: int)
    ensures LogOps.NeverTooBig(ChunkQuota(blocks)) <==> BitmapSize(blocks) <= 3
  {
    LogOps.GuardUnreachableIff(ChunkQuota(blocks));
  }

  /** The quota of an operation that is one chunk, on a disk of so many blocks. */
  function ChunkQuota(blocks: int): (k: nat) {
    if blocks < 0 then 0 else ChunkBlocks(BitmapSize(blocks))
  }

  /** fileread on an inode: reads at the file's offset and moves it.  The model stops with the
      outcome Device where a driver takes over. */
  method Fileread(d: Disk, f: OpenFile, n: int, ghost cs: seq<seq<int>>) returns (r: IoResult, dst: seq<Byte>)
    requires d.Valid(f.ip) && AllHave(d.At(f.ip), cs)
    requires 0 <= f.off < UINT && -UINT / 2 <= n < UINT / 2
    modifies d`bitmap, d`data, d`logged, d`owner, f.ip`addrs, f`off
    ensures d.Valid(f.ip) && d.At(f.ip) == old(d.At(f.ip)) && d.logged == old(d.logged)
    ensures f.ip.inum < |cs|
    ensures r == if !f.readable then Err
                 else if f.ip.isDev then Device
                 else if old(f.off) > f.ip.size || old(f.off) + ToUint(n) >= UINT then Err
                 else Done(Min(ToUint(n), f.ip.size - old(f.off)))
    ensures f.off == if r.Done? then old(f.off) + r.n else old(f.off)
    ensures r.Done? ==> old(f.off) + r.n <= |cs[f.ip.inum]| && dst == cs[f.ip.inum][old(f.off)..old(f.off) + r.n]
  {
    HasAllAt(d.At(f.ip), f.ip.inum, cs);
    if !f.readable { return Err, []; }
    r, dst := d.Readi(f.ip, f.off, ToUint(n), cs);
    if r.Done? && r.n > 0 {
      f.off := f.off + r.n;
    }
  }

  lemma HasAllAt(v: View, n: int, cs: seq<seq<int>>)
    requires AllHave(v, cs) && 0 <= n < |v.files|
    ensures n < |cs| && |cs[n]| == v.files[n].size <= MAXFILE * BSIZE
  {
    assert HasAll(v, n, cs[n]);
  }

  /** One turn of the loop of filewrite: a transaction that writes one chunk. */
  method WriteOp(d: Disk, f: OpenFile, s: seq<Byte>, ghost cs: seq<seq<int>>) returns (r: IoResult)
    requires d.Valid(f.ip) && d.Synced(f.ip) && AllHave(d.At(f.ip), cs)
    requires 0 <= f.off < UINT && 0 < |s| <= CHUNK
    modifies d`bitmap, d`data, d`logged, d`owner, d`dinodes, f.ip`addrs, f.ip`size, f`off
    ensures r == Panic ==> d.AllUsed()
    ensures r != Panic ==>
              && d.Valid(f.ip) && d.Synced(f.ip) && f.ip.inum < |cs| && |d.At(f.ip).files| == |cs|
              && r == if f.ip.isDev then Device
                      else if old(f.off) > |cs[f.ip.inum]| || old(f.off) + |s| > MAXFILE * BSIZE then Err
                      else Done(|s|)
    ensures r == Err || r == Device ==> AllHave(d.At(f.ip), cs) && f.off == old(f.off)
    ensures r.Done? ==>
              && AllHave(d.At(f.ip), cs[f.ip.inum := Spliced(cs[f.ip.inum], old(f.off), s)])
              && f.off == old(f.off) + |s|
  {
    HasAllAt(d.At(f.ip), f.ip.inum, cs);
    hide Owned, AllHave, Spliced;
    BeginOp(d);
    r := d.Writei(f.ip, s, f.off, |s|, cs);
    if r == Panic { return; }
    if r.Done? {
      assert s[..|s|] == s;
      f.off := f.off + r.n;
    }
    EndOp(d, ChunkBlocks(BitmapSize(|d.bitmap|)));
  }

  /** filewrite on an inode.  `w` bytes reach the file, in order, from the offset on; all n
      unless a chunk would pass the largest file size, and every chunk is a transaction within
      the bound of ChunksNeverPanicIff (the requirement of EndOp). */
  method Filewrite(d: Disk, f: OpenFile, addr: seq<Byte>, n: int, ghost cs: seq<seq<int>>)
    returns (r: IoResult, ghost w: int)
    requires d.Valid(f.ip) && d.Synced(f.ip) && AllHave(d.At(f.ip), cs)
    requires 0 <= f.off < UINT && -UINT / 2 <= n < UINT / 2 && n <= |addr|
    modifies d`bitmap, d`data, d`logged, d`owner, d`dinodes, f.ip`addrs, f.ip`size, f`off
    ensures r == Panic ==> d.AllUsed()
    ensures r != Panic ==>
              && d.Valid(f.ip) && d.Synced(f.ip) && f.ip.inum < |cs|
              && 0 <= w && f.off == old(f.off) + w
              && r == if !f.writable then Err
                      else if f.ip.isDev && n > 0 then Device
                      else if w == n then Done(n) else Err
    ensures r != Panic && w == 0 ==> AllHave(d.At(f.ip), cs)
    ensures r != Panic && w > 0 ==>
              && w <= n && old(f.off) <= |cs[f.ip.inum]|
              && AllHave(d.At(f.ip), cs[f.ip.inum := Spliced(cs[f.ip.inum], old(f.off), addr[..w])])
    ensures r == Err && f.writable && n >= 0 ==>
              old(f.off) > |cs[f.ip.inum]| || old(f.off) + w + Min(CHUNK, n - w) > MAXFILE * BSIZE
  {
    HasAllAt(d.At(f.ip), f.ip.inum, cs);
    if !f.writable { return Err, 0; }
    hide Owned, AllHave, Spliced, Written;
    var i := 0;
    ghost var c, o := cs[f.ip.inum], f.off;
    StartWritten(cs, f.ip.inum, o, addr);
    while i < n
      invariant 0 <= i && (i == 0 || (i <= n && !f.ip.isDev)) && f.off == o + i && 0 <= f.off < UINT
      invariant 0 <= o && (i > 0 ==> o <= |c| && o + i <= MAXFILE * BSIZE)
      invariant d.Valid(f.ip) && d.Synced(f.ip) && AllHave(d.At(f.ip), Written(cs, f.ip.inum, o, addr, i))
    {
      var res := WriteNext(d, f, addr, i, n, o, cs);
      if res == Panic { return Panic, i; }
      if res == Device { return Device, 0; }
      if res == Err { break; }
      i := i + res.n;
    }
    AllWritten(cs, f.ip.inum, o, addr, i);
    return if i == n then Done(n) else Err, i;
  }

  /** One turn of filewrite's loop, with i bytes of addr written from offset o on. */
  method WriteNext(d: Disk, f: OpenFile, addr: seq<Byte>, i: int, n: int, ghost o: int, ghost cs: seq<seq<int>>)
    returns (r: IoResult)
    requires d.Valid(f.ip) && d.Synced(f.ip) && f.ip.inum < |cs| && 0 <= i < n <= |addr|
    requires 0 <= o && f.off == o + i < UINT && (i > 0 ==> o <= |cs[f.ip.inum]|)
    requires AllHave(d.At(f.ip), Written(cs, f.ip.inum, o, addr, i))
    modifies d`bitmap, d`data, d`logged, d`owner, d`dinodes, f.ip`addrs, f.ip`size, f`off
    ensures r == Panic ==> d.AllUsed()
    ensures r != Panic ==> d.Valid(f.ip) && d.Synced(f.ip) && (r == Device <==> f.ip.isDev)
    ensures r == Device || r == Err ==>
              f.off == old(f.off) && AllHave(d.At(f.ip), Written(cs, f.ip.inum, o, addr, i))
    ensures r == Err ==> (i == 0 && o > |cs[f.ip.inum]|) || o + i + Min(CHUNK, n - i) > MAXFILE * BSIZE
    ensures r.Done? ==>
              && r.n == Min(CHUNK, n - i) && f.off == o + i + r.n <= MAXFILE * BSIZE && o <= |cs[f.ip.inum]|
              && AllHave(d.At(f.ip), Written(cs, f.ip.inum, o, addr, i + r.n))
  {
    hide Owned, AllHave, Spliced, Written;
    var n1 := n - i;
    if n1 > CHUNK {
      n1 := CHUNK;
    }
    NextWritten(cs, f.ip.inum, o, addr, i, n1);
    r := WriteOp(d, f, addr[i..i + n1], Written(cs, f.ip.inum, o, addr, i));
  }

  /** The files' contents when i bytes have gone to file m from offset o on. */
  ghost function Written(cs: seq<seq<int>>, m: int, o: int, addr: seq<Byte>, i: int): (r: seq<seq<int>>)
    requires 0 <= m < |cs| && 0 <= i && (i > 0 ==> i <= |addr| && 0 <= o <= |cs[m]|)
    ensures |r| == |cs|
  {
    if i == 0 then cs else cs[m := Spliced(cs[m], o, addr[..i])]
  }

  lemma StartWritten(cs: seq<seq<int>>, m: int, o: int, addr: seq<Byte>)
    requires 0 <= m < |cs|
    ensures Written(cs, m, o, addr, 0) == cs
  {
  }

  lemma AllWritten(cs: seq<seq<int>>, m: int, o: int, addr: seq<Byte>, i: int)
    requires 0 <= m < |cs| && 0 <= i && (i > 0 ==> i <= |addr| && 0 <= o <= |cs[m]|)
    ensures Written(cs, m, o, addr, i) == if i == 0 then cs else cs[m := Spliced(cs[m], o, addr[..i])]
  {
  }

  /** One more chunk of n1 bytes. */
  lemma NextWritten(cs: seq<seq<int>>, m: int, o: int, addr: seq<Byte>, i: int, n1: int)
    requires 0 <= m < |cs| && 0 <= i && 0 < n1 && i + n1 <= |addr| && o >= 0 && (i > 0 ==> o <= |cs[m]|)
    ensures var now := Written(cs, m, o, addr, i);
            && (o + i > |now[m]| <==> i == 0 && o > |cs[m]|)
            && (o <= |cs[m]| ==> now[m := Spliced(now[m], o + i, addr[i..i + n1])] == Written(cs, m, o, addr, i + n1))
  {
    if o <= |cs[m]| {
      SplicedLen(cs[m], o, addr[..i]);
      hide Spliced;
      SpliceMore(cs[m], o, addr, i, n1);
    }
  }

  lemma SpliceMore(c: seq<int>, o: int, addr: seq<Byte>, i: int, m: int)
    requires 0 <= i && 0 <= m && i + m <= |addr|
    ensures i == 0 && 0 <= o <= |c| ==> Spliced(c, o, addr[i..i + m]) == Spliced(c, o, addr[..m])
    ensures 0 <= o <= |c| ==> o + i <= |Spliced(c, o, addr[..i])|
                              && Spliced(Spliced(c, o, addr[..i]), o + i, addr[i..i + m])
                                  == Spliced(c, o, addr[..i + m])
  {
    assert addr[..i] + addr[i..i + m] == addr[..i + m];
    if 0 <= o <= |c| { SpliceTwice(c, o, addr[..i], addr[i..i + m]); }
  }
}
