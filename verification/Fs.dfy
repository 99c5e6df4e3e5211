/**
 The block allocator, bmap, itrunc, readi and writei of fs.c, for one inode in memory over the
 inodes on disk.

 Blocks are seen as the buffer cache shows them inside a transaction; `logged` collects the
 block numbers passed to log_write since begin_op.
 */
module Fs {
  import opened Common
  import opened FsSpec

  const IPB: int := 8        // inodes per block

  /** struct inode: `inum` in memory; `isDev` stands for type T_DEV. */
  class Inode {
    const inum: int
    const isDev: bool
    var size: int
    var addrs: seq<int>

    constructor (n: int, dev: bool, f: File)
      ensures inum == n && isDev == dev && size == f.size && addrs == f.addrs
    {
      inum, isDev, size, addrs := n, dev, f.size, f.addrs;
    }
  }

  class Disk {
    const nmeta: int        // blocks before the data area
    const bmapstart: int
    const inodestart: int
    var bitmap: seq<bool>
    var data: seq<Block>
    var dinodes: seq<File>
    ghost var owner: Owners
    ghost var logged: set<int>

    constructor (meta: int, bmap: int, inodes: int, image: View, ghost o: Owners)
      ensures nmeta == meta && bmapstart == bmap && inodestart == inodes
      ensures bitmap == image.bitmap && data == image.data && dinodes == image.files && owner == o && logged == {}
    {
      nmeta, bmapstart, inodestart := meta, bmap, inodes;
      bitmap, data, dinodes := image.bitmap, image.data, image.files;
      owner, logged := o, {};
    }

    /** The bitmap block with the bit of block b. */
    function BBlock(b: int): (r: int) {
      b / BPB + bmapstart
    }

    /** The block with inode n. */
    function IBlock(n: int): (r: int) {
      n / IPB + inodestart
    }

    /** On a disk laid out as mkfs does it, inodes and bitmap bits have places of their own: inode
        n is the (n % IPB)-th of its block, and no inode or bit lies in the data area. */
    lemma Places(ninodes: int, size: int, n: int, m: int, b: int, c: int)
      requires bmapstart == inodestart + ninodes / IPB + 1 && nmeta == bmapstart + size / BPB + 1
      requires 0 <= n < ninodes && 0 <= m < ninodes && 0 <= b < size && 0 <= c < size
      ensures inodestart <= IBlock(n) < bmapstart <= BBlock(b) < nmeta
      ensures IBlock(n) == IBlock(m) && n % IPB == m % IPB ==> n == m
      ensures BBlock(b) == BBlock(c) && b % BPB == c % BPB ==> b == c
      ensures (n < IPB ==> IBlock(n) == inodestart) && (b < BPB ==> BBlock(b) == bmapstart)
    {
    }

    /** The disk with the inode in memory in place of its copy on disk. */
    ghost function At(ip: Inode): (r: View)
      requires 0 <= ip.inum < |dinodes|
      reads this, ip
    {
      View(bitmap, data, dinodes[ip.inum := File(ip.size, ip.addrs)])
    }

    ghost predicate Valid(ip: Inode)
      reads this, ip
    {
      && 0 <= ip.inum < |dinodes| && |bitmap| < UINT && |ip.addrs| == NDIRECT + 1
      && Owned(At(ip), owner, nmeta)
    }

    ghost function OnDisk(): (r: View)
      reads this
    {
      View(bitmap, data, dinodes)
    }

    /** Every block in which w differs from v is logged in l. */
    ghost predicate Records(v: View, w: View, l: set<int>)
    {
      && |w.bitmap| == |v.bitmap| && |w.data| == |v.data| && |w.files| == |v.files|
      && (forall b :: 0 <= b < |v.bitmap| && w.bitmap[b] != v.bitmap[b] ==> BBlock(b) in l)
      && (forall b :: 0 <= b < |v.data| && w.data[b] != v.data[b] ==> b in l)
      && (forall n :: 0 <= n < |v.files| && w.files[n] != v.files[n] ==> IBlock(n) in l)
    }

    lemma RecordsRefl()
      ensures Records(OnDisk(), OnDisk(), logged)
    {
    }

    lemma RecordsTrans(u: View, v: View, w: View, k: set<int>, l: set<int>)
      requires Records(u, v, k) && Records(v, w, l) && k <= l
      ensures Records(u, w, l)
    {
    }

    ghost predicate AllUsed()
      reads this
    {
      forall c :: 0 <= c < |bitmap| ==> bitmap[c]
    }

    method LogWrite(b: int)
      modifies this`logged
      ensures logged == old(logged) + {b}
    {
      logged := logged + {b};
    }

    /** balloc: the first free block, marked in use and zeroed; -1 is the panic "out of
        blocks". */
    method Balloc() returns (b: int)
      requires |data| == |bitmap|
      modifies this`bitmap, this`data, this`logged
      ensures b == -1 ==> bitmap == old(bitmap) && data == old(data) && logged == old(logged) && AllUsed()
      ensures b != -1 ==>
                && 0 <= b < |old(bitmap)| && !old(bitmap)[b] && (forall c :: 0 <= c < b ==> old(bitmap)[c])
                && bitmap == old(bitmap)[b := true] && data == old(data)[b := ZeroBlock()]
                && logged == old(logged) + {BBlock(b), b}
      ensures Records(old(OnDisk()), OnDisk(), logged) && old(logged) <= logged
    {
      var base := 0;
      while base < |bitmap|
        invariant base >= 0 && base % BPB == 0
        invariant forall c :: 0 <= c < base && c < |bitmap| ==> bitmap[c]
      {
        var bi := 0;
        while bi < BPB && base + bi < |bitmap|
          invariant 0 <= bi <= BPB
          invariant forall c :: 0 <= c < base + bi && c < |bitmap| ==> bitmap[c]
        {
          if !bitmap[base + bi] {
            bitmap := bitmap[base + bi := true];
            LogWrite(BBlock(base));
            data := data[base + bi := ZeroBlock()];
            LogWrite(base + bi);
            return base + bi;
          }
          bi := bi + 1;
        }
        base := base + BPB;
      }
      return -1;
    }

    /** bfree; the requirement is the panic "freeing free block". */
    method Bfree(b: int)
      requires 0 <= b < |bitmap| && bitmap[b]
      modifies this`bitmap, this`logged
      ensures bitmap == old(bitmap)[b := false] && logged == old(logged) + {BBlock(b)}
      ensures Records(old(OnDisk()), OnDisk(), logged) && old(logged) <= logged
    {
      bitmap := bitmap[b := false];
      LogWrite(BBlock(b));
    }

    /** iupdate: the inode in memory goes to its place on disk. */
    method Iupdate(ip: Inode)
      requires 0 <= ip.inum < |dinodes|
      modifies this`dinodes, this`logged
      ensures dinodes == old(dinodes)[ip.inum := File(ip.size, ip.addrs)]
      ensures logged == old(logged) + {IBlock(ip.inum)}
      ensures Records(old(OnDisk()), OnDisk(), logged) && old(logged) <= logged
    {
      dinodes := dinodes[ip.inum := File(ip.size, ip.addrs)];
      LogWrite(IBlock(ip.inum));
    }

    /** balloc for an empty pointer of the inode in memory: a direct one, or the indirect one. */
    method AllocAddr(ip: Inode, i: int) returns (b: int)
      requires Valid(ip) && 0 <= i <= NDIRECT && ip.addrs[i] == 0
      modifies this`bitmap, this`data, this`logged, this`owner, ip`addrs
      ensures b == -1 ==> AllUsed()
      ensures b != -1 ==>
                && Valid(ip) && Extends(old(At(ip)), At(ip))
                && 0 < b < |data| && ip.addrs == old(ip.addrs)[i := b] && data[b] == ZeroBlock()
                && owner == old(owner)[b := if i < NDIRECT then Direct(ip.inum, i) else Indirect(ip.inum)]
                && b !in old(owner)
                && logged == old(logged) + {BBlock(b), b}
      ensures Records(old(OnDisk()), OnDisk(), logged) && old(logged) <= logged
    {
      hide Owned, Extends, SetWord, Word;
      ghost var v := At(ip);
      ghost var s := if i < NDIRECT then Direct(ip.inum, i) else Indirect(ip.inum);
      OwnedShape(v, owner, nmeta);
      b := Balloc();
      if b != -1 {
        ip.addrs := ip.addrs[i := b];
        MayTake(v, owner, nmeta, s, b);
        AttachOk(v, owner, nmeta, s, b);
        AttachExtends(v, owner, nmeta, s, b);
        owner := owner[b := s];
        assert At(ip) == Attached(v, s, b);
      }
    }

    /** balloc for an empty entry of the indirect block. */
    method AllocEntry(ip: Inode, j: int) returns (b: int)
      requires Valid(ip) && 0 <= j < NINDIRECT && ip.addrs[NDIRECT] != 0 && Held(At(ip), Entry(ip.inum, j)) == 0
      modifies this`bitmap, this`data, this`logged, this`owner
      ensures b == -1 ==> AllUsed()
      ensures b != -1 ==>
                && Valid(ip) && Extends(old(At(ip)), At(ip)) && Held(At(ip), Entry(ip.inum, j)) == b
                && 0 < b < |data| && data[b] == ZeroBlock()
                && owner == old(owner)[b := Entry(ip.inum, j)] && b !in old(owner)
                && logged == old(logged) + {BBlock(b), b} + {ip.addrs[NDIRECT]}
      ensures Records(old(OnDisk()), OnDisk(), logged) && old(logged) <= logged
    {
      hide Owned, Extends, SetWord, Word, ZeroBlock;
      ghost var v, s := At(ip), Entry(ip.inum, j);
      OwnedShape(v, owner, nmeta);
      IndirectInRange(v, owner, nmeta, ip.inum);
      var x := ip.addrs[NDIRECT];
      b := Balloc();
      if b != -1 {
        MayTake(v, owner, nmeta, s, b);
        data := data[x := SetWord(data[x], j, b)];
        LogWrite(x);
        AttachOk(v, owner, nmeta, s, b);
        AttachExtends(v, owner, nmeta, s, b);
        AttachHeld(v, owner, nmeta, s, b, s);
        owner := owner[b := s];
        assert At(ip) == Attached(v, s, b);
      }
    }

    /** The blocks bmap logs besides the data block itself: with a news block its bitmap block,
        the indirect block and the bitmap block of a news indirect block. */
    ghost function BmapLogs(bn: int, b: int, x: int, isNew: bool, newIndirect: bool): (r: set<int>)
    {
      (if isNew then {BBlock(b), b} else {})
      + (if isNew && bn >= NDIRECT then {x} else {})
      + (if newIndirect then {BBlock(x), x} else {})
    }

    ghost function ChunkBits(b: int, x: int, isNew: bool, newIndirect: bool): (r: set<int>) {
      (if isNew then {BBlock(b)} else {}) + (if newIndirect then {BBlock(x)} else {})
    }

    /** bmap: the block number of the bn-th block of the file, allocated if there is none; -1
        is the panic of balloc. */
    method Bmap(ip: Inode, bn: int) returns (b: int)
      requires Valid(ip) && 0 <= bn < MAXFILE
      modifies this`bitmap, this`data, this`logged, this`owner, ip`addrs
      ensures b == -1 ==> AllUsed() && Held(old(At(ip)), FileSlot(ip.inum, bn)) == 0
      ensures b != -1 ==>
                && Valid(ip) && Extends(old(At(ip)), At(ip))
                && b != 0 && Held(At(ip), FileSlot(ip.inum, bn)) == b
      ensures Held(old(At(ip)), FileSlot(ip.inum, bn)) != 0 ==>
                b == Held(old(At(ip)), FileSlot(ip.inum, bn))
                && At(ip) == old(At(ip)) && logged == old(logged) && owner == old(owner)
      ensures b != -1 && Held(old(At(ip)), FileSlot(ip.inum, bn)) == 0 ==>
                && 0 < b < |data| && data[b] == ZeroBlock() && b !in old(owner)
                && owner.Keys == old(owner.Keys) + {b}
                                 + (if ip.addrs[NDIRECT] != old(ip.addrs)[NDIRECT] then {ip.addrs[NDIRECT]} else {})
      ensures b != -1 ==>
                logged == old(logged)
                          + BmapLogs(bn, b, ip.addrs[NDIRECT], Held(old(At(ip)), FileSlot(ip.inum, bn)) == 0,
                                                 ip.addrs[NDIRECT] != old(ip.addrs)[NDIRECT])
      ensures b != -1 ==> (old(ip.addrs)[NDIRECT] == 0 && bn >= NDIRECT) || ip.addrs[NDIRECT] == old(ip.addrs)[NDIRECT]
      ensures b != -1 && bn >= NDIRECT ==> ip.addrs[NDIRECT] != 0
      ensures Records(old(OnDisk()), OnDisk(), logged) && old(logged) <= logged
    {
      hide Owned, Extends, Word;
      ghost var v := At(ip);
      OwnedShape(v, owner, nmeta);
      if bn < NDIRECT {
        b := ip.addrs[bn];
        if b == 0 {
          b := AllocAddr(ip, bn);
        } else {
          HeldInRange(v, owner, nmeta, Direct(ip.inum, bn));
          ExtendsRefl(v);
        }
        return;
      }
      var j := bn - NDIRECT;
      var x := ip.addrs[NDIRECT];
      if x == 0 {
        x := AllocAddr(ip, NDIRECT);
        if x == -1 { return -1; }
        ZeroWords();
      } else {
        ExtendsRefl(v);
      }
      ghost var w := At(ip);
      IndirectInRange(w, owner, nmeta, ip.inum);
      b := Word(data[x], j);
      if b == 0 {
        b := AllocEntry(ip, j);
        if b != -1 {
          ExtendsTrans(v, w, At(ip));
        }
      }
    }

    /** readi: the bytes of the file from off on, at most n of them.  It allocates nothing. */
    method Readi(ip: Inode, off: int, n: int, ghost cs: seq<seq<int>>) returns (r: IoResult, dst: seq<Byte>)
      requires Valid(ip) && AllHave(At(ip), cs) && 0 <= off < UINT && 0 <= n < UINT
      modifies this`bitmap, this`data, this`logged, this`owner, ip`addrs
      ensures Valid(ip) && At(ip) == old(At(ip)) && logged == old(logged) && owner == old(owner)
      ensures r == if ip.isDev then Device
                   else if off > ip.size || off + n >= UINT then Err
                   else Done(Min(n, ip.size - off))
      ensures r.Done? ==> dst == cs[ip.inum][off..off + r.n]
    {
      dst := [];
      if ip.isDev { return Device, []; }
      if off > ip.size || Add32(off, n) < off { return Err, []; }
      assert HasAll(At(ip), ip.inum, cs[ip.inum]);
      hide Owned, Extends, FileHas, Disk.BmapLogs, Held, Shaped, AllHave, HasAll;
      var m := n;
      if off + n > ip.size { m := ip.size - off; }
      var tot := 0;
      ghost var v, c := At(ip), cs[ip.inum];
      while tot < m
        invariant 0 <= tot <= m && Valid(ip) && At(ip) == v && logged == old(logged) && owner == old(owner)
        invariant dst == c[off..off + tot]
      {
        var pos := off + tot;
        var k := Min(m - tot, BSIZE - pos % BSIZE);
        Joined(c, off, pos, pos + k);
        var part := ReadBlock(ip, pos, k, c);
        dst := dst + part;
        tot := tot + k;
      }
      return Done(m), dst;
    }

    /** One turn of the loop of readi: k bytes from position pos, within one block. */
    method ReadBlock(ip: Inode, pos: int, k: int, ghost c: seq<int>) returns (part: seq<Byte>)
      requires Valid(ip) && FileHas(At(ip), ip.inum, c)
      requires 0 <= pos && 0 < k <= BSIZE - pos % BSIZE && pos + k <= |c|
      modifies this`bitmap, this`data, this`logged, this`owner, ip`addrs
      ensures Valid(ip) && At(ip) == old(At(ip)) && logged == old(logged) && owner == old(owner)
      ensures part == c[pos..pos + k]
    {
      BlockHolds(At(ip), owner, nmeta, ip.inum, c, pos, k);
      hide Owned, Extends, FileHas, Disk.BmapLogs, Shaped;
      var b := Bmap(ip, pos / BSIZE);
      part := data[b][pos % BSIZE..pos % BSIZE + k];
    }

    /** bmap for one turn of the loop of writei.  With the data block the log grows by `rest`,
        which has the indirect block when `charges`, and by the bitmap blocks `bits`. */
    method ChunkBlock(ip: Inode, bn: int, ghost charged: bool)
      returns (b: int, ghost isNew: bool, ghost charges: bool, ghost rest: set<int>, ghost bits: set<int>)
      requires Valid(ip) && 0 <= bn < MAXFILE
      requires charged ==> ip.addrs[NDIRECT] in logged && ip.addrs[NDIRECT] != 0
      modifies this`bitmap, this`data, this`logged, this`owner, ip`addrs
      ensures b == -1 ==> AllUsed()
      ensures isNew == (Held(old(At(ip)), FileSlot(ip.inum, bn)) == 0)
      ensures b != -1 ==>
                Valid(ip) && Extends(old(At(ip)), At(ip)) && b != 0 && Held(At(ip), FileSlot(ip.inum, bn)) == b
      ensures b != -1 && !isNew ==> ip.addrs == old(ip.addrs) && owner == old(owner)
      ensures b != -1 ==> logged + {b} == old(logged) + rest + bits && |bitmap| == |old(bitmap)|
      ensures b != -1 ==> Charges(this, |bitmap|, rest, bits, isNew, charges)
      ensures charges ==> !charged
      ensures b != -1 && (charged || charges) ==> ip.addrs[NDIRECT] in logged && ip.addrs[NDIRECT] != 0
      ensures Records(old(OnDisk()), OnDisk(), logged) && old(logged) <= logged
    {
      hide Owned, Extends, Disk.BmapLogs, Charges, Disk.ChunkBits, ChunkRest;
      OwnedShape(At(ip), owner, nmeta);
      ghost var x0 := ip.addrs[NDIRECT];
      isNew := Held(At(ip), FileSlot(ip.inum, bn)) == 0;
      charges := isNew && bn >= NDIRECT && !charged;
      b := Bmap(ip, bn);
      if b != -1 {
        ghost var x := ip.addrs[NDIRECT];
        rest, bits := ChunkRest(bn, b, x, isNew, charged), ChunkBits(b, x, isNew, x != x0);
        BlocksInRange(At(ip), owner, nmeta, ip.inum, bn);
        ChunkLogs(this, |bitmap|, old(logged), bn, b, x, isNew, x != x0, charged);
        IndirectLogged(this, bn, b, x, isNew, x != x0);
      } else {
        rest, bits := {}, {};
      }
    }

    /** One turn of the loop of writei: the bytes s, within one block, go to position pos. */
    method WriteBlock(ip: Inode, pos: int, s: seq<Byte>, ghost c: seq<int>, ghost cs: seq<seq<int>>,
                      ghost charged: bool)
      returns (ok: bool, ghost isNew: bool, ghost charges: bool, ghost rest: set<int>, ghost bits: set<int>)
      requires Valid(ip) && Writing(At(ip), ip.inum, c, cs) && 0 <= pos <= |c|
      requires 0 < |s| <= BSIZE - pos % BSIZE && pos / BSIZE < MAXFILE
      requires charged ==> ip.addrs[NDIRECT] in logged && ip.addrs[NDIRECT] != 0
      modifies this`bitmap, this`data, this`logged, this`owner, ip`addrs
      ensures !ok ==> AllUsed()
      ensures ok ==> Valid(ip) && Writing(At(ip), ip.inum, Spliced(c, pos, s), cs)
      ensures ok && pos / BSIZE * BSIZE < |c| ==> !isNew
      ensures ok && !isNew ==> ip.addrs == old(ip.addrs) && owner == old(owner)
      ensures ok ==> logged == old(logged) + rest + bits && |bitmap| == |old(bitmap)|
      ensures ok ==> Charges(this, |bitmap|, rest, bits, isNew, charges)
      ensures charges ==> !charged
      ensures ok && (charged || charges) ==> ip.addrs[NDIRECT] in logged && ip.addrs[NDIRECT] != 0
      ensures Records(old(OnDisk()), OnDisk(), logged) && old(logged) <= logged
    {
      hide Owned, Extends, FileHas, Writing, Shaped, Spliced, Patched, HasAll, AllHave, Charges;
      ghost var v := At(ip);
      if pos / BSIZE * BSIZE < |c| {
        WritingMapped(v, owner, nmeta, ip.inum, c, cs, pos / BSIZE * BSIZE);
      }
      var b;
      b, isNew, charges, rest, bits := ChunkBlock(ip, pos / BSIZE, charged);
      ok := b != -1;
      if ok {
        WritingExtends(v, At(ip), ip.inum, c, cs);
        StoreBlock(ip, b, pos, s, c, cs);
      }
    }

    /** The memmove and log_write of that turn. */
    method StoreBlock(ip: Inode, b: int, pos: int, s: seq<Byte>, ghost c: seq<int>, ghost cs: seq<seq<int>>)
      requires Valid(ip) && Writing(At(ip), ip.inum, c, cs) && 0 <= pos <= |c|
      requires 0 < |s| <= BSIZE - pos % BSIZE && pos / BSIZE < MAXFILE
      requires b == Held(At(ip), FileSlot(ip.inum, pos / BSIZE)) && b != 0
      modifies this`data, this`logged
      ensures Valid(ip) && Writing(At(ip), ip.inum, Spliced(c, pos, s), cs)
      ensures logged == old(logged) + {b}
      ensures Records(old(OnDisk()), OnDisk(), logged) && old(logged) <= logged
    {
      hide Owned, Writing, Spliced, Patched;
      ghost var w := At(ip);
      WritingStores(w, owner, nmeta, ip.inum, c, cs, pos, s);
      OwnedShape(w, owner, nmeta);
      data := data[b := Patched(data[b], pos % BSIZE, s)];
      LogWrite(b);
      assert At(ip) == Stored(w, b, Patched(w.data[b], pos % BSIZE, s));
    }

    /** The inode on disk is the inode in memory. */
    ghost predicate Synced(ip: Inode)
      reads this, ip
    {
      0 <= ip.inum < |dinodes| && dinodes[ip.inum] == File(ip.size, ip.addrs)
    }

    /** The loop of writei: each turn writes the part of src that falls in the next block. */
    method WriteLoop(ip: Inode, src: seq<Byte>, off: int, n: int, ghost c: seq<int>, ghost cs: seq<seq<int>>)
      returns (ok: bool)
      requires Valid(ip) && Writing(At(ip), ip.inum, c, cs)
      requires 0 <= off <= |c| && 0 <= n <= |src| && off + n <= MAXFILE * BSIZE
      modifies this`bitmap, this`data, this`logged, this`owner, ip`addrs
      ensures !ok ==> AllUsed()
      ensures ok ==> Valid(ip) && Writing(At(ip), ip.inum, Spliced(c, off, src[..n]), cs)
      ensures ok && off + n <= |c| ==> ip.addrs == old(ip.addrs) && owner == old(owner)
      ensures ok ==> |bitmap| == |old(bitmap)|
      ensures ok && n <= 1536 ==> |logged| <= |old(logged)| + 5 + Min(4, BitmapSize(|bitmap|))
      ensures Records(old(OnDisk()), OnDisk(), logged) && old(logged) <= logged
    {
      hide Owned, Writing, Spliced, Tallied, Charges;
      var tot := 0;
      SplicedLen(c, off, src[..0]);
      ghost var tl := Tally(0, 0, false, {}, {});
      TallyZero(this, |bitmap|, off, n, logged);
      while tot < n
        invariant 0 <= tot <= n && Valid(ip) && |bitmap| == |old(bitmap)|
        invariant Writing(At(ip), ip.inum, Spliced(c, off, src[..tot]), cs)
        invariant off + n <= |c| ==> ip.addrs == old(ip.addrs) && owner == old(owner)
        invariant Tallied(this, |bitmap|, off, n, tot, old(logged), logged, tl)
        invariant tl.charged ==> ip.addrs[NDIRECT] in logged && ip.addrs[NDIRECT] != 0
        invariant Records(old(OnDisk()), OnDisk(), logged) && old(logged) <= logged
      {
        var pos := off + tot;
        var m := Min(n - tot, BSIZE - pos % BSIZE);
        PositionInFile(off, n, tot);
        SplicedLen(c, off, src[..tot]);
        ghost var l1 := logged;
        var ok';
        ghost var isNew, charges, r, s;
        ok', isNew, charges, r, s := WriteBlock(ip, pos, src[tot..tot + m], Spliced(c, off, src[..tot]), cs,
            tl.charged);
        if !ok' { return false; }
        SpliceOn(c, off, src, tot, m);
        TallyNext(this, |bitmap|, off, n, tot, old(logged), l1, logged, tl, r, s, isNew, charges);
        tl := tl.Turn(r, s, isNew, charges);
        tot := tot + m;
      }
      TallySize(this, |bitmap|, off, n, tot, old(logged), logged, tl);
      return true;
    }

    /** Where the next chunk starts. */
    lemma PositionInFile(off: int, n: int, tot: int)
      requires off >= 0 && 0 <= tot < n && off + n <= MAXFILE * BSIZE
      ensures 0 <= (off + tot) / BSIZE < MAXFILE
      ensures tot == 0 && off % BSIZE != 0 ==> (off + tot) / BSIZE * BSIZE < off
      ensures (off + tot) / BSIZE * BSIZE <= off + tot
    {
    }

    /** writei: n bytes of src go into the file at off.  A write of at most 1536 bytes logs at
        most 6 blocks and as many bitmap blocks as there are, but no more than 4 of these. */
    method Writei(ip: Inode, src: seq<Byte>, off: int, n: int, ghost cs: seq<seq<int>>) returns (r: IoResult)
      requires Valid(ip) && Synced(ip) && AllHave(At(ip), cs)
      requires 0 <= off < UINT && 0 <= n < UINT && n <= |src|
      modifies this`bitmap, this`data, this`logged, this`owner, this`dinodes, ip`addrs, ip`size
      ensures r == Panic ==> AllUsed()
      ensures r != Panic ==>
                && Valid(ip) && Synced(ip)
                && r == if ip.isDev then Device
                        else if off > old(ip.size) || off + n >= UINT || off + n > MAXFILE * BSIZE then Err
                        else Done(n)
      ensures r == Device || r == Err ==>
                Valid(ip) && At(ip) == old(At(ip)) && dinodes == old(dinodes) && logged == old(logged)
      ensures r.Done? ==>
                && ip.inum < |cs| && off <= |cs[ip.inum]|
                && AllHave(At(ip), cs[ip.inum := Spliced(cs[ip.inum], off, src[..n])])
      ensures r.Done? && n <= 1536 ==> |logged| <= |old(logged)| + ChunkBlocks(BitmapSize(|bitmap|))
      ensures |bitmap| == |old(bitmap)|
      ensures r.Done? && off + n <= old(ip.size) ==>
                ip.addrs == old(ip.addrs) && owner == old(owner) && dinodes == old(dinodes)
      ensures Records(old(OnDisk()), OnDisk(), logged) && old(logged) <= logged
    {
      if ip.isDev { return Device; }
      if off > ip.size || Add32(off, n) < off { return Err; }
      if Add32(off, n) > MAXFILE * BSIZE { return Err; }
      ghost var v0 := At(ip);
      StartWriting(v0, ip.inum, cs, off);
      hide Owned, Writing, AllHave, HasAll, FileHas, Spliced;
      ghost var c := cs[ip.inum];
      var ok := WriteLoop(ip, src, off, n, c, cs);
      if !ok { return Panic; }
      SplicedLen(c, off, src[..n]);
      if n > 0 && off + n > ip.size {
        Lengthen(ip, off + n, Spliced(c, off, src[..n]), cs);
      }
      DoneWriting(v0, At(ip), ip.inum, Spliced(c, off, src[..n]), cs);
      return Done(n);
    }

    /** writei sets the new size and writes the inode. */
    method Lengthen(ip: Inode, end: int, ghost d: seq<int>, ghost cs: seq<seq<int>>)
      requires Valid(ip) && Writing(At(ip), ip.inum, d, cs)
      modifies this`logged, this`dinodes, ip`size
      ensures Valid(ip) && Synced(ip) && Writing(At(ip), ip.inum, d, cs)
      ensures ip.size == end && At(ip) == Resized(old(At(ip)), ip.inum, end)
      ensures dinodes == old(dinodes)[ip.inum := File(end, ip.addrs)]
      ensures |logged| <= |old(logged)| + 1
      ensures Records(old(OnDisk()), OnDisk(), logged) && old(logged) <= logged
    {
      hide Owned, Writing;
      ResizeOk(At(ip), owner, nmeta, ip.inum, end, d, cs);
      ghost var w := Resized(At(ip), ip.inum, end);
      ip.size := end;
      assert At(ip) == w;
      AddOne(logged, IBlock(ip.inum));
      Iupdate(ip);
      assert At(ip).files == w.files;
    }

    /** The first loop of itrunc: frees the direct blocks. */
    method TruncDirect(ip: Inode) returns (ghost done: set<Slot>)
      requires Valid(ip)
      modifies this`bitmap, this`logged, ip`addrs
      ensures Cleared(old(At(ip)), owner, done, bitmap)
      ensures forall s :: s in done <==> s.Direct? && s.n == ip.inum && 0 <= s.i < NDIRECT
      ensures |ip.addrs| == NDIRECT + 1 && ip.addrs[NDIRECT] == old(ip.addrs)[NDIRECT]
      ensures forall i :: 0 <= i < NDIRECT ==> ip.addrs[i] == 0
      ensures Records(old(OnDisk()), OnDisk(), logged) && old(logged) <= logged
    {
      ghost var v := At(ip);
      OwnedShape(v, owner, nmeta);
      hide Owned;
      done := {};
      var i := 0;
      while i < NDIRECT
        invariant 0 <= i <= NDIRECT && |ip.addrs| == NDIRECT + 1
        invariant Cleared(v, owner, done, bitmap)
        invariant forall s :: s in done <==> s.Direct? && s.n == ip.inum && 0 <= s.i < i
        invariant forall k :: 0 <= k <= NDIRECT ==> ip.addrs[k] == if k < i then 0 else old(ip.addrs)[k]
        invariant Records(old(OnDisk()), OnDisk(), logged) && old(logged) <= logged
      {
        ghost var s := Direct(ip.inum, i);
        ClearOne(v, owner, nmeta, done, bitmap, s);
        assert Held(v, s) == ip.addrs[i];
        if ip.addrs[i] != 0 {
          Bfree(ip.addrs[i]);
          ip.addrs := ip.addrs[i := 0];
        }
        done := done + {s};
        i := i + 1;
      }
    }

    /** The second part of itrunc: frees what the indirect block lists, and the block. */
    method TruncIndirect(ip: Inode, ghost v: View, ghost direct: set<Slot>) returns (ghost done: set<Slot>)
      requires Owned(v, owner, nmeta) && 0 <= ip.inum < |v.files| && data == v.data && |dinodes| == |v.files|
      requires |ip.addrs| == NDIRECT + 1 && ip.addrs[NDIRECT] == v.files[ip.inum].addrs[NDIRECT] != 0
      requires Cleared(v, owner, direct, bitmap) && forall s :: s in direct ==> s.Direct?
      modifies this`bitmap, this`logged, ip`addrs
      ensures Cleared(v, owner, done, bitmap)
      ensures forall s :: s in done <==>
                s in direct || s == Indirect(ip.inum) || (s.Entry? && s.n == ip.inum && 0 <= s.j < NINDIRECT)
      ensures ip.addrs == old(ip.addrs)[NDIRECT := 0]
      ensures Records(old(OnDisk()), OnDisk(), logged) && old(logged) <= logged
    {
      IndirectInRange(v, owner, nmeta, ip.inum);
      OwnedShape(v, owner, nmeta);
      hide Owned, Word, Cleared, Disk.Records, Shaped;
      ghost var d0 := OnDisk();
      RecordsRefl();
      var x := ip.addrs[NDIRECT];
      done := direct;
      var j := 0;
      while j < NINDIRECT
        invariant 0 <= j <= NINDIRECT && ip.addrs == old(ip.addrs)
        invariant Cleared(v, owner, done, bitmap)
        invariant forall s :: s in done <==> s in direct || (s.Entry? && s.n == ip.inum && 0 <= s.j < j)
        invariant Records(d0, OnDisk(), logged) && old(logged) <= logged
      {
        ghost var s := Entry(ip.inum, j);
        ClearOne(v, owner, nmeta, done, bitmap, s);
        var b := Word(data[x], j);
        assert Held(v, s) == b;
        if b != 0 {
          ghost var d1, l1 := OnDisk(), logged;
          Bfree(b);
          RecordsTrans(d0, d1, OnDisk(), l1, logged);
        }
        done := done + {s};
        j := j + 1;
      }
      ClearOne(v, owner, nmeta, done, bitmap, Indirect(ip.inum));
      ghost var d1, l1 := OnDisk(), logged;
      Bfree(x);
      RecordsTrans(d0, d1, OnDisk(), l1, logged);
      done := done + {Indirect(ip.inum)};
      ip.addrs := ip.addrs[NDIRECT := 0];
    }

    /** itrunc: the file is empty, in memory and on disk, and the other files are as they were.
        Exactly the inode's direct blocks, the blocks its indirect block lists and the indirect
        block are freed; the panic of bfree is unreachable. */
    method Itrunc(ip: Inode, ghost cs: seq<seq<int>>)
      requires Valid(ip)
      modifies this`bitmap, this`logged, this`owner, this`dinodes, ip`addrs, ip`size
      ensures Valid(ip) && Synced(ip)
      ensures ip.size == 0 && forall i :: 0 <= i <= NDIRECT ==> ip.addrs[i] == 0
      ensures dinodes == old(dinodes)[ip.inum := File(0, ip.addrs)] && data == old(data)
      ensures |bitmap| == |old(bitmap)|
      ensures forall b :: 0 <= b < |bitmap| ==>
                (bitmap[b] <==>
                   old(bitmap)[b] && !(b in old(owner) && !old(owner)[b].Meta? && old(owner)[b].n == ip.inum))
      ensures old(AllHave(At(ip), cs)) ==> ip.inum < |cs| && AllHave(At(ip), cs[ip.inum := []])
      ensures At(ip) == Truncated(old(At(ip)), old(owner), ip.inum)
      ensures owner == Without(old(owner), ip.inum)
      ensures Records(old(OnDisk()), OnDisk(), logged) && old(logged) <= logged
    {
      ghost var v := At(ip);
      OwnedShape(v, owner, nmeta);
      hide Owned, Disk.Records, Word;
      ghost var d0 := OnDisk();
      ghost var done := TruncDirect(ip);
      ghost var d1, l1 := OnDisk(), logged;
      if ip.addrs[NDIRECT] != 0 {
        done := TruncIndirect(ip, v, done);
        RecordsTrans(d0, d1, OnDisk(), l1, logged);
      }
      ghost var d2, l2 := OnDisk(), logged;
      ClearAll(v, owner, nmeta, ip.inum, done, bitmap);
      TruncOk(v, owner, nmeta, ip.inum);
      ip.size := 0;
      owner := Without(owner, ip.inum);
      Iupdate(ip);
      RecordsTrans(d0, d2, OnDisk(), l2, logged);
      TruncContents(v, old(owner), ip.inum, cs);
      assert ip.addrs == NoBlocks();
      assert At(ip).files == Truncated(v, old(owner), ip.inum).files;
    }
  }

  /** The truncated file is empty, and the others keep their bytes. */
  lemma TruncContents(v: View, owner: Owners, n: int, cs: seq<seq<int>>)
    requires Shaped(v) && 0 <= n < |v.files|
    ensures AllHave(v, cs) ==> n < |cs| && AllHave(Truncated(v, owner, n), cs[n := []])
  {
    if AllHave(v, cs) {
      var w := Truncated(v, owner, n);
      var ds := cs[n := []];
      forall m | 0 <= m < |cs|
        ensures HasAll(w, m, ds[m])
      {
        assert HasAll(v, m, cs[m]);
        if m != n {
          forall k | 0 <= k < |cs[m]|
            ensures HasByte(w, m, cs[m], k)
          {
            assert HasByte(v, m, cs[m], k);
          }
        }
      }
    }
  }

  lemma SplicedLen(c: seq<int>, off: int, s: seq<int>)
    requires 0 <= off <= |c|
    ensures |Spliced(c, off, s)| == if off + |s| > |c| then off + |s| else |c|
    ensures s == [] ==> Spliced(c, off, s) == c
  {
  }

  lemma SpliceOn(c: seq<int>, off: int, s: seq<int>, tot: int, m: int)
    requires 0 <= off <= |c| && 0 <= tot && 0 <= m && tot + m <= |s|
    ensures off + tot <= |Spliced(c, off, s[..tot])|
    ensures Spliced(Spliced(c, off, s[..tot]), off + tot, s[tot..tot + m]) == Spliced(c, off, s[..tot + m])
  {
    assert s[..tot] + s[tot..tot + m] == s[..tot + m];
    SpliceTwice(c, off, s[..tot], s[tot..tot + m]);
  }

  lemma StartWriting(v: View, n: int, cs: seq<seq<int>>, off: int)
    requires 0 <= n < |v.files| && AllHave(v, cs) && 0 <= off <= v.files[n].size
    ensures n < |cs| && |cs[n]| == v.files[n].size <= MAXFILE * BSIZE
    ensures Writing(v, n, Spliced(cs[n], off, []), cs)
  {
    assert HasAll(v, n, cs[n]) && Spliced(cs[n], off, []) == cs[n];
    forall m | 0 <= m < |cs|
      ensures FileHas(v, m, cs[m])
    {
      assert HasAll(v, m, cs[m]);
    }
  }

  /** Growing the size field moves no block. */
  lemma ResizeOk(v: View, owner: Owners, nmeta: int, n: int, size: int, d: seq<int>, cs: seq<seq<int>>)
    requires Owned(v, owner, nmeta) && Writing(v, n, d, cs)
    ensures Owned(Resized(v, n, size), owner, nmeta) && Writing(Resized(v, n, size), n, d, cs)
  {
    var w := Resized(v, n, size);
    forall b | b in owner
      ensures BlockOk(w, owner, nmeta, b)
    {
      assert BlockOk(v, owner, nmeta, b);
    }
    forall s | IsSlot(w, s)
      ensures SlotOk(w, owner, s)
    {
      assert SlotOk(v, owner, s);
    }
    SameBlocksHas(v, w, n, d);
    forall m | 0 <= m < |cs| && m != n
      ensures FileHas(w, m, cs[m])
    {
      SameBlocksHas(v, w, m, cs[m]);
    }
  }

  lemma SameBlocksHas(v: View, w: View, m: int, c: seq<int>)
    requires FileHas(v, m, c) && Shaped(w) && |w.files| == |v.files| && w.data == v.data
    requires forall s :: IsSlot(v, s) ==> IsSlot(w, s) && Held(w, s) == Held(v, s)
    ensures FileHas(w, m, c)
  {
    forall k | 0 <= k < |c|
      ensures HasByte(w, m, c, k)
    {
      assert HasByte(v, m, c, k);
    }
  }

  function Resized(v: View, n: int, size: int): (w: View)
    requires 0 <= n < |v.files|
  {
    v.(files := v.files[n := v.files[n].(size := size)])
  }

  lemma DoneWriting(v: View, w: View, n: int, d: seq<int>, cs: seq<seq<int>>)
    requires AllHave(v, cs) && |w.files| == |v.files| && 0 <= n < |v.files|
    requires forall m :: 0 <= m < |v.files| && m != n ==> w.files[m].size == v.files[m].size
    requires Writing(w, n, d, cs) && |d| == w.files[n].size <= MAXFILE * BSIZE
    ensures AllHave(w, cs[n := d])
  {
    var ds := cs[n := d];
    forall m | 0 <= m < |cs|
      ensures HasAll(w, m, ds[m])
    {
      assert HasAll(v, m, cs[m]);
    }
  }

  lemma IndirectLogged(d: Disk, bn: int, b: int, x: int, isNew: bool, newIndirect: bool)
    ensures isNew && bn >= NDIRECT ==> x in d.BmapLogs(bn, b, x, isNew, newIndirect)
  {
  }

  lemma WritingMapped(v: View, owner: Owners, nmeta: int, n: int, c: seq<int>, cs: seq<seq<int>>, k: int)
    requires Owned(v, owner, nmeta) && Writing(v, n, c, cs) && 0 <= k < |c|
    ensures k / BSIZE < MAXFILE && Held(v, FileSlot(n, k / BSIZE)) != 0
  {
    MappedAt(v, owner, nmeta, n, c, k);
  }

  /** The result of an inode operation: handled by the device driver, -1, a panic of the
      block allocator, or a count of bytes. */
  datatype IoResult = Device | Err | Panic | Done(n: int)

  /** off + n in the kernel's uint. */
  function Add32(a: int, b: int): (r: int) {
    (a + b) % UINT
  }

  /** The file bytes in cs are what each inode holds. */
  ghost predicate AllHave(v: View, cs: seq<seq<int>>) {
    && Shaped(v) && |cs| == |v.files|
    && forall m :: 0 <= m < |cs| ==> HasAll(v, m, cs[m])
  }

  ghost predicate HasAll(v: View, m: int, c: seq<int>)
    requires 0 <= m < |v.files|
  {
    |c| == v.files[m].size <= MAXFILE * BSIZE && FileHas(v, m, c)
  }

  /** When every block below each file's size is there, the files hold their contents; and
      they hold nothing else. */
  lemma AllHaveContents(v: View, owner: Owners, nmeta: int, cs: seq<seq<int>>)
    requires Owned(v, owner, nmeta) && |cs| == |v.files|
    ensures AllHave(v, cs) <==> forall n :: 0 <= n < |v.files| ==> Mapped(v, n) && cs[n] == Contents(v, n)
  {
    forall n | 0 <= n < |v.files|
      ensures HasAll(v, n, cs[n]) <==> Mapped(v, n) && cs[n] == Contents(v, n)
    {
      if Mapped(v, n) && cs[n] == Contents(v, n) {
        forall k | 0 <= k < |cs[n]|
          ensures HasByte(v, n, cs[n], k)
        {
          HeldInRange(v, owner, nmeta, FileSlot(n, k / BSIZE));
        }
      }
      if HasAll(v, n, cs[n]) {
        forall k | 0 <= k < |cs[n]|
          ensures cs[n][k] == FileByte(v, n, k)
        {
          MappedAt(v, owner, nmeta, n, cs[n], k);
        }
        forall bn | 0 <= bn < MAXFILE && bn * BSIZE < v.files[n].size
          ensures Held(v, FileSlot(n, bn)) != 0
        {
          MappedAt(v, owner, nmeta, n, cs[n], bn * BSIZE);
        }
      }
    }
  }

  /** While file n is being written: it holds c so far, the others hold cs. */
  ghost predicate Writing(v: View, n: int, c: seq<int>, cs: seq<seq<int>>) {
    && FileHas(v, n, c) && |cs| == |v.files|
    && forall m :: 0 <= m < |cs| && m != n ==> FileHas(v, m, cs[m])
  }

  lemma WritingExtends(v: View, w: View, n: int, c: seq<int>, cs: seq<seq<int>>)
    requires Writing(v, n, c, cs) && Extends(v, w)
    ensures Writing(w, n, c, cs)
  {
    ExtendsHas(v, w, n, c);
    forall m | 0 <= m < |cs| && m != n
      ensures FileHas(w, m, cs[m])
    {
      ExtendsHas(v, w, m, cs[m]);
    }
  }

  lemma WritingStores(v: View, owner: Owners, nmeta: int, n: int, c: seq<int>, cs: seq<seq<int>>, off: int,
                      s: seq<Byte>)
    requires Owned(v, owner, nmeta) && Writing(v, n, c, cs) && 0 <= off <= |c|
    requires 0 < |s| <= BSIZE - off % BSIZE && off / BSIZE < MAXFILE
    requires Held(v, FileSlot(n, off / BSIZE)) != 0
    ensures 0 < Held(v, FileSlot(n, off / BSIZE)) < |v.data|
    ensures var b := Held(v, FileSlot(n, off / BSIZE));
            var w := Stored(v, b, Patched(v.data[b], off % BSIZE, s));
            Owned(w, owner, nmeta) && Writing(w, n, Spliced(c, off, s), cs)
  {
    WriteChunk(v, owner, nmeta, n, c, off, s);
    var b := Held(v, FileSlot(n, off / BSIZE));
    var x := Patched(v.data[b], off % BSIZE, s);
    StoreOk(v, owner, nmeta, FileSlot(n, off / BSIZE), x);
    forall m | 0 <= m < |cs| && m != n
      ensures FileHas(Stored(v, b, x), m, cs[m])
    {
      WriteOthers(v, owner, nmeta, n, off / BSIZE, x, m, cs[m]);
    }
  }

  // ---- counting logged blocks ----

  lemma AddOne<T>(s: set<T>, x: T)
    ensures |s + {x}| <= |s| + 1
    ensures x in s ==> s + {x} == s
  {
  }

  /** Blocks that a write of at most 1536 bytes logs on a disk with the given number of bitmap
      blocks: four data blocks, the indirect block, the inode's block and bitmap blocks. */
  function ChunkBlocks(bitmapBlocks: int): (k: int)
    ensures k <= MAXOPBLOCKS
    ensures bitmapBlocks <= 3 <==> k < MAXOPBLOCKS
  {
    6 + Min(4, bitmapBlocks)
  }

  /** How many blocks hold the bits of this many blocks. */
  function BitmapSize(blocks: int): (k: int) {
    (blocks + BPB - 1) / BPB
  }

  /** n consecutive numbers from a on. */
  ghost function RangeSet(a: int, n: int): (r: set<int>)
    decreases n
  {
    if n <= 0 then {} else RangeSet(a, n - 1) + {a + n - 1}
  }

  lemma {:induction false} RangeSize(a: int, n: int)
    requires n >= 0
    ensures |RangeSet(a, n)| <= n
    decreases n
  {
    if n > 0 { RangeSize(a, n - 1); }
  }

  lemma {:induction false} InRange(a: int, n: int, k: int)
    requires a <= k < a + n
    ensures k in RangeSet(a, n)
    decreases n
  {
    if k < a + n - 1 { InRange(a, n - 1, k); }
  }

  lemma BitmapBlock(d: Disk, size: int, b: int)
    requires 0 <= b < size
    ensures d.BBlock(b) in RangeSet(d.bmapstart, BitmapSize(size))
  {
    InRange(d.bmapstart, BitmapSize(size), d.BBlock(b));
  }

  lemma BlocksInRange(v: View, owner: Owners, nmeta: int, n: int, bn: int)
    requires Owned(v, owner, nmeta) && 0 <= n < |v.files| && 0 <= bn < MAXFILE && Held(v, FileSlot(n, bn)) != 0
    ensures 0 <= Held(v, FileSlot(n, bn)) < |v.bitmap| && |v.files[n].addrs| == NDIRECT + 1
    ensures 0 <= v.files[n].addrs[NDIRECT] < |v.bitmap|
  {
    HeldInRange(v, owner, nmeta, FileSlot(n, bn));
    if v.files[n].addrs[NDIRECT] != 0 { HeldInRange(v, owner, nmeta, Indirect(n)); }
  }

  /** What one turn of writei adds to the log: the data block and once per transaction the
      indirect block, and of the bitmap blocks one for each new block. */
  ghost predicate Charges(d: Disk, size: int, rest: set<int>, bits: set<int>, isNew: bool, charges: bool) {
    && |rest| <= 1 + (if charges then 1 else 0)
    && |bits| <= (if isNew then 1 else 0) + (if charges then 1 else 0)
    && bits <= RangeSet(d.bmapstart, BitmapSize(size))
  }

  /** The count kept over the turns of writei: the turns, those with a new block, whether the
      indirect block is paid for, and the blocks logged, bitmap blocks apart. */
  datatype Tally = Tally(turns: int, news: int, charged: bool, rest: set<int>, bits: set<int>)
  {
    ghost function Turn(r: set<int>, s: set<int>, isNew: bool, charges: bool): (t: Tally) {
      Tally(turns + 1, news + (if isNew then 1 else 0), charged || charges, rest + r, bits + s)
    }

    function Extra(): (c: int) {
      if charged then 1 else 0
    }
  }

  /** After some turns, tot of the n bytes are written, in blocks that are touched once, and of
      these an unaligned first one is not new. */
  predicate Counted(off: int, n: int, tot: int, turns: int, news: int) {
    var o := off % BSIZE;
    && turns >= 0
    && (if turns == 0 then tot == 0 && news == 0
        else BSIZE * (turns - 1) - o < n && news <= if o == 0 then turns else turns - 1)
    && (turns > 0 && tot < n ==> tot == BSIZE * turns - o)
  }

  ghost predicate Tallied(d: Disk, size: int, off: int, n: int, tot: int, l0: set<int>, l: set<int>, tl: Tally) {
    && Counted(off, n, tot, tl.turns, tl.news)
    && l == l0 + tl.rest + tl.bits && tl.bits <= RangeSet(d.bmapstart, BitmapSize(size))
    && |tl.rest| <= tl.turns + tl.Extra() && |tl.bits| <= tl.news + tl.Extra()
  }

  lemma TallyZero(d: Disk, size: int, off: int, n: int, l: set<int>)
    ensures Tallied(d, size, off, n, 0, l, l, Tally(0, 0, false, {}, {}))
  {
  }

  lemma CountedNext(off: int, n: int, tot: int, t: int, news: int, isNew: bool)
    requires Counted(off, n, tot, t, news) && 0 <= tot < n && off >= 0
    requires tot == 0 && off % BSIZE != 0 ==> !isNew
    ensures Counted(off, n, tot + Min(n - tot, BSIZE - (off + tot) % BSIZE), t + 1, if isNew then news + 1 else news)
  {
    if t > 0 {
      assert off + tot == BSIZE * (off / BSIZE + t);
    }
  }

  lemma TallyNext(d: Disk, size: int, off: int, n: int, tot: int, l0: set<int>, l1: set<int>, l: set<int>, tl: Tally,
                  r: set<int>, s: set<int>, isNew: bool, charges: bool)
    requires Tallied(d, size, off, n, tot, l0, l1, tl) && 0 <= tot < n && off >= 0
    requires tot == 0 && off % BSIZE != 0 ==> !isNew
    requires l == l1 + r + s && Charges(d, size, r, s, isNew, charges) && (charges ==> !tl.charged)
    ensures Tallied(d, size, off, n, tot + Min(n - tot, BSIZE - (off + tot) % BSIZE), l0, l,
                    tl.Turn(r, s, isNew, charges))
  {
    CountedNext(off, n, tot, tl.turns, tl.news, isNew);
    hide Counted, RangeSet, BitmapSize;
    SumSize(tl.rest, r);
    SumSize(tl.bits, s);
  }

  /** At most 1536 bytes touch four blocks, at most three of them new. */
  lemma CountedBound(off: int, n: int, tot: int, t: int, news: int)
    requires Counted(off, n, tot, t, news)
    ensures n <= 1536 ==> t <= 4 && news <= 3
  {
  }

  lemma TallySize(d: Disk, size: int, off: int, n: int, tot: int, l0: set<int>, l: set<int>, tl: Tally)
    requires Tallied(d, size, off, n, tot, l0, l, tl) && size >= 0
    ensures n <= 1536 ==> |l| <= |l0| + 5 + Min(4, BitmapSize(size))
  {
    CountedBound(off, n, tot, tl.turns, tl.news);
    hide Counted;
    SumSize(l0, tl.rest);
    SumSize(l0 + tl.rest, tl.bits);
    SubsetSize(tl.bits, RangeSet(d.bmapstart, BitmapSize(size)));
    RangeSize(d.bmapstart, BitmapSize(size));
  }

  ghost function ChunkRest(bn: int, b: int, x: int, isNew: bool, charged: bool): (r: set<int>) {
    if isNew && bn >= NDIRECT && !charged then {b, x} else {b}
  }

  /** The blocks that bmap logs, apart from the data block that the write logs too, are the
      indirect block and bitmap blocks. */
  lemma ChunkLogs(d: Disk, size: int, l: set<int>, bn: int, b: int, x: int, isNew: bool, newIndirect: bool,
                  charged: bool)
    requires charged ==> x in l && !newIndirect
    requires newIndirect ==> isNew && bn >= NDIRECT
    requires 0 <= b < size && 0 <= x < size
    ensures var rest, bits := ChunkRest(bn, b, x, isNew, charged), d.ChunkBits(b, x, isNew, newIndirect);
            && l + d.BmapLogs(bn, b, x, isNew, newIndirect) + {b} == l + rest + bits
            && Charges(d, size, rest, bits, isNew, isNew && bn >= NDIRECT && !charged)
  {
    SameLogs(d, l, bn, b, x, isNew, newIndirect, charged);
    BitmapBlock(d, size, b);
    BitmapBlock(d, size, x);
    hide RangeSet, BitmapSize, Disk.BmapLogs;
    PairSize(b, x);
    PairSize(d.BBlock(b), d.BBlock(x));
    assert newIndirect ==> d.ChunkBits(b, x, isNew, newIndirect) == {d.BBlock(b), d.BBlock(x)};
  }

  lemma PairSize(a: int, b: int)
    ensures |{a}| == 1 && |{a, b}| <= 2
  {
  }

  lemma SameLogs(d: Disk, l: set<int>, bn: int, b: int, x: int, isNew: bool, newIndirect: bool, charged: bool)
    requires charged ==> x in l && !newIndirect
    requires newIndirect ==> isNew && bn >= NDIRECT
    ensures l + d.BmapLogs(bn, b, x, isNew, newIndirect) + {b}
         == l + ChunkRest(bn, b, x, isNew, charged) + d.ChunkBits(b, x, isNew, newIndirect)
  {
    hide Disk.BBlock;
    var p, q := d.BBlock(b), d.BBlock(x);
    var was := l + d.BmapLogs(bn, b, x, isNew, newIndirect) + {b};
    var now := l + ChunkRest(bn, b, x, isNew, charged) + d.ChunkBits(b, x, isNew, newIndirect);
    forall k
      ensures k in was <==> k in now
    {
    }
  }

  lemma Joined<T>(c: seq<T>, a: int, b: int, e: int)
    requires 0 <= a <= b <= e <= |c|
    ensures c[a..b] + c[b..e] == c[a..e]
  {
  }

  /** A byte of the file is in a mapped block. */
  lemma MappedAt(v: View, owner: Owners, nmeta: int, n: int, c: seq<int>, k: int)
    requires Owned(v, owner, nmeta) && FileHas(v, n, c) && 0 <= k < |c|
    ensures k / BSIZE < MAXFILE && Held(v, FileSlot(n, k / BSIZE)) != 0
    ensures var b := Held(v, FileSlot(n, k / BSIZE)); 0 < b < |v.data| && v.data[b][k % BSIZE] == c[k]
  {
    assert HasByte(v, n, c, k);
  }

  /** The part of a file within one block. */
  lemma BlockHolds(v: View, owner: Owners, nmeta: int, n: int, c: seq<int>, off: int, m: int)
    requires Owned(v, owner, nmeta) && FileHas(v, n, c)
    requires 0 <= off && 0 < m <= BSIZE - off % BSIZE && off + m <= |c|
    ensures off / BSIZE < MAXFILE
    ensures var b := Held(v, FileSlot(n, off / BSIZE));
            0 < b < |v.data| && v.data[b][off % BSIZE..off % BSIZE + m] == c[off..off + m]
  {
    MappedAt(v, owner, nmeta, n, c, off);
    var b := Held(v, FileSlot(n, off / BSIZE));
    var x, y := v.data[b][off % BSIZE..off % BSIZE + m], c[off..off + m];
    forall i | 0 <= i < m
      ensures x[i] == y[i]
    {
      ChunkByte(off, m, off + i);
      MappedAt(v, owner, nmeta, n, c, off + i);
    }
  }

  lemma ExtendsRefl(v: View)
    requires Shaped(v)
    ensures Extends(v, v)
  {
  }

  lemma OwnedShape(v: View, owner: Owners, nmeta: int)
    requires Owned(v, owner, nmeta)
    ensures Shaped(v) && 0 < nmeta <= |v.bitmap|
    ensures forall b :: 0 <= b < |v.bitmap| ==> (v.bitmap[b] <==> b in owner)
    ensures v.bitmap[0]
  {
  }

  lemma MayTake(v: View, owner: Owners, nmeta: int, s: Slot, b: int)
    requires Owned(v, owner, nmeta) && IsSlot(v, s) && Shaped(v) && Held(v, s) == 0
    requires 0 <= b < |v.bitmap| < UINT && !v.bitmap[b]
    requires s.Entry? ==> v.files[s.n].addrs[NDIRECT] != 0
    ensures MayAttach(v, owner, nmeta, s, b) && b !in owner && b > 0
  {
  }
}
