/**
 The on-disk structures of fs.c as values: which slot of which inode owns each block, and
 what bytes a file holds.
 */
module FsSpec {

  const BSIZE: int := 512
  const NDIRECT: int := 12
  const NINDIRECT: int := BSIZE / 4
  const MAXFILE: int := NDIRECT + NINDIRECT
  const BPB: int := BSIZE * 8

  type Byte = x: int | 0 <= x < 256
  type Block = b: seq<Byte> | |b| == BSIZE witness seq(BSIZE, _ => 0)

  function ZeroBlock(): (b: Block)
    ensures forall k :: 0 <= k < BSIZE ==> b[k] == 0
  {
    seq(BSIZE, _ => 0)
  }

  // ---- 32-bit little-endian words in a block ----

  function Word(b: Block, j: int): (w: int)
    requires 0 <= j < NINDIRECT
    ensures 0 <= w < 0x1_0000_0000
  {
    (b[4*j] as int) + 0x100 * (b[4*j+1] as int) + 0x1_0000 * (b[4*j+2] as int) + 0x100_0000 * (b[4*j+3] as int)
  }

  function SetWord(b: Block, j: int, w: int): (r: Block)
    requires 0 <= j < NINDIRECT && 0 <= w < 0x1_0000_0000
    ensures Word(r, j) == w
    ensures forall k :: 0 <= k < NINDIRECT && k != j ==> Word(r, k) == Word(b, k)
  {
    var r := b[4*j := w % 0x100][4*j+1 := w / 0x100 % 0x100][4*j+2 := w / 0x1_0000 % 0x100][4*j+3 := w / 0x100_0000];
    WordDigits(w);
    r
  }

  /** The lowest byte and the rest. */
  lemma LowByte(w: int)
    requires w >= 0
    ensures w == w % 0x100 + 0x100 * (w / 0x100) && 0 <= w / 0x100
  {
  }

  lemma Shifted(w: int)
    requires 0 <= w < 0x1_0000_0000
    ensures w / 0x100 / 0x100 == w / 0x1_0000 && w / 0x1_0000 / 0x100 == w / 0x100_0000 && w / 0x100_0000 < 0x100
  {
  }

  lemma WordDigits(w: int)
    requires 0 <= w < 0x1_0000_0000
    ensures w % 0x100 + 0x100 * (w / 0x100 % 0x100) + 0x1_0000 * (w / 0x1_0000 % 0x100)
            + 0x100_0000 * (w / 0x100_0000) == w
    ensures 0 <= w / 0x100_0000 < 0x100
  {
    LowByte(w);
    LowByte(w / 0x100);
    LowByte(w / 0x1_0000);
    Shifted(w);
  }

  lemma ZeroWords()
    ensures forall j :: 0 <= j < NINDIRECT ==> Word(ZeroBlock(), j) == 0
  {
  }

  // ---- files and the blocks they own ----

  /** An inode: its size in bytes, and NDIRECT block numbers and that of the indirect block. */
  datatype File = File(size: int, addrs: seq<int>)

  /** Free-map bits, block contents, and inodes. */
  datatype View = View(bitmap: seq<bool>, data: seq<Block>, files: seq<File>)

  /** A place that can hold a block number; Meta marks the blocks before the data area. */
  datatype Slot = Meta | Direct(n: int, i: int) | Indirect(n: int) | Entry(n: int, j: int)

  type Owners = map<int, Slot>

  predicate IsSlot(v: View, s: Slot) {
    match s
    case Meta => false
    case Direct(n, i) => 0 <= n < |v.files| && 0 <= i < NDIRECT
    case Indirect(n) => 0 <= n < |v.files|
    case Entry(n, j) => 0 <= n < |v.files| && 0 <= j < NINDIRECT
  }

  predicate Shaped(v: View) {
    |v.data| == |v.bitmap| && forall n :: 0 <= n < |v.files| ==> |v.files[n].addrs| == NDIRECT + 1
  }

  /** The block number in a slot; 0 when there is none. */
  function Held(v: View, s: Slot): (b: int)
    requires Shaped(v) && IsSlot(v, s)
  {
    match s
    case Direct(n, i) => v.files[n].addrs[i]
    case Indirect(n) => v.files[n].addrs[NDIRECT]
    case Entry(n, j) =>
      var x := v.files[n].addrs[NDIRECT];
      if 0 < x < |v.data| then Word(v.data[x], j) else 0
  }

  /** The slot's block is its own. */
  ghost predicate SlotOk(v: View, owner: Owners, s: Slot)
    requires Shaped(v) && IsSlot(v, s)
  {
    var b := Held(v, s);
    b == 0 || (b in owner && owner[b] == s)
  }

  /** Block b is in use for the metadata or for one slot. */
  ghost predicate BlockOk(v: View, owner: Owners, nmeta: int, b: int)
    requires Shaped(v) && b in owner
  {
    && 0 <= b < |v.bitmap|
    && (owner[b].Meta? <==> b < nmeta)
    && (!owner[b].Meta? ==> IsSlot(v, owner[b]) && Held(v, owner[b]) == b)
  }

  /** Free-map bits are set exactly for the metadata and for the blocks held by exactly one
      slot of exactly one inode. */
  ghost predicate Owned(v: View, owner: Owners, nmeta: int) {
    && Shaped(v) && 0 < nmeta <= |v.bitmap|
    && (forall b :: 0 <= b < |v.bitmap| ==> (v.bitmap[b] <==> b in owner))
    && (forall b :: 0 <= b < nmeta ==> v.bitmap[b])
    && (forall b :: b in owner ==> BlockOk(v, owner, nmeta, b))
    && (forall s :: IsSlot(v, s) ==> SlotOk(v, owner, s))
  }

  // ---- giving a slot a fresh block ----

  /** The block is marked in use and zeroed. */
  function Grabbed(v: View, b: int): (r: View)
    requires 0 <= b < |v.bitmap| && Shaped(v)
    ensures Shaped(r)
  {
    v.(bitmap := v.bitmap[b := true], data := v.data[b := ZeroBlock()])
  }

  function SetAddr(v: View, n: int, i: int, b: int): (r: View)
    requires Shaped(v) && 0 <= n < |v.files| && 0 <= i <= NDIRECT
    ensures Shaped(r)
  {
    v.(files := v.files[n := v.files[n].(addrs := v.files[n].addrs[i := b])])
  }

  /** The slot holds block number b. */
  function SetSlot(v: View, s: Slot, b: int): (r: View)
    requires Shaped(v) && IsSlot(v, s) && 0 <= b < 0x1_0000_0000
    requires s.Entry? ==> 0 <= v.files[s.n].addrs[NDIRECT] < |v.data|
    ensures Shaped(r)
  {
    match s
    case Direct(n, i) => SetAddr(v, n, i, b)
    case Indirect(n) => SetAddr(v, n, NDIRECT, b)
    case Entry(n, j) =>
      var x := v.files[n].addrs[NDIRECT];
      v.(data := v.data[x := SetWord(v.data[x], j, b)])
  }

  /** balloc for an empty slot. */
  function Attached(v: View, s: Slot, b: int): (r: View)
    requires Shaped(v) && IsSlot(v, s) && 0 <= b < |v.bitmap| < 0x1_0000_0000
    requires s.Entry? ==> 0 <= v.files[s.n].addrs[NDIRECT] < |v.data|
    ensures Shaped(r)
  {
    SetSlot(Grabbed(v, b), s, b)
  }

  /** Slot s may take block b: it is empty, b is free, and an entry's indirect block exists. */
  ghost predicate MayAttach(v: View, owner: Owners, nmeta: int, s: Slot, b: int) {
    && Owned(v, owner, nmeta) && IsSlot(v, s) && Held(v, s) == 0
    && 0 <= b < |v.bitmap| < 0x1_0000_0000 && !v.bitmap[b]
    && (s.Entry? ==> v.files[s.n].addrs[NDIRECT] != 0)
  }

  /** A non-empty indirect pointer is a data block of this file. */
  lemma IndirectInRange(v: View, owner: Owners, nmeta: int, n: int)
    requires Owned(v, owner, nmeta) && 0 <= n < |v.files|
    ensures var x := v.files[n].addrs[NDIRECT];
            x == 0 || (nmeta <= x < |v.data| && v.bitmap[x] && x in owner && owner[x] == Indirect(n))
  {
    var x := v.files[n].addrs[NDIRECT];
    assert SlotOk(v, owner, Indirect(n)) && (x in owner ==> BlockOk(v, owner, nmeta, x));
  }

  /** Attaching a block to one slot changes what no other slot holds. */
  lemma AttachHeld(v: View, owner: Owners, nmeta: int, s: Slot, b: int, t: Slot)
    requires MayAttach(v, owner, nmeta, s, b) && IsSlot(v, t)
    ensures s.Entry? ==> 0 <= v.files[s.n].addrs[NDIRECT] < |v.data|
    ensures IsSlot(Attached(v, s, b), t)
    ensures Held(Attached(v, s, b), t) == if t == s then b else Held(v, t)
  {
    var x := if s.Meta? then 0 else v.files[s.n].addrs[NDIRECT];
    IndirectInRange(v, owner, nmeta, s.n);
    if t.Entry? {
      IndirectInRange(v, owner, nmeta, t.n);
      ZeroWords();
    }
  }

  lemma AttachOk(v: View, owner: Owners, nmeta: int, s: Slot, b: int)
    requires MayAttach(v, owner, nmeta, s, b)
    ensures s.Entry? ==> 0 <= v.files[s.n].addrs[NDIRECT] < |v.data|
    ensures Owned(Attached(v, s, b), owner[b := s], nmeta)
  {
    AttachHeld(v, owner, nmeta, s, b, s);
    var r, o := Attached(v, s, b), owner[b := s];
    assert b !in owner && (0 in owner ==> BlockOk(v, owner, nmeta, 0));
    forall t | IsSlot(r, t)
      ensures SlotOk(r, o, t)
    {
      AttachHeld(v, owner, nmeta, s, b, t);
      assert SlotOk(v, owner, t);
    }
    forall c | c in o
      ensures BlockOk(r, o, nmeta, c)
    {
      assert c != b ==> BlockOk(v, owner, nmeta, c);
      if c != b && !owner[c].Meta? {
        AttachHeld(v, owner, nmeta, s, b, owner[c]);
      }
    }
  }

  // ---- taking every block of an inode back ----

  /** The inode a slot belongs to. */
  predicate SlotOf(s: Slot, n: int) {
    !s.Meta? && s.n == n
  }

  function NoBlocks(): (a: seq<int>)
    ensures |a| == NDIRECT + 1 && forall i :: 0 <= i <= NDIRECT ==> a[i] == 0
  {
    seq(NDIRECT + 1, _ => 0)
  }

  /** Inode n truncated: its blocks are free, its slots empty, its size 0; contents stay. */
  function Truncated(v: View, owner: Owners, n: int): (r: View)
    requires Shaped(v) && 0 <= n < |v.files|
    ensures Shaped(r)
  {
    View(seq(|v.bitmap|, b requires 0 <= b < |v.bitmap| => v.bitmap[b] && !(b in owner && SlotOf(owner[b], n))),
         v.data, v.files[n := File(0, NoBlocks())])
  }

  function Without(owner: Owners, n: int): (o: Owners)
    ensures forall b :: b in o <==> b in owner && !SlotOf(owner[b], n)
    ensures forall b :: b in o ==> o[b] == owner[b]
  {
    map b | b in owner && !SlotOf(owner[b], n) :: owner[b]
  }

  lemma TruncHeld(v: View, owner: Owners, n: int, s: Slot)
    requires Shaped(v) && 0 <= n < |v.files| && IsSlot(v, s)
    ensures Held(Truncated(v, owner, n), s) == if SlotOf(s, n) then 0 else Held(v, s)
  {
  }

  lemma TruncOk(v: View, owner: Owners, nmeta: int, n: int)
    requires Owned(v, owner, nmeta) && 0 <= n < |v.files|
    ensures Owned(Truncated(v, owner, n), Without(owner, n), nmeta)
  {
    var r, o := Truncated(v, owner, n), Without(owner, n);
    forall b | 0 <= b < nmeta
      ensures r.bitmap[b]
    {
      assert b in owner && BlockOk(v, owner, nmeta, b);
    }
    forall s | IsSlot(r, s)
      ensures SlotOk(r, o, s)
    {
      assert SlotOk(v, owner, s);
      TruncHeld(v, owner, n, s);
    }
    forall b | b in o
      ensures BlockOk(r, o, nmeta, b)
    {
      assert BlockOk(v, owner, nmeta, b);
      if !owner[b].Meta? { TruncHeld(v, owner, n, owner[b]); }
    }
  }

  /** The free map once the blocks of the slots in `done` are freed. */
  ghost predicate Cleared(v: View, owner: Owners, done: set<Slot>, bits: seq<bool>) {
    && |bits| == |v.bitmap|
    && forall b :: 0 <= b < |bits| ==> (bits[b] <==> v.bitmap[b] && !(b in owner && owner[b] in done))
  }

  /** Freeing the block of one more slot: its bit is still set. */
  lemma ClearOne(v: View, owner: Owners, nmeta: int, done: set<Slot>, bits: seq<bool>, s: Slot)
    requires Owned(v, owner, nmeta) && Cleared(v, owner, done, bits) && IsSlot(v, s) && s !in done
    ensures Held(v, s) == 0 ==> Cleared(v, owner, done + {s}, bits)
    ensures Held(v, s) != 0 ==>
              0 <= Held(v, s) < |bits| && bits[Held(v, s)] && Cleared(v, owner, done + {s}, bits[Held(v, s) := false])
  {
    var h := Held(v, s);
    if h != 0 { HeldInRange(v, owner, nmeta, s); }
    forall b | 0 <= b < |bits| && b in owner && owner[b] == s
      ensures b == h
    {
      assert BlockOk(v, owner, nmeta, b);
    }
    assert 0 in owner && BlockOk(v, owner, nmeta, 0);
  }

  /** When every slot of inode n that holds a block is done, the free map is that of the
      truncated inode. */
  lemma ClearAll(v: View, owner: Owners, nmeta: int, n: int, done: set<Slot>, bits: seq<bool>)
    requires Owned(v, owner, nmeta) && 0 <= n < |v.files| && Cleared(v, owner, done, bits)
    requires forall s :: s in done ==> SlotOf(s, n)
    requires forall s :: IsSlot(v, s) && SlotOf(s, n) && s !in done ==> Held(v, s) == 0
    ensures bits == Truncated(v, owner, n).bitmap
  {
    var t := Truncated(v, owner, n).bitmap;
    forall b | 0 <= b < |bits|
      ensures bits[b] == t[b]
    {
      if b in owner { assert BlockOk(v, owner, nmeta, b) && BlockOk(v, owner, nmeta, 0); }
    }
  }

  // ---- what a file holds ----

  /** The slot of the bn-th block of inode n. */
  function FileSlot(n: int, bn: int): (s: Slot) {
    if bn < NDIRECT then Direct(n, bn) else Entry(n, bn - NDIRECT)
  }

  /** Every block below the file's size is there. */
  ghost predicate Mapped(v: View, n: int)
    requires Shaped(v) && 0 <= n < |v.files|
  {
    && 0 <= v.files[n].size <= MAXFILE * BSIZE
    && forall bn :: 0 <= bn < MAXFILE && bn * BSIZE < v.files[n].size ==> Held(v, FileSlot(n, bn)) != 0
  }

  /** Byte k of the file. */
  function FileByte(v: View, n: int, k: int): (x: int)
    requires Shaped(v) && 0 <= n < |v.files| && 0 <= k < MAXFILE * BSIZE
  {
    var b := Held(v, FileSlot(n, k / BSIZE));
    if 0 <= b < |v.data| then v.data[b][k % BSIZE] else 0
  }

  /** The file as a flat sequence of bytes. */
  function Contents(v: View, n: int): (c: seq<int>)
    requires Shaped(v) && 0 <= n < |v.files| && 0 <= v.files[n].size <= MAXFILE * BSIZE
    ensures |c| == v.files[n].size
  {
    seq(v.files[n].size, k requires 0 <= k < v.files[n].size => FileByte(v, n, k))
  }

  /** A block held by a file's slot is a data block, and no other slot's. */
  lemma HeldInRange(v: View, owner: Owners, nmeta: int, s: Slot)
    requires Owned(v, owner, nmeta) && IsSlot(v, s) && Held(v, s) != 0
    ensures nmeta <= Held(v, s) < |v.data| && v.bitmap[Held(v, s)] && Held(v, s) in owner && owner[Held(v, s)] == s
  {
    assert SlotOk(v, owner, s) && (Held(v, s) in owner ==> BlockOk(v, owner, nmeta, Held(v, s)));
  }

  /** New contents for a block that holds file data. */
  function Stored(v: View, c: int, x: Block): (r: View)
    requires Shaped(v) && 0 <= c < |v.data|
    ensures Shaped(r)
  {
    v.(data := v.data[c := x])
  }

  /** Storing file data changes what no slot holds. */
  lemma StoreHeld(v: View, owner: Owners, nmeta: int, s: Slot, x: Block, t: Slot)
    requires Owned(v, owner, nmeta) && IsSlot(v, s) && !s.Indirect? && Held(v, s) != 0 && IsSlot(v, t)
    ensures 0 <= Held(v, s) < |v.data|
    ensures Held(Stored(v, Held(v, s), x), t) == Held(v, t)
  {
    HeldInRange(v, owner, nmeta, s);
    if t.Entry? { IndirectInRange(v, owner, nmeta, t.n); }
  }

  lemma StoreOk(v: View, owner: Owners, nmeta: int, s: Slot, x: Block)
    requires Owned(v, owner, nmeta) && IsSlot(v, s) && !s.Indirect? && Held(v, s) != 0
    ensures 0 <= Held(v, s) < |v.data|
    ensures Owned(Stored(v, Held(v, s), x), owner, nmeta)
  {
    HeldInRange(v, owner, nmeta, s);
    var r := Stored(v, Held(v, s), x);
    forall t | IsSlot(r, t)
      ensures SlotOk(r, owner, t)
    {
      assert SlotOk(v, owner, t);
      StoreHeld(v, owner, nmeta, s, x, t);
    }
    forall b | b in owner
      ensures BlockOk(r, owner, nmeta, b)
    {
      assert BlockOk(v, owner, nmeta, b);
      if !owner[b].Meta? { StoreHeld(v, owner, nmeta, s, x, owner[b]); }
    }
  }

  // ---- growing and splicing files ----

  predicate InFile(v: View, n: int, bn: int) {
    0 <= n < |v.files| && 0 <= bn < MAXFILE
  }

  /** The bn-th block of file n, when there is one, is the same block with the same bytes. */
  ghost predicate KeepsBlock(v: View, w: View, n: int, bn: int)
    requires Shaped(v) && Shaped(w) && |w.files| == |v.files| && InFile(v, n, bn)
  {
    var b := Held(v, FileSlot(n, bn));
    0 < b < |v.data| ==> Held(w, FileSlot(n, bn)) == b && b < |w.data| && w.data[b] == v.data[b]
  }

  /** w has every file block of v, and the same sizes. */
  ghost predicate Extends(v: View, w: View) {
    && Shaped(v) && Shaped(w) && |w.files| == |v.files| && |w.data| == |v.data|
    && (forall n :: 0 <= n < |v.files| ==> w.files[n].size == v.files[n].size)
    && (forall n, bn :: InFile(v, n, bn) ==> KeepsBlock(v, w, n, bn))
  }

  lemma AttachExtends(v: View, owner: Owners, nmeta: int, s: Slot, b: int)
    requires MayAttach(v, owner, nmeta, s, b)
    ensures s.Entry? ==> 0 <= v.files[s.n].addrs[NDIRECT] < |v.data|
    ensures Extends(v, Attached(v, s, b))
  {
    AttachHeld(v, owner, nmeta, s, b, s);
    var w := Attached(v, s, b);
    if s.Entry? { IndirectInRange(v, owner, nmeta, s.n); }
    forall n, bn | InFile(v, n, bn)
      ensures KeepsBlock(v, w, n, bn)
    {
      var t := FileSlot(n, bn);
      AttachHeld(v, owner, nmeta, s, b, t);
      if Held(v, t) != 0 { HeldInRange(v, owner, nmeta, t); }
    }
  }

  lemma ExtendsTrans(u: View, v: View, w: View)
    requires Extends(u, v) && Extends(v, w)
    ensures Extends(u, w)
  {
    forall n, bn | InFile(u, n, bn)
      ensures KeepsBlock(u, w, n, bn)
    {
      assert KeepsBlock(u, v, n, bn) && InFile(v, n, bn);
      assert KeepsBlock(v, w, n, bn);
    }
  }

  /** The k-th byte of c is stored where file n says. */
  ghost predicate HasByte(v: View, n: int, c: seq<int>, k: int)
    requires Shaped(v) && 0 <= n < |v.files| && 0 <= k < |c|
  {
    && k < MAXFILE * BSIZE
    && var b := Held(v, FileSlot(n, k / BSIZE));
    0 < b < |v.data| && v.data[b][k % BSIZE] == c[k]
  }

  /** File n has blocks for all of c, and they hold c. */
  ghost predicate FileHas(v: View, n: int, c: seq<int>) {
    Shaped(v) && 0 <= n < |v.files| && forall k :: 0 <= k < |c| ==> HasByte(v, n, c, k)
  }

  /** c with s written at off. */
  function Spliced(c: seq<int>, off: int, s: seq<int>): (r: seq<int>)
    requires 0 <= off <= |c|
    ensures |r| == if off + |s| > |c| then off + |s| else |c|
    ensures forall k :: 0 <= k < |r| ==> r[k] == if off <= k < off + |s| then s[k - off] else c[k]
  {
    c[..off] + s + (if off + |s| < |c| then c[off + |s|..] else [])
  }

  /** Splicing in two steps. */
  lemma SpliceTwice(c: seq<int>, off: int, s: seq<int>, t: seq<int>)
    requires 0 <= off <= |c|
    ensures Spliced(Spliced(c, off, s), off + |s|, t) == Spliced(c, off, s + t)
  {
  }

  /** The block after memmove of s to position o. */
  function Patched(x: Block, o: int, s: seq<Byte>): (r: Block)
    requires 0 <= o && o + |s| <= BSIZE
    ensures forall k :: 0 <= k < BSIZE ==> r[k] == if o <= k < o + |s| then s[k - o] else x[k]
  {
    x[..o] + s + x[o + |s|..]
  }

  lemma ExtendsHas(v: View, w: View, n: int, c: seq<int>)
    requires Extends(v, w) && FileHas(v, n, c)
    ensures FileHas(w, n, c)
  {
    forall k | 0 <= k < |c|
      ensures HasByte(w, n, c, k)
    {
      assert HasByte(v, n, c, k) && InFile(v, n, k / BSIZE) && KeepsBlock(v, w, n, k / BSIZE);
    }
  }

  /** One turn of writei: the bytes s at off, within one block, go into the file. */
  lemma WriteChunk(v: View, owner: Owners, nmeta: int, n: int, c: seq<int>, off: int, s: seq<Byte>)
    requires Owned(v, owner, nmeta) && FileHas(v, n, c) && 0 <= off <= |c|
    requires 0 < |s| <= BSIZE - off % BSIZE && off / BSIZE < MAXFILE
    requires Held(v, FileSlot(n, off / BSIZE)) != 0
    ensures 0 < Held(v, FileSlot(n, off / BSIZE)) < |v.data|
    ensures var b := Held(v, FileSlot(n, off / BSIZE));
            FileHas(Stored(v, b, Patched(v.data[b], off % BSIZE, s)), n, Spliced(c, off, s))
  {
    var t := FileSlot(n, off / BSIZE);
    HeldInRange(v, owner, nmeta, t);
    var b := Held(v, t);
    var w, d := Stored(v, b, Patched(v.data[b], off % BSIZE, s)), Spliced(c, off, s);
    forall k | 0 <= k < |d|
      ensures HasByte(w, n, d, k)
    {
      ChunkByte(off, |s|, k);
      var u := FileSlot(n, k / BSIZE);
      if k < |c| { assert HasByte(v, n, c, k); }
      StoreHeld(v, owner, nmeta, t, Patched(v.data[b], off % BSIZE, s), u);
      assert k / BSIZE != off / BSIZE ==> u != t;
      if Held(v, u) != 0 { HeldInRange(v, owner, nmeta, u); }
    }
  }

  /** The bytes of a chunk lie in one block. */
  lemma ChunkByte(off: int, m: int, k: int)
    requires off >= 0 && 0 < m <= BSIZE - off % BSIZE && k >= 0
    ensures off <= k < off + m <==> k / BSIZE == off / BSIZE && off % BSIZE <= k % BSIZE < off % BSIZE + m
    ensures off <= k < off + m ==> k % BSIZE - off % BSIZE == k - off
  {
  }

  /** Other files keep their bytes. */
  lemma WriteOthers(v: View, owner: Owners, nmeta: int, n: int, bn: int, x: Block, m: int, c: seq<int>)
    requires Owned(v, owner, nmeta) && 0 <= n < |v.files| && 0 <= bn < MAXFILE && Held(v, FileSlot(n, bn)) != 0
    requires FileHas(v, m, c) && m != n
    ensures 0 < Held(v, FileSlot(n, bn)) < |v.data|
    ensures FileHas(Stored(v, Held(v, FileSlot(n, bn)), x), m, c)
  {
    var t := FileSlot(n, bn);
    HeldInRange(v, owner, nmeta, t);
    var w := Stored(v, Held(v, t), x);
    forall k | 0 <= k < |c|
      ensures HasByte(w, m, c, k)
    {
      assert HasByte(v, m, c, k);
      var u := FileSlot(m, k / BSIZE);
      StoreHeld(v, owner, nmeta, t, x, u);
      HeldInRange(v, owner, nmeta, u);
    }
  }
}
