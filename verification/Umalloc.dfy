/**
 The user-level allocator of umalloc.c: malloc and free over the circular free list.

 sbrk is outside the program: `grant` is the address it would return if asked.
 */
module Umalloc {
  import opened FreeList
  import opened Common

  /** The i-th list element is a block, of the size its header says, and not handed out. */
  ghost predicate FreeAt(mem: Memory, ring: seq<nat>, alloc: map<nat, nat>, blocks: map<nat, nat>, i: nat)
    requires i < |ring|
  {
    var b := ring[i];
    b in mem && b in blocks && b !in alloc && mem[b].size == blocks[b]
  }

  /** a is handed out and its header still says how large it is. */
  ghost predicate TakenAt(mem: Memory, alloc: map<nat, nat>, blocks: map<nat, nat>, a: nat)
  {
    a in mem && a in blocks && a in alloc && mem[a].size == blocks[a] == alloc[a]
  }

  ghost predicate Placed(base: nat, ring: seq<nat>, alloc: map<nat, nat>, blocks: map<nat, nat>, top: nat, b: nat) {
    b in blocks && base < b && b + blocks[b] <= top && (b in alloc || b in ring)
  }

  /** Every block is on the list or handed out, and headers agree with the tiling. */
  ghost predicate Agree(mem: Memory, base: nat, ring: seq<nat>, alloc: map<nat, nat>, blocks: map<nat, nat>, top: nat) {
    && (forall i :: 1 <= i < |ring| ==> FreeAt(mem, ring, alloc, blocks, i))
    && (forall a :: a in alloc ==> TakenAt(mem, alloc, blocks, a))
    && (forall b :: b in blocks ==> Placed(base, ring, alloc, blocks, top, b))
  }

  /** Putting an allocated block on the list. */
  lemma InsertAgrees(mem: Memory, base: nat, ring: seq<nat>, alloc: map<nat, nat>, blocks: map<nat, nat>, top: nat,
                     k: nat, b: nat)
    requires IsRing(mem, base, ring) && Fits(mem, ring, k, b)
    requires Agree(mem, base, ring, alloc, blocks, top) && b in alloc
    ensures Agree(Linked(mem, ring[k], b), base, Inserted(ring, k, b), alloc - {b}, blocks, top)
  {
    var m, r, l := Linked(mem, ring[k], b), Inserted(ring, k, b), alloc - {b};
    InsertAscends(ring, k, b);
    assert TakenAt(mem, alloc, blocks, b);
    forall i | 1 <= i < |r|
      ensures FreeAt(m, r, l, blocks, i)
    {
      assert i <= k ==> FreeAt(mem, ring, alloc, blocks, i);
      assert i > k + 1 ==> FreeAt(mem, ring, alloc, blocks, i - 1);
    }
    forall a | a in l
      ensures TakenAt(m, l, blocks, a)
    {
      assert TakenAt(mem, alloc, blocks, a);
    }
    forall c | c in blocks
      ensures Placed(base, r, l, blocks, top, c)
    {
      assert Placed(base, ring, alloc, blocks, top, c);
      assert c in ring ==> c in r;
    }
  }

  lemma JoinPlaced(base: nat, ring: seq<nat>, alloc: map<nat, nat>, blocks: map<nat, nat>, top: nat, k: nat, c: nat)
    requires k < |ring| - 1 && ring[k] in blocks && ring[k+1] in blocks && ring[k] + blocks[ring[k]] == ring[k+1]
    requires Ascending(ring) && Placed(base, ring, alloc, blocks, top, ring[k])
    requires Placed(base, ring, alloc, blocks, top, ring[k+1])
    requires Placed(base, ring, alloc, blocks, top, c) && c != ring[k+1]
    ensures Placed(base, Dropped(ring, k + 1), alloc, Joined(blocks, ring[k], ring[k+1]), top, c)
  {
    DroppedKeeps(ring, k + 1, c);
  }

  lemma JoinFreeAt(mem: Memory, base: nat, ring: seq<nat>, alloc: map<nat, nat>, blocks: map<nat, nat>, k: nat, i: nat)
    requires IsRing(mem, base, ring) && 1 <= k < |ring| - 1 && 1 <= i < |ring| - 1
    requires FreeAt(mem, ring, alloc, blocks, k) && FreeAt(mem, ring, alloc, blocks, k + 1)
    requires FreeAt(mem, ring, alloc, blocks, if i <= k then i else i + 1)
    ensures mem[ring[k]].ptr == ring[k+1]
    ensures FreeAt(Absorbed(mem, ring[k]), Dropped(ring, k + 1), alloc, Joined(blocks, ring[k], ring[k+1]), i)
  {
    assert LinkedAt(mem, ring, k);
    DropAscends(ring, k + 1);
  }

  /** Joining the (k+1)-th block to the k-th. */
  lemma JoinAgrees(mem: Memory, base: nat, ring: seq<nat>, alloc: map<nat, nat>, blocks: map<nat, nat>, top: nat,
                   k: nat)
    requires IsRing(mem, base, ring) && Agree(mem, base, ring, alloc, blocks, top)
    requires 1 <= k < |ring| - 1 && ring[k] in mem && End(mem, ring[k]) == ring[k+1]
    ensures ring[k] in blocks && ring[k+1] in blocks && ring[k] + blocks[ring[k]] == ring[k+1]
    ensures mem[ring[k]].ptr in mem
    ensures Agree(Absorbed(mem, ring[k]), base, Dropped(ring, k + 1), alloc, Joined(blocks, ring[k], ring[k+1]), top)
  {
    assert FreeAt(mem, ring, alloc, blocks, k) && FreeAt(mem, ring, alloc, blocks, k + 1);
    JoinFreeAt(mem, base, ring, alloc, blocks, k, k);
    var m, r := Absorbed(mem, ring[k]), Dropped(ring, k + 1);
    var bs := Joined(blocks, ring[k], ring[k+1]);
    forall i | 1 <= i < |r|
      ensures FreeAt(m, r, alloc, bs, i)
    {
      JoinFreeAt(mem, base, ring, alloc, blocks, k, i);
    }
    forall a | a in alloc
      ensures TakenAt(m, alloc, bs, a)
    {
      assert TakenAt(mem, alloc, blocks, a);
    }
    forall c | c in bs
      ensures Placed(base, r, alloc, bs, top, c)
    {
      JoinPlaced(base, ring, alloc, blocks, top, k, c);
    }
  }

  lemma DroppedKeeps(ring: seq<nat>, k: nat, c: nat)
    requires k < |ring|
    ensures c in ring ==> c == ring[k] || c in Dropped(ring, k)
  {
    assert ring == ring[..k] + [ring[k]] + ring[k+1..];
  }

  /** Handing out the whole k-th block. */
  lemma RemoveAgrees(mem: Memory, base: nat, ring: seq<nat>, alloc: map<nat, nat>, blocks: map<nat, nat>, top: nat,
                     k: nat)
    requires IsRing(mem, base, ring) && Agree(mem, base, ring, alloc, blocks, top)
    requires 1 <= k < |ring| && ring[k-1] in mem && ring[k] in mem
    ensures Agree(mem[ring[k-1] := mem[ring[k-1]].(ptr := mem[ring[k]].ptr)], base, Dropped(ring, k),
                  alloc[ring[k] := mem[ring[k]].size], blocks, top)
  {
    var m, r := mem[ring[k-1] := mem[ring[k-1]].(ptr := mem[ring[k]].ptr)], Dropped(ring, k);
    var l := alloc[ring[k] := mem[ring[k]].size];
    assert FreeAt(mem, ring, alloc, blocks, k);
    DropAscends(ring, k);
    forall i | 1 <= i < |r|
      ensures FreeAt(m, r, l, blocks, i)
    {
      assert FreeAt(mem, ring, alloc, blocks, if i < k then i else i + 1);
    }
    forall a | a in l
      ensures TakenAt(m, l, blocks, a)
    {
      assert a in alloc ==> TakenAt(mem, alloc, blocks, a);
    }
    forall c | c in blocks
      ensures Placed(base, r, l, blocks, top, c)
    {
      assert Placed(base, ring, alloc, blocks, top, c);
      DroppedKeeps(ring, k, c);
    }
  }

  /** Handing out the last n units of the k-th block. */
  lemma SplitAgrees(mem: Memory, base: nat, ring: seq<nat>, alloc: map<nat, nat>, blocks: map<nat, nat>, top: nat,
                    k: nat, n: nat, h: Header)
    requires IsRing(mem, base, ring) && Agree(mem, base, ring, alloc, blocks, top)
    requires 1 <= k < |ring| && ring[k] in mem && 0 < n < mem[ring[k]].size && h.size == n
    requires End(mem, ring[k]) - n !in blocks && End(mem, ring[k]) - n !in ring
    ensures ring[k] in blocks && blocks[ring[k]] == mem[ring[k]].size
    ensures var b := End(mem, ring[k]) - n;
            Agree(Shrunk(mem, ring[k], n, h), base, ring, alloc[b := n], CutBlocks(blocks, ring[k], n), top)
  {
    assert FreeAt(mem, ring, alloc, blocks, k);
    var b := End(mem, ring[k]) - n;
    var m := Shrunk(mem, ring[k], n, h);
    var l, bs := alloc[b := n], CutBlocks(blocks, ring[k], n);
    forall i | 1 <= i < |ring|
      ensures FreeAt(m, ring, l, bs, i)
    {
      assert FreeAt(mem, ring, alloc, blocks, i);
    }
    forall a | a in l
      ensures TakenAt(m, l, bs, a)
    {
      assert a in alloc ==> TakenAt(mem, alloc, blocks, a);
    }
    forall c | c in bs
      ensures Placed(base, ring, l, bs, top, c)
    {
      assert c in blocks ==> Placed(base, ring, alloc, blocks, top, c);
      assert Placed(base, ring, alloc, blocks, top, ring[k]);
    }
  }

  /** New memory above everything, as an allocated block. */
  lemma GrowAgrees(mem: Memory, base: nat, ring: seq<nat>, alloc: map<nat, nat>, blocks: map<nat, nat>, top: nat,
                   b: nat, n: nat, h: Header)
    requires IsRing(mem, base, ring) && Agree(mem, base, ring, alloc, blocks, top)
    requires base < b && top <= b && n > 0 && h.size == n
    ensures b !in ring
    ensures forall c :: c in blocks ==> c + blocks[c] <= b
    ensures Agree(mem[b := h], base, ring, alloc[b := n], blocks[b := n], b + n)
  {
    forall c | c in blocks
      ensures c + blocks[c] <= b
    {
      assert Placed(base, ring, alloc, blocks, top, c);
    }
    forall i | 0 <= i < |ring|
      ensures ring[i] < b
    {
      assert i > 0 ==> FreeAt(mem, ring, alloc, blocks, i) && LinkedAt(mem, ring, i);
    }
    var m, l, bs := mem[b := h], alloc[b := n], blocks[b := n];
    forall i | 1 <= i < |ring|
      ensures FreeAt(m, ring, l, bs, i)
    {
      assert FreeAt(mem, ring, alloc, blocks, i);
    }
    forall a | a in l
      ensures TakenAt(m, l, bs, a)
    {
      assert a in alloc ==> TakenAt(mem, alloc, blocks, a);
      assert a in alloc && a == b ==> Placed(base, ring, alloc, blocks, top, b);
    }
    forall c | c in bs
      ensures Placed(base, ring, l, bs, b + n, c)
    {
      assert c in blocks ==> Placed(base, ring, alloc, blocks, top, c);
    }
  }

  /** A block about to be freed fits in the gap its address names. */
  lemma GapFits(mem: Memory, base: nat, ring: seq<nat>, alloc: map<nat, nat>, blocks: map<nat, nat>, owner: map<nat,
                nat>,
                top: nat, k: nat, b: nat)
    requires IsRing(mem, base, ring) && Agree(mem, base, ring, alloc, blocks, top) && Tiling(blocks, owner)
    requires b in alloc && k < |ring| && ring[k] < b && (k + 1 < |ring| ==> b < ring[k+1])
    ensures Fits(mem, ring, k, b)
  {
    assert TakenAt(mem, alloc, blocks, b) && LinkedAt(mem, ring, k);
    if k > 0 {
      assert FreeAt(mem, ring, alloc, blocks, k);
      Disjoint(blocks, owner, ring[k], b);
    }
    if k + 1 < |ring| {
      assert FreeAt(mem, ring, alloc, blocks, k + 1);
      Disjoint(blocks, owner, b, ring[k+1]);
    }
  }

  /** The heap but for blocks that touch. */
  ghost predicate Heapish(mem: Memory, base: nat, ring: seq<nat>, alloc: map<nat, nat>,
                          blocks: map<nat, nat>, owner: map<nat, nat>, top: nat)
  {
    IsRing(mem, base, ring) && Tiling(blocks, owner) && Agree(mem, base, ring, alloc, blocks, top)
  }

  lemma JoinHeap(mem: Memory, base: nat, ring: seq<nat>, alloc: map<nat, nat>, blocks: map<nat, nat>, owner: map<nat,
                 nat>,
                 top: nat, k: nat)
    returns (bs: map<nat, nat>, o: map<nat, nat>)
    requires Heapish(mem, base, ring, alloc, blocks, owner, top)
    requires 1 <= k < |ring| - 1 && ring[k] in mem && End(mem, ring[k]) == ring[k+1]
    ensures mem[ring[k]].ptr == ring[k+1] && ring[k+1] in mem && o.Keys == owner.Keys
    ensures Heapish(Absorbed(mem, ring[k]), base, Dropped(ring, k + 1), alloc, bs, o, top)
  {
    AbsorbOk(mem, base, ring, k);
    JoinAgrees(mem, base, ring, alloc, blocks, top, k);
    JoinTiles(blocks, owner, ring[k], ring[k+1]);
    bs, o := Joined(blocks, ring[k], ring[k+1]), Reowned(owner, ring[k+1], ring[k]);
  }

  /** What free() makes of the heap. */
  lemma FreedHeap(mem: Memory, base: nat, ring: seq<nat>, alloc: map<nat, nat>, blocks: map<nat, nat>,
                  owner: map<nat, nat>,
                  top: nat, k: nat, b: nat)
    returns (bs: map<nat, nat>, o: map<nat, nat>)
    requires Heapish(mem, base, ring, alloc, blocks, owner, top)
    requires b in alloc && Fits(mem, ring, k, b)
    ensures k + 1 < |ring| ==> ring[k+1] in mem
    ensures Heapish(Freed(mem, ring, k, b).0, base, Freed(mem, ring, k, b).1, alloc - {b}, bs, o, top)
    ensures o.Keys == owner.Keys
  {
    assert k + 1 < |ring| ==> LinkedAt(mem, ring, k + 1);
    InsertOk(mem, base, ring, k, b);
    InsertAgrees(mem, base, ring, alloc, blocks, top, k, b);
    InsertAscends(ring, k, b);
    var m1, r1 := Linked(mem, ring[k], b), Inserted(ring, k, b);
    assert Heapish(m1, base, r1, alloc - {b}, blocks, owner, top);
    hide IsRing, Tiling, Agree, Inserted, LinkedAt;
    bs, o := blocks, owner;
    var m2, r2 := m1, r1;
    if k + 1 < |ring| && End(mem, b) == ring[k+1] {
      bs, o := JoinHeap(m1, base, r1, alloc - {b}, blocks, owner, top, k + 1);
      m2, r2 := Absorbed(m1, b), Dropped(r1, k + 2);
    }
    if End(mem, ring[k]) == b {
      assert k > 0 by { BaseEmpty(mem, base, ring); }
      bs, o := JoinHeap(m2, base, r2, alloc - {b}, bs, o, top, k);
    }
  }

  lemma BaseEmpty(mem: Memory, base: nat, ring: seq<nat>)
    requires IsRing(mem, base, ring)
    ensures ring[0] in mem && mem[ring[0]].size == 0
  {
    assert LinkedAt(mem, ring, 0);
  }

  /** Block i of the list contains [b, b + n). */
  ghost predicate Holds(mem: Memory, ring: seq<nat>, i: nat, b: nat, n: nat) {
    1 <= i < |ring| && ring[i] in mem && ring[i] <= b && b + n <= End(mem, ring[i])
  }

  ghost predicate HasFree(mem: Memory, ring: seq<nat>, b: nat, n: nat) {
    exists i :: Holds(mem, ring, i, b, n)
  }

  /** The freed units are in one block of the new list. */
  lemma FreedHolds(mem: Memory, base: nat, ring: seq<nat>, k: nat, b: nat)
    requires IsRing(mem, base, ring) && Fits(mem, ring, k, b)
    ensures k + 1 < |ring| ==> ring[k+1] in mem
    ensures var r := Freed(mem, ring, k, b).1; k < |r| && r[k] == ring[k]
    ensures HasFree(Freed(mem, ring, k, b).0, Freed(mem, ring, k, b).1, b, mem[b].size)
  {
    BaseEmpty(mem, base, ring);
    assert LinkedAt(mem, ring, k) && (k + 1 < |ring| ==> LinkedAt(mem, ring, k + 1));
    InsertAscends(ring, k, b);
    var m1, r1 := Linked(mem, ring[k], b), Inserted(ring, k, b);
    if k + 1 < |ring| && End(mem, b) == ring[k+1] {
      DropAscends(r1, k + 2);
      m1, r1 := Absorbed(m1, b), Dropped(r1, k + 2);
    }
    if End(mem, ring[k]) == b {
      DropAscends(r1, k + 1);
      assert Holds(Absorbed(m1, ring[k]), Dropped(r1, k + 1), k, b, mem[b].size);
    } else {
      assert Holds(m1, r1, k + 1, b, mem[b].size);
    }
  }

  /** Everything free() promises of the heap it leaves. */
  lemma AfterFree(mem: Memory, base: nat, ring: seq<nat>, alloc: map<nat, nat>, blocks: map<nat, nat>,
                  owner: map<nat, nat>,
                  top: nat, k: nat, b: nat)
    returns (r: seq<nat>, bs: map<nat, nat>, o: map<nat, nat>)
    requires base > 0 && Heapish(mem, base, ring, alloc, blocks, owner, top) && Coalesced(mem, ring)
    requires b in alloc && Fits(mem, ring, k, b)
    ensures k + 1 < |ring| ==> ring[k+1] in mem
    ensures var m := Freed(mem, ring, k, b).0;
            && Heapish(m, base, r, alloc - {b}, bs, o, top) && Coalesced(m, r)
            && HasFree(m, r, b, alloc[b])
    ensures o.Keys == owner.Keys && ring[k] in r && ring[k] > 0 && r == Freed(mem, ring, k, b).1
  {
    assert TakenAt(mem, alloc, blocks, b);
    assert ring[0] <= ring[k];
    FreedOk(mem, base, ring, k, b);
    FreedHolds(mem, base, ring, k, b);
    bs, o := FreedHeap(mem, base, ring, alloc, blocks, owner, top, k, b);
    hide IsRing, Tiling, Agree, Freed, HasFree, Coalesced;
    r := Freed(mem, ring, k, b).1;
    assert r[k] == ring[k];
  }

  /** Handing out the whole k-th block. */
  lemma AfterTakeAll(mem: Memory, base: nat, ring: seq<nat>, alloc: map<nat, nat>, blocks: map<nat, nat>,
                     owner: map<nat, nat>,
                     top: nat, k: nat)
    requires Heapish(mem, base, ring, alloc, blocks, owner, top) && Coalesced(mem, ring)
    requires 1 <= k < |ring|
    ensures ring[k-1] in mem && ring[k] in mem && ring[k] !in alloc && ring[k-1] in Dropped(ring, k)
    ensures var m := mem[ring[k-1] := mem[ring[k-1]].(ptr := mem[ring[k]].ptr)];
            && Heapish(m, base, Dropped(ring, k), alloc[ring[k] := mem[ring[k]].size], blocks, owner, top)
            && Coalesced(m, Dropped(ring, k))
  {
    RemoveOk(mem, base, ring, k);
    RemoveAgrees(mem, base, ring, alloc, blocks, top, k);
    assert FreeAt(mem, ring, alloc, blocks, k);
    assert Dropped(ring, k)[k-1] == ring[k-1];
  }

  /** The tail of a free block is not yet handed out, and splitting it off joins nothing. */
  lemma TailIsNew(mem: Memory, base: nat, ring: seq<nat>, alloc: map<nat, nat>, blocks: map<nat, nat>,
                  owner: map<nat, nat>,
                  top: nat, k: nat, n: nat)
    requires Heapish(mem, base, ring, alloc, blocks, owner, top)
    requires 1 <= k < |ring| && ring[k] in mem && 0 < n < mem[ring[k]].size
    ensures ring[k] in blocks && blocks[ring[k]] == mem[ring[k]].size
    ensures End(mem, ring[k]) - n !in alloc && End(mem, ring[k]) - n !in blocks
  {
    SizesAgree(mem, base, ring, alloc, blocks, top, k);
    CutFresh(blocks, owner, ring[k], n);
  }

  /** Handing out the last n units of the k-th block. */
  lemma AfterTakeTail(mem: Memory, base: nat, ring: seq<nat>, alloc: map<nat, nat>, blocks: map<nat, nat>,
                      owner: map<nat, nat>,
                      top: nat, k: nat, n: nat, h: Header)
    requires Heapish(mem, base, ring, alloc, blocks, owner, top) && Coalesced(mem, ring)
    requires 1 <= k < |ring| && ring[k] in mem && 0 < n < mem[ring[k]].size && h.size == n
    requires ring[k] in blocks && blocks[ring[k]] == mem[ring[k]].size
    requires End(mem, ring[k]) - n !in blocks
    ensures Heapish(Shrunk(mem, ring[k], n, h), base, ring, alloc[End(mem, ring[k]) - n := n],
                    CutBlocks(blocks, ring[k], n), Cut(owner, ring[k], End(mem, ring[k]) - n), top)
  {
    hide IsRing, Agree, Tiling, Coalesced, Shrunk, CutBlocks, Cut;
    ShrinkOk(mem, base, ring, k, n, h);
    CutTiles(blocks, owner, ring[k], n);
    SplitAgrees(mem, base, ring, alloc, blocks, top, k, n, h);
  }

  lemma SizesAgree(mem: Memory, base: nat, ring: seq<nat>, alloc: map<nat, nat>, blocks: map<nat, nat>, top: nat,
                   k: nat)
    requires Agree(mem, base, ring, alloc, blocks, top) && 1 <= k < |ring|
    ensures ring[k] in mem && ring[k] in blocks && blocks[ring[k]] == mem[ring[k]].size
    ensures forall a :: a in alloc ==> a in blocks
  {
    assert FreeAt(mem, ring, alloc, blocks, k);
    forall a | a in alloc
      ensures a in blocks
    {
      assert TakenAt(mem, alloc, blocks, a);
    }
  }

  /** New memory above everything, as an allocated block. */
  lemma AfterGrow(mem: Memory, base: nat, ring: seq<nat>, alloc: map<nat, nat>, blocks: map<nat, nat>,
                  owner: map<nat, nat>,
                  top: nat, b: nat, n: nat, h: Header)
    requires Heapish(mem, base, ring, alloc, blocks, owner, top) && Coalesced(mem, ring)
    requires base < b && top <= b && n > 0 && h.size == n
    ensures b !in alloc && b !in ring && Coalesced(mem[b := h], ring)
    ensures Heapish(mem[b := h], base, ring, alloc[b := n], blocks[b := n], Grown(owner, b, n), b + n)
  {
    GrowAgrees(mem, base, ring, alloc, blocks, top, b, n, h);
    GrowTiles(blocks, owner, b, n);
    OffListOk(mem, base, ring, b, h);
    assert b in alloc ==> TakenAt(mem, alloc, blocks, b);
  }

  // ---- what every reachable heap satisfies ----

  /** Blocks handed out are apart from each other and from everything on the list. */
  lemma NoOverlap(mem: Memory, base: nat, ring: seq<nat>, alloc: map<nat, nat>, blocks: map<nat, nat>,
                  owner: map<nat, nat>,
                  top: nat, a: nat, b: nat)
    requires Heapish(mem, base, ring, alloc, blocks, owner, top)
    requires a in alloc && (b in alloc || b in ring[1..]) && a != b
    ensures b in mem && (a + alloc[a] <= b || b + mem[b].size <= a)
  {
    assert TakenAt(mem, alloc, blocks, a);
    if b in alloc {
      assert TakenAt(mem, alloc, blocks, b);
    } else {
      var i :| 0 <= i < |ring[1..]| && ring[1..][i] == b;
      assert FreeAt(mem, ring, alloc, blocks, i + 1);
    }
    if a < b { Disjoint(blocks, owner, a, b); } else { Disjoint(blocks, owner, b, a); }
  }

  /** The free units are the units obtained and not handed out. */
  lemma FreeIsUnallocated(mem: Memory, base: nat, ring: seq<nat>, alloc: map<nat, nat>, blocks: map<nat, nat>,
                          owner: map<nat, nat>,
                          top: nat, u: nat)
    requires Heapish(mem, base, ring, alloc, blocks, owner, top)
    ensures IsFree(mem, ring, u) <==> u in owner && owner[u] !in alloc
  {
    if IsFree(mem, ring, u) {
      var i :| 1 <= i < |ring| && InBlock(mem, ring, i, u);
      assert FreeAt(mem, ring, alloc, blocks, i) && Covers(owner, ring[i], blocks[ring[i]]);
    }
    if u in owner && owner[u] !in alloc {
      assert Within(blocks, owner[u], u) && Placed(base, ring, alloc, blocks, top, owner[u]);
      var i :| 0 <= i < |ring| && ring[i] == owner[u];
      assert FreeAt(mem, ring, alloc, blocks, i) && InBlock(mem, ring, i, u);
    }
  }

  /** Unit u belongs to a block handed out. */
  ghost predicate Lent(alloc: map<nat, nat>, u: nat) {
    exists a :: a in alloc && a <= u < a + alloc[a]
  }

  lemma LentIffOwned(mem: Memory, base: nat, ring: seq<nat>, alloc: map<nat, nat>, blocks: map<nat, nat>,
                     owner: map<nat, nat>,
                     top: nat, u: nat)
    requires Heapish(mem, base, ring, alloc, blocks, owner, top) && u in owner
    ensures Lent(alloc, u) <==> owner[u] in alloc
  {
    assert Within(blocks, owner[u], u);
    if Lent(alloc, u) {
      var a :| a in alloc && a <= u < a + alloc[a];
      assert TakenAt(mem, alloc, blocks, a) && Covers(owner, a, blocks[a]);
    }
    assert owner[u] in alloc ==> TakenAt(mem, alloc, blocks, owner[u]);
  }

  /** Two heaps with the same memory obtained and the same blocks handed out have the same
      free list, whatever calls made them. */
  lemma HistoryForgotten(mem: Memory, ring: seq<nat>, blocks: map<nat, nat>, owner: map<nat, nat>, top: nat,
                         mem': Memory, ring': seq<nat>, blocks': map<nat, nat>, owner': map<nat, nat>, top': nat,
                         base: nat, alloc: map<nat, nat>)
    requires Heapish(mem, base, ring, alloc, blocks, owner, top) && Coalesced(mem, ring)
    requires Heapish(mem', base, ring', alloc, blocks', owner', top') && Coalesced(mem', ring')
    requires owner.Keys == owner'.Keys
    ensures ring == ring'
    ensures forall i :: 0 <= i < |ring| ==> ring[i] in mem && ring[i] in mem' && mem[ring[i]].size == mem'[ring[i]].size
  {
    forall u
      ensures IsFree(mem, ring, u) <==> IsFree(mem', ring', u)
    {
      FreeIsUnallocated(mem, base, ring, alloc, blocks, owner, top, u);
      FreeIsUnallocated(mem', base, ring', alloc, blocks', owner', top', u);
      if u in owner.Keys {
        LentIffOwned(mem, base, ring, alloc, blocks, owner, top, u);
        LentIffOwned(mem', base, ring', alloc, blocks', owner', top', u);
      }
    }
    CanonicalFreeList(mem, ring, mem', ring', base);
  }

  /** Units free and handed out add up to the units obtained from sbrk. */
  lemma UnitsConserved(mem: Memory, base: nat, ring: seq<nat>, alloc: map<nat, nat>, blocks: map<nat, nat>,
                       owner: map<nat, nat>, top: nat)
    requires Heapish(mem, base, ring, alloc, blocks, owner, top)
    ensures Sum(blocks) == |owner.Keys|
    ensures blocks.Keys == alloc.Keys + (set i | 1 <= i < |ring| :: ring[i])
    ensures forall b :: b in blocks ==> b in mem && mem[b].size == blocks[b]
  {
    Conservation(blocks, owner);
    forall b | b in blocks
      ensures b in alloc.Keys + (set i | 1 <= i < |ring| :: ring[i]) && b in mem && mem[b].size == blocks[b]
    {
      assert Placed(base, ring, alloc, blocks, top, b);
      if b in alloc {
        assert TakenAt(mem, alloc, blocks, b);
      } else {
        var i :| 0 <= i < |ring| && ring[i] == b;
        assert FreeAt(mem, ring, alloc, blocks, i);
      }
    }
    forall b | b in alloc.Keys + (set i | 1 <= i < |ring| :: ring[i])
      ensures b in blocks
    {
      if b in alloc {
        assert TakenAt(mem, alloc, blocks, b);
      } else {
        var i :| 1 <= i < |ring| && ring[i] == b;
        assert FreeAt(mem, ring, alloc, blocks, i);
      }
    }
  }

  // ---- first fit ----

  /** The header c links after p. */
  ghost function After(mem: Memory, p: nat, c: nat): (q: nat) {
    if c == 0 then p
    else
      var q := After(mem, p, c - 1);
      if q in mem then mem[q].ptr else q
  }

  /** From `start`, c headers are too small for n units; p is the next, and prevp before it. */
  ghost predicate Passed(mem: Memory, start: nat, n: nat, prevp: nat, p: nat, c: nat) {
    && prevp == After(mem, start, c) && p == After(mem, start, c + 1)
    && forall t :: 1 <= t <= c ==> Small(mem, After(mem, start, t), n)
  }

  /** p is the first header after `start` with n units or more, and prevp comes before it. */
  ghost predicate FirstFit(mem: Memory, start: nat, n: nat, prevp: nat, p: nat) {
    p in mem && mem[p].size >= n && exists c: nat :: Passed(mem, start, n, prevp, p, c)
  }

  /** b is the last n units of the first block after `start` that has so many; `stop` comes
      before that block. */
  ghost predicate FromFirstFit(mem: Memory, start: nat, n: nat, b: nat, stop: nat) {
    exists p :: FirstFit(mem, start, n, stop, p) && b + n == End(mem, p)
  }

  /** The list that malloc finds: at the first call that of the static header. */
  ghost function ListAt(mem: Memory, freep: nat, base: nat, ring: seq<nat>): (r: (Memory, seq<nat>)) {
    if freep == 0 then (mem[base := Header(base, 0)], [base]) else (mem, ring)
  }

  /** Of the listed blocks, those with n units end at e. */
  ghost predicate FitsEnd(mem: Memory, ring: seq<nat>, n: nat, e: nat) {
    forall i :: 1 <= i < |ring| && !Small(mem, ring[i], n) ==> ring[i] in mem && End(mem, ring[i]) == e
  }

  /** The list after n units of new memory at hp, above all others, have gone through free(). */
  ghost predicate Supplied(m0: Memory, r0: seq<nat>, hp: nat, n: nat, m: Memory, r: seq<nat>, freep: nat) {
    exists h: Header :: h.size == n && SuppliedAs(m0, r0, hp, m, r, freep, h)
  }

  ghost predicate SuppliedAs(m0: Memory, r0: seq<nat>, hp: nat, m: Memory, r: seq<nat>, freep: nat, h: Header) {
    && |r0| > 0 && freep == r0[|r0|-1] && freep in m0 && freep != hp && (m, r) == Freed(m0[hp := h], r0, |r0| - 1, hp)
  }

  /** One more block is handed out, b, and its header says that it has n units. */
  ghost predicate HandedOut(was: map<nat, nat>, alloc: map<nat, nat>, mem: Memory, b: nat, n: nat) {
    b !in was && alloc == was[b := n] && b in mem && mem[b].size == n
  }

  lemma HandedSame(a0: map<nat, nat>, a1: map<nat, nat>, a2: map<nat, nat>, mem: Memory, b: nat, n: nat)
    requires a0 == a1 && HandedOut(a1, a2, mem, b, n)
    ensures HandedOut(a0, a2, mem, b, n)
  {
  }

  lemma SuppliedSame(m0: Memory, r0: seq<nat>, l: (Memory, seq<nat>), hp: nat, n: nat, m: Memory, r: seq<nat>,
                     freep: nat)
    requires l.0 == m0 && l.1 == r0 && Supplied(m0, r0, hp, n, m, r, freep)
    ensures Supplied(l.0, l.1, hp, n, m, r, freep)
  {
  }

  /** The last block of the list below b. */
  ghost predicate LastBelow(ring: seq<nat>, b: nat, p: nat) {
    p in ring && p < b && forall q :: q in ring && q < b ==> q <= p
  }

  lemma GapIsLast(mem: Memory, base: nat, ring: seq<nat>, k: nat, b: nat)
    requires IsRing(mem, base, ring) && Fits(mem, ring, k, b)
    ensures LastBelow(ring, b, ring[k])
  {
    forall q | q in ring && q < b
      ensures q <= ring[k]
    {
      var i :| 0 <= i < |ring| && ring[i] == q;
      assert i <= k;
    }
  }

  /** free() of memory above everything puts it at the end of the list. */
  lemma FreedLast(m0: Memory, r0: seq<nat>, hp: nat, k: nat, m: Memory, r: seq<nat>, freep: nat, h: Header)
    requires forall i :: 0 <= i < |r0| ==> r0[i] in m0 && r0[i] < hp
    requires k < |r0| && freep == r0[k] && LastBelow(r0, hp, freep) && Fits(m0[hp := h], r0, k, hp)
    requires forall i, j :: 0 <= i < j < |r0| ==> r0[i] < r0[j]
    requires (m, r) == Freed(m0[hp := h], r0, k, hp)
    ensures Supplied(m0, r0, hp, h.size, m, r, freep)
  {
    hide Freed;
    assert r0[|r0|-1] in r0;
    assert k == |r0| - 1;
    assert SuppliedAs(m0, r0, hp, m, r, freep, h);
  }

  /** When no block was large enough before, only the new memory is. */
  lemma OnlyNewFits(m0: Memory, r0: seq<nat>, m: Memory, r: seq<nat>, freep: nat, hp: nat, asked: nat, n: nat)
    requires Supplied(m0, r0, hp, asked, m, r, freep) && !Roomy(m0, r0, n)
    requires forall i :: 0 <= i < |r0| ==> r0[i] in m0 && r0[i] < hp
    requires forall i, j :: 0 <= i < j < |r0| ==> r0[i] < r0[j]
    ensures FitsEnd(m, r, n, hp + asked)
  {
    var h: Header :| h.size == asked && SuppliedAs(m0, r0, hp, m, r, freep, h);
    forall i | 1 <= i < |r|
      ensures Small(m, r[i], n) || (r[i] in m && End(m, r[i]) == hp + asked)
    {
      if i < |r0| { assert Small(m0, r0[i], n) && r[i] == r0[i]; }
    }
  }

  lemma FitEnds(m: Memory, r: seq<nat>, start: nat, prevp: nat, p: nat, k: nat, n: nat, e: nat)
    requires FitsEnd(m, r, n, e) && FirstFit(m, start, n, prevp, p) && 1 <= k < |r| && p == r[k]
    ensures p in m && End(m, p) == e
  {
    assert !Small(m, r[k], n);
  }

  // ---- the walk of malloc ----

  /** The list as malloc visits it: from the block after the f-th one round to the f-th. */
  function Rot(ring: seq<nat>, f: nat): (r: seq<nat>)
    requires f < |ring|
    ensures |r| == |ring|
  {
    ring[f+1..] + ring[..f+1]
  }

  ghost predicate Small(mem: Memory, b: nat, n: nat) {
    b in mem && mem[b].size < n
  }

  /** Some free block has n units. */
  ghost predicate Roomy(mem: Memory, ring: seq<nat>, n: nat) {
    exists i :: 1 <= i < |ring| && !Small(mem, ring[i], n)
  }

  /** The c-th block visited: where the walk goes next, and which block precedes it. */
  lemma RotAt(mem: Memory, base: nat, ring: seq<nat>, f: nat, c: nat) returns (k: nat)
    requires IsRing(mem, base, ring) && f < |ring| && c < |ring|
    ensures var r := Rot(ring, f);
            && k < |ring| && ring[k] == r[c] && r[c] in mem
            && mem[r[c]].ptr == (if c + 1 < |r| then r[c+1] else r[0])
            && (k > 0 ==> ring[k-1] == if c == 0 then ring[f] else r[c-1])
            && (k == 0 ==> mem[r[c]].size == 0)
            && (r[c] == ring[f] ==> c + 1 == |r|)
  {
    k := if f + 1 + c < |ring| then f + 1 + c else f + 1 + c - |ring|;
    assert LinkedAt(mem, ring, k);
  }

  lemma WalkedAll(mem: Memory, ring: seq<nat>, f: nat, n: nat)
    requires f < |ring| && forall t :: 0 <= t < |ring| ==> Small(mem, Rot(ring, f)[t], n)
    ensures !Roomy(mem, ring, n)
  {
    var r := Rot(ring, f);
    forall i | 1 <= i < |ring|
      ensures Small(mem, ring[i], n)
    {
      assert ring[i] == r[if i > f then i - f - 1 else i + |ring| - f - 1];
    }
  }

  /** Units that morecore asks sbrk for. */
  function Asked(nu: nat): (r: nat)
    ensures r >= 4096 && r >= nu && (r == 4096 || r == nu)
  {
    if nu < 4096 then 4096 else nu
  }

  /** The units obtained after a call for n units that asked sbrk for `more`, or did not. */
  ghost function Obtained(owner: map<nat, nat>, grant: Option<nat>, n: nat, more: bool): (units: set<nat>) {
    if more && grant.Some? then Grown(owner, grant.value, Asked(n)).Keys else owner.Keys
  }

  lemma NothingMore(owner: map<nat, nat>, grant: Option<nat>, n: nat)
    ensures Obtained(owner, grant, n, false) == owner.Keys
  {
  }

  lemma RoomyIfHeld(mem: Memory, ring: seq<nat>, b: nat, n: nat)
    requires HasFree(mem, ring, b, Asked(n))
    ensures Roomy(mem, ring, n)
  {
    var i: nat :| Holds(mem, ring, i, b, Asked(n));
    assert !Small(mem, ring[i], n);
  }

  /** The heap after the first call of malloc has set up the static header. */
  lemma FreshHeap(mem: Memory, base: nat, top: nat)
    ensures var m := mem[base := Header(base, 0)];
            && Heapish(m, base, [base], map[], map[], map[], top) && Coalesced(m, [base])
            && forall n :: !Roomy(m, [base], n)
  {
    var m := mem[base := Header(base, 0)];
    assert LinkedAt(m, [base], 0);
  }

  // ---- sizes ----

  const HEADER: nat := 8   // sizeof(Header)

  /** The units malloc looks for, in the program's 32-bit arithmetic. */
  function Units(nbytes: nat): (n: nat)
    requires nbytes < UINT
    ensures 1 <= n <= UINT / HEADER
  {
    (nbytes + HEADER - 1) % UINT / HEADER + 1
  }

  /** The block holds its header and the requested bytes, except when the rounding wraps. */
  lemma UnitsSuffice(nbytes: nat)
    requires nbytes < UINT
    ensures (Units(nbytes) - 1) * HEADER >= nbytes <==> nbytes + HEADER - 1 < UINT
  {
  }

  /** What morecore passes to sbrk for n units: an int. */
  function SbrkArgument(n: nat): (r: int) {
    var bytes := n * HEADER % UINT;
    if bytes < UINT / 2 then bytes else bytes - UINT
  }

  /** morecore asks for what it will put on the list exactly below 2^28 units. */
  lemma SbrkAsksEnough(n: nat)
    requires n <= UINT / HEADER
    ensures SbrkArgument(n) == n * HEADER <==> n < UINT / HEADER / 2
  {
  }

  class Heap {
    const base: nat          // the address of the static header
    var mem: Memory
    var freep: nat           // 0 until the first malloc
    ghost var ring: seq<nat>
    ghost var alloc: map<nat, nat>    // blocks handed out, with their sizes
    ghost var blocks: map<nat, nat>
    ghost var owner: map<nat, nat>    // the units obtained from sbrk, with their blocks
    ghost var top: nat

    /** The heap but for blocks that touch. */
    ghost predicate Sound()
      reads this
    {
      freep in ring && base > 0 && Heapish(mem, base, ring, alloc, blocks, owner, top)
    }

    ghost predicate Valid()
      reads this
    {
      if freep == 0 then base > 0 && alloc == map[] && owner == map[]
      else Sound() && Coalesced(mem, ring)
    }

    constructor (b: nat)
      requires b > 0
      ensures Valid() && alloc == map[] && owner == map[] && base == b
    {
      base, mem, freep := b, map[], 0;
      ring, alloc, blocks, owner, top := [], map[], map[], map[], 0;
    }

    /** The search of free(): the last block of the list below bp. */
    method FindGap(bp: nat) returns (p: nat, ghost k: nat)
      requires Sound() && bp in alloc
      ensures k < |ring| && p == ring[k] && Fits(mem, ring, k, bp) && LastBelow(ring, bp, p)
    {
      assert bp !in ring && base < bp by {
        assert TakenAt(mem, alloc, blocks, bp) && Placed(base, ring, alloc, blocks, top, bp);
        forall i | 0 <= i < |ring|
          ensures ring[i] != bp
        {
          assert i > 0 ==> FreeAt(mem, ring, alloc, blocks, i);
        }
      }
      k := GapExists(ring, bp);
      ghost var i :| 0 <= i < |ring| && ring[i] == freep;
      p := freep;
      while true
        invariant 0 <= i < |ring| && p == ring[i]
        invariant LinkedAt(mem, ring, i)
        decreases if i <= k then k - i else |ring| - i + k
      {
        if bp > p && bp < mem[p].ptr { break; }
        if p >= mem[p].ptr && (bp > p || bp < mem[p].ptr) { break; }
        p := mem[p].ptr;
        i := if i + 1 < |ring| then i + 1 else 0;
      }
      assert i == k;
      GapFits(mem, base, ring, alloc, blocks, owner, top, k, bp);
      GapIsLast(mem, base, ring, k, bp);
    }

    /** What free() finds around the gap. */
    lemma Neighbours(k: nat, bp: nat)
      requires Sound() && k < |ring| && Fits(mem, ring, k, bp)
      ensures ring[k] in mem && bp in mem && ring[k] < bp && mem[bp].size > 0 && mem[ring[k]].ptr == Nxt(ring, k)
      ensures k + 1 < |ring| ==> ring[k+1] in mem && bp < ring[k+1]
      ensures k + 1 == |ring| ==> ring[0] <= ring[k]
    {
      assert LinkedAt(mem, ring, k) && (k + 1 < |ring| ==> LinkedAt(mem, ring, k + 1));
    }

    /** The relinking of free(): bp goes behind p, and joins the neighbours it touches. */
    method Relink(p: nat, bp: nat, ghost k: nat)
      requires Sound() && bp in alloc && k < |ring| && p == ring[k] && Fits(mem, ring, k, bp)
      modifies this`mem
      ensures k + 1 < |ring| ==> ring[k+1] in old(mem)
      ensures mem == Freed(old(mem), ring, k, bp).0
    {
      hide Heapish, Fits;
      Neighbours(k, bp);
      ghost var m1 := Linked(mem, p, bp);
      if bp + mem[bp].size == mem[p].ptr {
        mem := mem[bp := mem[bp].(size := mem[bp].size + mem[mem[p].ptr].size)];
        mem := mem[bp := mem[bp].(ptr := mem[mem[p].ptr].ptr)];
        assert mem[p := mem[p].(ptr := bp)] == Absorbed(m1, bp);
      } else {
        mem := mem[bp := mem[bp].(ptr := mem[p].ptr)];
        assert mem[p := mem[p].(ptr := bp)] == m1;
      }
      if p + mem[p].size == bp {
        mem := mem[p := mem[p].(size := mem[p].size + mem[bp].size)];
        mem := mem[p := mem[p].(ptr := mem[bp].ptr)];
      } else {
        mem := mem[p := mem[p].(ptr := bp)];
      }
    }

    /** free: gives back a block that malloc handed out. */
    method Free(ap: nat) returns (ghost k: nat)
      requires Valid() && ap > 0 && ap - 1 in alloc
      modifies this
      ensures Valid() && freep != 0
      ensures LastBelow(old(ring), ap - 1, freep) && Fits(old(mem), old(ring), k, ap - 1) && freep == old(ring)[k]
      ensures k + 1 < |old(ring)| ==> old(ring)[k+1] in old(mem)
      ensures (mem, ring) == Freed(old(mem), old(ring), k, ap - 1)
      ensures alloc == old(alloc) - {ap - 1} && owner.Keys == old(owner.Keys) && top == old(top)
      ensures HasFree(mem, ring, ap - 1, old(alloc)[ap - 1])
    {
      hide Heapish, Fits, Coalesced, Freed, HasFree;
      var bp := ap - 1;
      var p;
      p, k := FindGap(bp);
      ghost var r, bs, o := AfterFree(mem, base, ring, alloc, blocks, owner, top, k, bp);
      Relink(p, bp, k);
      freep := p;
      ring, alloc, blocks, owner := r, alloc - {bp}, bs, o;
    }

    /** malloc's step on a block that is large enough: the whole block, or its tail. */
    method Take(prevp: nat, p: nat, nunits: nat, ghost k: nat) returns (b: nat)
      requires Valid() && freep != 0 && 1 <= k < |ring| && p == ring[k] && prevp == ring[k-1]
      requires p in mem && mem[p].size >= nunits > 0
      modifies this
      ensures Valid() && freep == prevp
      ensures b !in old(alloc) && alloc == old(alloc)[b := nunits] && b in mem && mem[b].size == nunits
      ensures owner.Keys == old(owner.Keys) && top == old(top) && b + nunits == End(old(mem), p)
    {
      hide IsRing, Agree, Tiling, Coalesced, Dropped;
      RingPositive(k - 1);
      b := p;
      if mem[p].size == nunits {
        AfterTakeAll(mem, base, ring, alloc, blocks, owner, top, k);
        mem := mem[prevp := mem[prevp].(ptr := mem[p].ptr)];
        ring, alloc := Dropped(ring, k), alloc[p := nunits];
      } else {
        ghost var h := Header(if End(mem, p) - nunits in mem then mem[End(mem, p) - nunits].ptr else 0, nunits);
        TailIsNew(mem, base, ring, alloc, blocks, owner, top, k, nunits);
        AfterTakeTail(mem, base, ring, alloc, blocks, owner, top, k, nunits, h);
        assert IsRing(mem, base, ring);
        ShrinkOk(mem, base, ring, k, nunits, h);
        ghost var m := Shrunk(mem, p, nunits, h);
        blocks, owner := CutBlocks(blocks, p, nunits), Cut(owner, p, End(mem, p) - nunits);
        mem := mem[p := mem[p].(size := mem[p].size - nunits)];
        b := b + mem[p].size;
        mem := mem[b := Header(if b in mem then mem[b].ptr else 0, nunits)];
        alloc := alloc[b := nunits];
        assert mem == m;
      }
      freep := prevp;
    }

    lemma RingPositive(i: nat)
      requires Sound() && i < |ring|
      ensures ring[i] in ring && ring[i] > 0
    {
      assert ring[0] <= ring[i];
    }

    lemma AllBelow(hp: nat)
      requires Valid() && freep != 0 && base < hp && top <= hp
      ensures forall i :: 0 <= i < |ring| ==> ring[i] in mem && ring[i] < hp
      ensures forall i, j :: 0 <= i < j < |ring| ==> ring[i] < ring[j]
    {
      forall i | 0 <= i < |ring|
        ensures ring[i] in mem && ring[i] < hp
      {
        assert LinkedAt(mem, ring, i);
        if i > 0 { assert FreeAt(mem, ring, alloc, blocks, i) && Placed(base, ring, alloc, blocks, top, ring[i]); }
      }
    }

    /** morecore: new memory from sbrk goes on the list through free(). */
    method Morecore(nu: nat, grant: Option<nat>) returns (r: nat)
      requires Valid() && freep != 0 && nu > 0
      requires grant.Some? ==> base < grant.value && top <= grant.value
      modifies this
      ensures Valid() && freep != 0 && alloc == old(alloc)
      ensures grant.None? ==> r == 0 && unchanged(this)
      ensures grant.Some? ==>
                var n := Asked(nu);
                && r == freep && HasFree(mem, ring, grant.value, n)
                && owner.Keys == old(Grown(owner, grant.value, n).Keys) && top == grant.value + n
                && Supplied(old(mem), old(ring), grant.value, n, mem, ring, freep)
    {
      hide Heapish, Coalesced, HasFree, Freed, Supplied, Grown;
      var n := nu;
      if n < 4096 {
        n := 4096;
      }
      if grant.None? {
        return 0;
      }
      var hp := grant.value;
      ghost var was, m0, r0 := alloc, mem, ring;
      AllBelow(hp);
      ghost var h := SetSize(hp, n);
      ghost var k := Free(hp + 1);
      assert alloc == was;
      FreedLast(m0, r0, hp, k, mem, ring, freep, h);
      return freep;
    }

    /** hp->s.size = nu: the new memory is a block, as if handed out. */
    method SetSize(hp: nat, n: nat) returns (ghost h: Header)
      requires Valid() && freep != 0 && n > 0 && base < hp && top <= hp
      modifies this`mem, this`alloc, this`blocks, this`owner, this`top
      ensures Valid() && h.size == n && mem == old(mem)[hp := h]
      ensures hp !in old(alloc) && alloc == old(alloc)[hp := n]
      ensures owner == old(Grown(owner, hp, n)) && top == hp + n
    {
      hide Heapish, Coalesced, Grown;
      h := Header(if hp in mem then mem[hp].ptr else 0, n);
      AfterGrow(mem, base, ring, alloc, blocks, owner, top, hp, n, h);
      mem := mem[hp := Header(if hp in mem then mem[hp].ptr else 0, n)];
      alloc, blocks, owner, top := alloc[hp := n], blocks[hp := n], Grown(owner, hp, n), hp + n;
    }

    /** The first call of malloc makes the list of the static header alone. */
    method Init()
      requires Valid() && freep == 0
      modifies this`mem, this`freep, this`ring, this`blocks
      ensures Valid() && freep != 0 && (mem, ring) == ListAt(old(mem), 0, base, old(ring))
      ensures forall n :: !Roomy(mem, ring, n)
    {
      FreshHeap(mem, base, top);
      freep := base;
      mem := mem[base := Header(base, 0)];
      ring, blocks := [base], map[];
    }

    /** malloc: a block of Units(nbytes) units, header included, or 0 when no free block is
        large enough and sbrk refuses.  It is the tail of the first fit in the list `m` that the
        last walk started at `start`: the list as it was, or with new memory, whose end it is. */
    method Malloc(nbytes: nat, grant: Option<nat>) returns (ap: nat, ghost m: Memory, ghost start: nat)
      requires Valid() && nbytes < UINT
      requires grant.Some? ==> base < grant.value && top <= grant.value && Units(nbytes) < UINT / HEADER / 2
      modifies this
      ensures Valid()
      ensures ap == 0 <==> grant.None? && !old(HasRoom(Units(nbytes)))
      ensures ap == 0 ==> alloc == old(alloc)
      ensures ap != 0 ==> HandedOut(old(alloc), alloc, mem, ap - 1, Units(nbytes))
      ensures ap != 0 ==> FromFirstFit(m, start, Units(nbytes), ap - 1, freep)
      ensures old(HasRoom(Units(nbytes))) ==> m == old(mem) && start == old(freep)
      ensures grant.Some? && !old(HasRoom(Units(nbytes))) ==>
                && ap - 1 + Units(nbytes) == grant.value + Asked(Units(nbytes))
                && var l := ListAt(old(mem), old(freep), base, old(ring));
                   exists r :: Supplied(l.0, l.1, grant.value, Asked(Units(nbytes)), m, r, start)
      ensures owner.Keys == Obtained(old(owner), grant, Units(nbytes), !old(HasRoom(Units(nbytes))))
    {
      var nunits := Units(nbytes);
      hide Heapish, Coalesced, Units, Asked, Roomy, Obtained, Heap.Valid, Supplied, FromFirstFit, HandedOut;
      if freep == 0 {
        Init();
      }
      ghost var m0, r0 := mem, ring;
      ghost var r;
      ap, m, start, r := Serve(nunits, grant);
      if grant.Some? && !Roomy(m0, r0, nunits) {
        SuppliedSame(m0, r0, old(ListAt(mem, freep, base, ring)), grant.value, Asked(nunits), m, r, start);
      }
    }

    /** malloc once there is a list. */
    method Serve(nunits: nat, grant: Option<nat>)
      returns (ap: nat, ghost m: Memory, ghost start: nat, ghost r: seq<nat>)
      requires Valid() && freep != 0 && nunits > 0
      requires grant.Some? ==> base < grant.value && top <= grant.value
      modifies this
      ensures Valid()
      ensures ap == 0 <==> grant.None? && !Roomy(old(mem), old(ring), nunits)
      ensures ap == 0 ==> alloc == old(alloc)
      ensures ap != 0 ==> HandedOut(old(alloc), alloc, mem, ap - 1, nunits)
      ensures ap != 0 ==> FromFirstFit(m, start, nunits, ap - 1, freep)
      ensures Roomy(old(mem), old(ring), nunits) ==> m == old(mem) && start == old(freep)
      ensures grant.Some? && !Roomy(old(mem), old(ring), nunits) ==>
                && ap - 1 + nunits == grant.value + Asked(nunits)
                && Supplied(old(mem), old(ring), grant.value, Asked(nunits), m, r, start)
      ensures owner.Keys == Obtained(old(owner), grant, nunits, !Roomy(old(mem), old(ring), nunits))
    {
      hide Heapish, Coalesced, Asked, Roomy, Obtained, Heap.Valid, Supplied, FirstFit, FromFirstFit, HandedOut;
      ghost var a0, k := alloc, 0;
      var prevp, p;
      prevp, p, k := Walk(nunits, grant);
      m, start, r := mem, freep, ring;
      if p == 0 { return 0, m, start, r; }
      ghost var a1 := alloc;
      var b := TakeFit(prevp, p, nunits, k);
      HandedSame(a0, a1, alloc, mem, b, nunits);
      ap := b + 1;
    }

    /** malloc's loop: the first fit and the block before it, in the list as it is or with new
        memory, which the walk then finds. */
    method Walk(nunits: nat, grant: Option<nat>) returns (prevp: nat, p: nat, ghost k: nat)
      requires Valid() && freep != 0 && nunits > 0
      requires grant.Some? ==> base < grant.value && top <= grant.value
      modifies this
      ensures Valid() && freep != 0 && alloc == old(alloc)
      ensures p == 0 <==> grant.None? && !Roomy(old(mem), old(ring), nunits)
      ensures p != 0 ==> 1 <= k < |ring| && p == ring[k] && prevp == ring[k-1] && FirstFit(mem, freep, nunits, prevp, p)
      ensures Roomy(old(mem), old(ring), nunits) || grant.None? ==> unchanged(this)
      ensures grant.Some? && !Roomy(old(mem), old(ring), nunits) ==>
                && Supplied(old(mem), old(ring), grant.value, Asked(nunits), mem, ring, freep)
                && p in mem && End(mem, p) == grant.value + Asked(nunits)
      ensures owner.Keys == Obtained(old(owner), grant, nunits, !Roomy(old(mem), old(ring), nunits))
    {
      hide Heapish, Coalesced, Asked, HasFree, Roomy, Obtained, Heap.Valid, Supplied, FitsEnd, FirstFit;
      NothingMore(owner, grant, nunits);
      prevp, p, k := Search(nunits);
      if p == 0 {
        var q := Refill(nunits, grant);
        if q != 0 {
          prevp, p, k := Search(nunits);      // goes on behind q, which is freep
          FitEnds(mem, ring, freep, prevp, p, k, nunits, grant.value + Asked(nunits));
        }
      }
    }

    /** Some block on the list has n units. */
    ghost predicate HasRoom(n: nat)
      reads this
    {
      freep != 0 && Roomy(mem, ring, n)
    }

    /** malloc's step on the block that the walk found. */
    method TakeFit(prevp: nat, p: nat, nunits: nat, ghost k: nat) returns (b: nat)
      requires Valid() && freep != 0 && 1 <= k < |ring| && p == ring[k] && prevp == ring[k-1]
      requires nunits > 0 && FirstFit(mem, freep, nunits, prevp, p)
      modifies this
      ensures Valid() && freep == prevp && FromFirstFit(old(mem), old(freep), nunits, b, freep)
      ensures p in old(mem) && b + nunits == End(old(mem), p)
      ensures HandedOut(old(alloc), alloc, mem, b, nunits)
      ensures owner.Keys == old(owner.Keys) && top == old(top)
    {
      hide Heapish, Coalesced, Passed;
      b := Take(prevp, p, nunits, k);
    }

    /** malloc's walk once round the list from freep: the first block after freep that is large
        enough and the one before it, or 0. */
    method Search(nunits: nat) returns (prevp: nat, p: nat, ghost k: nat)
      requires Valid() && freep != 0 && nunits > 0
      ensures p == 0 <==> !Roomy(mem, ring, nunits)
      ensures p != 0 ==> 1 <= k < |ring| && p == ring[k] && prevp == ring[k-1]
      ensures p != 0 ==> FirstFit(mem, freep, nunits, prevp, p)
    {
      hide Heapish, Coalesced, Roomy, Walking, Heap.Valid;
      prevp := freep;
      k := 0;
      ghost var f := StartWalk(nunits);
      ghost var c: nat := 0;
      p := mem[prevp].ptr;
      while true
        invariant Walking(f, c, prevp, p, nunits)
        decreases |ring| - c
      {
        VisitWalk(f, c, prevp, p, nunits);
        if mem[p].size >= nunits {
          k := FoundWalk(f, c, prevp, p, nunits);
          return;
        }
        if p == freep {
          EndWalk(f, c, prevp, p, nunits);
          return 0, 0, 0;
        }
        NextWalk(f, c, prevp, p, nunits);
        c := c + 1;
        prevp := p;
        p := mem[p].ptr;
      }
    }

    /** malloc is back at freep and found nothing: it asks for more memory. */
    method Refill(n: nat, grant: Option<nat>) returns (q: nat)
      requires Valid() && freep != 0 && n > 0
      requires grant.Some? ==> base < grant.value && top <= grant.value
      modifies this
      ensures Valid() && freep != 0 && alloc == old(alloc)
      ensures grant.None? ==> q == 0 && unchanged(this)
      ensures grant.Some? ==> q == freep && q != 0 && Roomy(mem, ring, n)
      ensures grant.Some? ==> Supplied(old(mem), old(ring), grant.value, Asked(n), mem, ring, freep)
      ensures grant.Some? && !Roomy(old(mem), old(ring), n) ==> FitsEnd(mem, ring, n, grant.value + Asked(n))
      ensures owner.Keys == Obtained(old(owner), grant, n, true)
    {
      hide Heapish, Coalesced, Asked, HasFree, Roomy, Walking, Grown;
      ghost var m0, r0 := mem, ring;
      if grant.Some? { AllBelow(grant.value); }
      q := Morecore(n, grant);
      if grant.Some? {
        RoomyIfHeld(mem, ring, grant.value, n);
        if !Roomy(m0, r0, n) { OnlyNewFits(m0, r0, mem, ring, freep, grant.value, Asked(n), n); }
      }
    }

    /** malloc has visited c blocks after freep, the f-th, all too small; p comes next. */
    ghost predicate Walking(f: nat, c: nat, prevp: nat, p: nat, n: nat)
      reads this
    {
      && f < |ring| && freep == ring[f] && c < |ring|
      && p == Rot(ring, f)[c] && prevp == (if c == 0 then freep else Rot(ring, f)[c-1])
      && (forall t :: 0 <= t < c ==> Small(mem, Rot(ring, f)[t], n))
      && Passed(mem, freep, n, prevp, p, c)
    }

    lemma StartWalk(n: nat) returns (f: nat)
      requires Valid() && freep != 0
      ensures freep in mem && Walking(f, 0, freep, mem[freep].ptr, n)
    {
      f :| f < |ring| && ring[f] == freep;
      var k := RotAt(mem, base, ring, f, |ring| - 1);
    }

    lemma VisitWalk(f: nat, c: nat, prevp: nat, p: nat, n: nat)
      requires Valid() && freep != 0 && Walking(f, c, prevp, p, n)
      ensures p in mem && c < |ring|
    {
      var k := RotAt(mem, base, ring, f, c);
    }

    lemma NextWalk(f: nat, c: nat, prevp: nat, p: nat, n: nat)
      requires Valid() && freep != 0 && Walking(f, c, prevp, p, n) && p != freep && p in mem && mem[p].size < n
      ensures Walking(f, c + 1, p, mem[p].ptr, n)
    {
      var k := RotAt(mem, base, ring, f, c);
    }

    lemma EndWalk(f: nat, c: nat, prevp: nat, p: nat, n: nat)
      requires Valid() && freep != 0 && Walking(f, c, prevp, p, n) && p == freep && p in mem && mem[p].size < n
      ensures !Roomy(mem, ring, n)
    {
      var k := RotAt(mem, base, ring, f, c);
      WalkedAll(mem, ring, f, n);
    }

    lemma FoundWalk(f: nat, c: nat, prevp: nat, p: nat, n: nat) returns (k: nat)
      requires Valid() && freep != 0 && Walking(f, c, prevp, p, n) && p in mem && mem[p].size >= n > 0
      ensures 1 <= k < |ring| && p == ring[k] && p > 0 && prevp == ring[k-1] && Roomy(mem, ring, n)
      ensures FirstFit(mem, freep, n, prevp, p)
    {
      k := RotAt(mem, base, ring, f, c);
      assert !Small(mem, ring[k], n);
      RingPositive(k);
    }
  }
}
