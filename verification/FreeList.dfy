/**
 The circular free list of umalloc.c as a value: its shape, what relinking does to it, and
 what the list says about the memory it stands for.  Addresses count header-sized units.
 */
module FreeList {

  /** A header in memory: the link and the size in units, header included. */
  datatype Header = Header(ptr: nat, size: nat)

  type Memory = map<nat, Header>

  /** The address after the i-th one, around the ring. */
  function Nxt(ring: seq<nat>, i: nat): (r: nat)
    requires i < |ring|
  {
    if i + 1 < |ring| then ring[i+1] else ring[0]
  }

  function End(mem: Memory, b: nat): (r: nat)
    requires b in mem
  {
    b + mem[b].size
  }

  predicate Ascending(ring: seq<nat>) {
    forall i, j :: 0 <= i < j < |ring| ==> ring[i] < ring[j]
  }

  /** The i-th block is linked to the next one and ends at or before it. */
  ghost predicate LinkedAt(mem: Memory, ring: seq<nat>, i: nat)
    requires i < |ring|
  {
    && ring[i] in mem
    && mem[ring[i]].ptr == Nxt(ring, i)
    && (i + 1 < |ring| ==> End(mem, ring[i]) <= ring[i+1])
    && (mem[ring[i]].size == 0 <==> i == 0)
  }

  /** One circular list through `base`, in address order, of blocks that do not overlap. */
  ghost predicate IsRing(mem: Memory, base: nat, ring: seq<nat>) {
    && |ring| > 0 && ring[0] == base && Ascending(ring)
    && forall i :: 0 <= i < |ring| ==> LinkedAt(mem, ring, i)
  }

  /** The i-th block does not end where the next one begins. */
  ghost predicate ApartAt(mem: Memory, ring: seq<nat>, i: nat)
    requires i < |ring|
  {
    i + 1 < |ring| ==> ring[i] in mem && End(mem, ring[i]) != ring[i+1]
  }

  ghost predicate Coalesced(mem: Memory, ring: seq<nat>) {
    forall i :: 0 <= i < |ring| ==> ApartAt(mem, ring, i)
  }

  // ---- relinking ----

  /** b may go in after the k-th block. */
  ghost predicate Fits(mem: Memory, ring: seq<nat>, k: nat, b: nat) {
    && k < |ring| && ring[k] in mem && b in mem && mem[b].size > 0
    && ring[k] < b && End(mem, ring[k]) <= b
    && (k + 1 < |ring| ==> End(mem, b) <= ring[k+1])
  }

  function Inserted(ring: seq<nat>, k: nat, b: nat): (r: seq<nat>)
    requires k < |ring|
  {
    ring[..k+1] + [b] + ring[k+1..]
  }

  function Dropped(ring: seq<nat>, k: nat): (r: seq<nat>)
    requires k < |ring|
  {
    ring[..k] + ring[k+1..]
  }

  lemma InsertAscends(ring: seq<nat>, k: nat, b: nat)
    requires Ascending(ring) && k < |ring| && ring[k] < b && (k + 1 < |ring| ==> b < ring[k+1])
    ensures var r := Inserted(ring, k, b);
            && Ascending(r)
            && forall i :: 0 <= i < |r| ==> r[i] == if i <= k then ring[i] else if i == k + 1 then b else ring[i-1]
  {
    var r := Inserted(ring, k, b);
    forall i, j | 0 <= i < j < |r|
      ensures r[i] < r[j]
    {
      if j == k + 1 { assert ring[i] <= ring[k]; }
      else if i == k + 1 { assert ring[k+1] <= ring[j-1]; }
    }
  }

  lemma DropAscends(ring: seq<nat>, k: nat)
    requires Ascending(ring) && k < |ring|
    ensures var r := Dropped(ring, k);
            Ascending(r) && forall i :: 0 <= i < |r| ==> r[i] == if i < k then ring[i] else ring[i+1]
  {
  }

  /** b linked in behind p. */
  function Linked(mem: Memory, p: nat, b: nat): (m: Memory)
    requires p in mem && b in mem
  {
    var m := mem[b := mem[b].(ptr := mem[p].ptr)];
    m[p := m[p].(ptr := b)]
  }

  lemma InsertOk(mem: Memory, base: nat, ring: seq<nat>, k: nat, b: nat)
    requires IsRing(mem, base, ring) && Fits(mem, ring, k, b)
    ensures IsRing(Linked(mem, ring[k], b), base, Inserted(ring, k, b))
  {
    var r, m := Inserted(ring, k, b), Linked(mem, ring[k], b);
    InsertAscends(ring, k, b);
    forall i | 0 <= i < |r|
      ensures LinkedAt(m, r, i)
    {
      assert LinkedAt(mem, ring, if i <= k then i else i - 1) && LinkedAt(mem, ring, k);
    }
  }

  /** The block after p, joined to p. */
  function Absorbed(mem: Memory, p: nat): (m: Memory)
    requires p in mem && mem[p].ptr in mem
  {
    mem[p := Header(mem[mem[p].ptr].ptr, mem[p].size + mem[mem[p].ptr].size)]
  }

  lemma AbsorbOk(mem: Memory, base: nat, ring: seq<nat>, k: nat)
    requires IsRing(mem, base, ring) && 1 <= k < |ring| - 1 && ring[k] in mem && End(mem, ring[k]) == ring[k+1]
    ensures mem[ring[k]].ptr == ring[k+1] && ring[k+1] in mem
    ensures IsRing(Absorbed(mem, ring[k]), base, Dropped(ring, k + 1))
  {
    assert LinkedAt(mem, ring, k) && LinkedAt(mem, ring, k + 1);
    var r, m := Dropped(ring, k + 1), Absorbed(mem, ring[k]);
    DropAscends(ring, k + 1);
    forall i | 0 <= i < |r|
      ensures LinkedAt(m, r, i)
    {
      var o := if i <= k then i else i + 1;
      assert LinkedAt(mem, ring, o) && r[i] == ring[o];
      if i != k { assert ring[o] != ring[k] && Nxt(r, i) == Nxt(ring, o); }
    }
  }

  lemma AbsorbApart(mem: Memory, base: nat, ring: seq<nat>, k: nat, i: nat)
    requires IsRing(mem, base, ring) && 1 <= k < |ring| - 1 && ring[k] in mem && End(mem, ring[k]) == ring[k+1]
    requires i < |ring| - 1 && ApartAt(mem, ring, if i < k then i else i + 1)
    ensures mem[ring[k]].ptr == ring[k+1] && ring[k+1] in mem
    ensures ApartAt(Absorbed(mem, ring[k]), Dropped(ring, k + 1), i)
  {
    assert LinkedAt(mem, ring, k) && LinkedAt(mem, ring, k + 1);
    DropAscends(ring, k + 1);
    var o := if i <= k then i else i + 1;
    assert LinkedAt(mem, ring, o);
    assert i != k ==> ring[o] != ring[k];
  }

  /** The list after free() has put block b behind the k-th one and joined it to the
      neighbours it touches. */
  function Freed(mem: Memory, ring: seq<nat>, k: nat, b: nat): (r: (Memory, seq<nat>))
    requires k < |ring| && ring[k] in mem && b in mem && (k + 1 < |ring| ==> ring[k+1] in mem)
  {
    var m1, r1 := Linked(mem, ring[k], b), Inserted(ring, k, b);
    var joinsNext := k + 1 < |ring| && End(mem, b) == ring[k+1];
    var m2 := if joinsNext && m1[b].ptr in m1 then Absorbed(m1, b) else m1;
    var r2 := if joinsNext then Dropped(r1, k + 2) else r1;
    if End(mem, ring[k]) == b && m2[ring[k]].ptr in m2 then (Absorbed(m2, ring[k]), Dropped(r2, k + 1)) else (m2, r2)
  }

  /** Only the blocks at the positions in `except` may touch their successors. */
  ghost predicate ApartBut(mem: Memory, ring: seq<nat>, except: set<nat>) {
    forall i :: 0 <= i < |ring| && i !in except ==> ApartAt(mem, ring, i)
  }

  lemma InsertApart(mem: Memory, base: nat, ring: seq<nat>, k: nat, b: nat)
    requires IsRing(mem, base, ring) && Coalesced(mem, ring) && Fits(mem, ring, k, b)
    ensures ApartBut(Linked(mem, ring[k], b), Inserted(ring, k, b), {k, k + 1})
  {
    var m, r := Linked(mem, ring[k], b), Inserted(ring, k, b);
    InsertAscends(ring, k, b);
    forall i | 0 <= i < |r| && i != k && i != k + 1
      ensures ApartAt(m, r, i)
    {
      var o := if i < k then i else i - 1;
      assert ApartAt(mem, ring, o) && LinkedAt(mem, ring, o);
    }
  }

  /** Joining the (k+1)-th block to the k-th; l is another position that may still touch. */
  lemma JoinApart(mem: Memory, base: nat, ring: seq<nat>, k: nat, l: nat)
    requires IsRing(mem, base, ring) && 1 <= k < |ring| - 1 && ring[k] in mem && End(mem, ring[k]) == ring[k+1]
    requires l <= k && ApartBut(mem, ring, {k, l})
    ensures mem[ring[k]].ptr == ring[k+1] && ring[k+1] in mem
    ensures ApartBut(Absorbed(mem, ring[k]), Dropped(ring, k + 1), if l < k then {l} else {})
  {
    AbsorbOk(mem, base, ring, k);
    var m, r := Absorbed(mem, ring[k]), Dropped(ring, k + 1);
    forall i | 0 <= i < |r| && (i != l || l == k)
      ensures ApartAt(m, r, i)
    {
      assert ApartAt(mem, ring, if i < k then i else i + 1);
      AbsorbApart(mem, base, ring, k, i);
    }
  }

  /** After free() the list is a ring again, and every pair of touching blocks is joined. */
  lemma FreedOk(mem: Memory, base: nat, ring: seq<nat>, k: nat, b: nat)
    requires IsRing(mem, base, ring) && Coalesced(mem, ring) && Fits(mem, ring, k, b)
    ensures k + 1 < |ring| ==> ring[k+1] in mem
    ensures IsRing(Freed(mem, ring, k, b).0, base, Freed(mem, ring, k, b).1)
    ensures Coalesced(Freed(mem, ring, k, b).0, Freed(mem, ring, k, b).1)
  {
    assert LinkedAt(mem, ring, k) && (k + 1 < |ring| ==> LinkedAt(mem, ring, k + 1));
    var m1, r1 := Linked(mem, ring[k], b), Inserted(ring, k, b);
    InsertOk(mem, base, ring, k, b);
    InsertAscends(ring, k, b);
    InsertApart(mem, base, ring, k, b);
    var joinsNext := k + 1 < |ring| && End(mem, b) == ring[k+1];
    var m2, r2 := m1, r1;
    if joinsNext {
      AbsorbOk(m1, base, r1, k + 1);
      JoinApart(m1, base, r1, k + 1, k);
      DropAscends(r1, k + 2);
      m2, r2 := Absorbed(m1, b), Dropped(r1, k + 2);
    } else {
      assert ApartAt(m1, r1, k + 1);
    }
    assert ApartBut(m2, r2, {k}) && r2[k] == ring[k] && r2[k+1] == b && m2[ring[k]].size == mem[ring[k]].size;
    JoinPrev(m2, base, r2, k);
  }

  lemma JoinPrev(mem: Memory, base: nat, ring: seq<nat>, k: nat)
    requires IsRing(mem, base, ring) && k < |ring| - 1 && ApartBut(mem, ring, {k})
    ensures ring[k] in mem
    ensures if End(mem, ring[k]) == ring[k+1]
            then && mem[ring[k]].ptr in mem
                 && IsRing(Absorbed(mem, ring[k]), base, Dropped(ring, k + 1))
                 && Coalesced(Absorbed(mem, ring[k]), Dropped(ring, k + 1))
            else Coalesced(mem, ring)
  {
    assert LinkedAt(mem, ring, k);
    if End(mem, ring[k]) == ring[k+1] {
      AbsorbOk(mem, base, ring, k);
      JoinApart(mem, base, ring, k, k);
    }
  }

  /** Taking the k-th block off the list. */
  lemma RemoveOk(mem: Memory, base: nat, ring: seq<nat>, k: nat)
    requires IsRing(mem, base, ring) && 1 <= k < |ring| && Coalesced(mem, ring)
    ensures ring[k-1] in mem && ring[k] in mem
    ensures var m := mem[ring[k-1] := mem[ring[k-1]].(ptr := mem[ring[k]].ptr)];
            IsRing(m, base, Dropped(ring, k)) && Coalesced(m, Dropped(ring, k))
  {
    assert LinkedAt(mem, ring, k - 1) && LinkedAt(mem, ring, k);
    var r, m := Dropped(ring, k), mem[ring[k-1] := mem[ring[k-1]].(ptr := mem[ring[k]].ptr)];
    DropAscends(ring, k);
    forall i | 0 <= i < |r|
      ensures LinkedAt(m, r, i) && ApartAt(m, r, i)
    {
      RemoveAt(mem, base, ring, k, i);
    }
  }

  lemma RemoveAt(mem: Memory, base: nat, ring: seq<nat>, k: nat, i: nat)
    requires IsRing(mem, base, ring) && 1 <= k < |ring| && Coalesced(mem, ring) && i < |ring| - 1
    ensures ring[k-1] in mem && ring[k] in mem
    ensures var m := mem[ring[k-1] := mem[ring[k-1]].(ptr := mem[ring[k]].ptr)];
            LinkedAt(m, Dropped(ring, k), i) && ApartAt(m, Dropped(ring, k), i)
  {
    assert LinkedAt(mem, ring, k - 1) && LinkedAt(mem, ring, k);
    var o := if i < k then i else i + 1;
    assert LinkedAt(mem, ring, o) && ApartAt(mem, ring, o);
  }

  /** The last n units of block p become a block of their own, with header h. */
  function Shrunk(mem: Memory, p: nat, n: nat, h: Header): (m: Memory)
    requires p in mem && n <= mem[p].size
  {
    mem[p := mem[p].(size := mem[p].size - n)][End(mem, p) - n := h]
  }

  /** Giving away the last n units of the k-th block. */
  lemma ShrinkOk(mem: Memory, base: nat, ring: seq<nat>, k: nat, n: nat, h: Header)
    requires IsRing(mem, base, ring) && 1 <= k < |ring| && Coalesced(mem, ring)
    requires ring[k] in mem && 0 < n < mem[ring[k]].size
    ensures var b := End(mem, ring[k]) - n;
            var m := Shrunk(mem, ring[k], n, h);
            b !in ring && IsRing(m, base, ring) && Coalesced(m, ring)
  {
    var b := End(mem, ring[k]) - n;
    var m := Shrunk(mem, ring[k], n, h);
    assert LinkedAt(mem, ring, k);
    forall i | 0 <= i < |ring|
      ensures ring[i] != b
    {
      if i > k + 1 { assert ring[k+1] < ring[i]; }
    }
    forall i | 0 <= i < |ring|
      ensures LinkedAt(m, ring, i) && ApartAt(m, ring, i)
    {
      assert LinkedAt(mem, ring, i) && ApartAt(mem, ring, i);
    }
  }

  /** Headers off the list may change. */
  lemma OffListOk(mem: Memory, base: nat, ring: seq<nat>, b: nat, h: Header)
    requires IsRing(mem, base, ring) && b !in ring
    ensures IsRing(mem[b := h], base, ring)
    ensures Coalesced(mem, ring) ==> Coalesced(mem[b := h], ring)
  {
    var m := mem[b := h];
    forall i | 0 <= i < |ring|
      ensures LinkedAt(m, ring, i) && (ApartAt(mem, ring, i) ==> ApartAt(m, ring, i))
    {
      assert LinkedAt(mem, ring, i);
    }
  }

  // ---- finding the place ----

  /** The last block below b. */
  lemma GapExists(ring: seq<nat>, b: nat) returns (k: nat)
    requires |ring| > 0 && ring[0] < b && b !in ring
    ensures k < |ring| && ring[k] < b && (k + 1 < |ring| ==> b < ring[k+1])
  {
    k := 0;
    while k + 1 < |ring| && ring[k+1] < b
      invariant k < |ring| && ring[k] < b
    {
      k := k + 1;
    }
  }

  // ---- the memory the blocks stand for ----

  /** `blocks` maps each block to its size and `owner` each unit to its block: the blocks
      cover the units without overlap. */
  ghost predicate Tiling(blocks: map<nat, nat>, owner: map<nat, nat>) {
    Owned(blocks, owner) && Covered(blocks, owner)
  }

  ghost predicate Owned(blocks: map<nat, nat>, owner: map<nat, nat>) {
    forall u :: u in owner ==> Within(blocks, owner[u], u)
  }

  ghost predicate Covered(blocks: map<nat, nat>, owner: map<nat, nat>) {
    forall b :: b in blocks ==> blocks[b] > 0 && Covers(owner, b, blocks[b])
  }

  ghost predicate Within(blocks: map<nat, nat>, b: nat, u: nat) {
    b in blocks && b <= u < b + blocks[b]
  }

  ghost predicate Covers(owner: map<nat, nat>, b: nat, n: nat) {
    forall u :: b <= u < b + n ==> u in owner && owner[u] == b
  }

  lemma Disjoint(blocks: map<nat, nat>, owner: map<nat, nat>, b: nat, c: nat)
    requires Tiling(blocks, owner) && b in blocks && c in blocks && b < c
    ensures b + blocks[b] <= c
  {
    assert Covers(owner, b, blocks[b]) && Covers(owner, c, blocks[c]);
    assert c in owner && owner[c] == c;
  }

  /** The units of block c given to block b. */
  function Reowned(owner: map<nat, nat>, c: nat, b: nat): (r: map<nat, nat>)
    ensures r.Keys == owner.Keys
  {
    map u | u in owner :: if owner[u] == c then b else owner[u]
  }

  /** Block c, which follows block b, joined to it. */
  function Joined(blocks: map<nat, nat>, b: nat, c: nat): (r: map<nat, nat>)
    requires b in blocks && c in blocks
  {
    (blocks - {c})[b := blocks[b] + blocks[c]]
  }

  lemma JoinTiles(blocks: map<nat, nat>, owner: map<nat, nat>, b: nat, c: nat)
    requires Tiling(blocks, owner) && b in blocks && c in blocks && b + blocks[b] == c
    ensures Tiling(Joined(blocks, b, c), Reowned(owner, c, b))
  {
    var bs, o := Joined(blocks, b, c), Reowned(owner, c, b);
    forall u | u in o
      ensures Within(bs, o[u], u)
    {
      assert Within(blocks, owner[u], u);
    }
    forall d | d in bs
      ensures bs[d] > 0 && Covers(o, d, bs[d])
    {
      assert Covers(owner, d, blocks[d]) && Covers(owner, c, blocks[c]);
    }
  }

  /** The units at or above c of block b made a block of their own. */
  function Cut(owner: map<nat, nat>, b: nat, c: nat): (r: map<nat, nat>)
    ensures r.Keys == owner.Keys
  {
    map u | u in owner :: if owner[u] == b && u >= c then c else owner[u]
  }

  /** The blocks after the last n units of b become a block. */
  function CutBlocks(blocks: map<nat, nat>, b: nat, n: nat): (r: map<nat, nat>)
    requires b in blocks && n <= blocks[b]
  {
    blocks[b := blocks[b] - n][b + blocks[b] - n := n]
  }

  lemma CutCovers(blocks: map<nat, nat>, owner: map<nat, nat>, b: nat, n: nat, d: nat)
    requires Tiling(blocks, owner) && b in blocks && 0 < n < blocks[b] && b + blocks[b] - n !in blocks
    requires d in blocks || d == b + blocks[b] - n
    ensures var c := b + blocks[b] - n;
            Covers(Cut(owner, b, c), d, if d == b then blocks[b] - n else if d == c then n else blocks[d])
  {
    assert Covers(owner, b, blocks[b]) && (d in blocks ==> Covers(owner, d, blocks[d]));
  }

  lemma CutFresh(blocks: map<nat, nat>, owner: map<nat, nat>, b: nat, n: nat)
    requires Tiling(blocks, owner) && b in blocks && 0 < n < blocks[b]
    ensures b + blocks[b] - n !in blocks
  {
    if b + blocks[b] - n in blocks {
      Disjoint(blocks, owner, b, b + blocks[b] - n);
    }
  }

  lemma CutWithin(blocks: map<nat, nat>, owner: map<nat, nat>, b: nat, n: nat, u: nat)
    requires Tiling(blocks, owner) && b in blocks && 0 < n < blocks[b] && u in owner
    requires b + blocks[b] - n !in blocks
    ensures var c := b + blocks[b] - n;
            Within(CutBlocks(blocks, b, n), Cut(owner, b, c)[u], u)
  {
    hide Covers;
    assert Within(blocks, owner[u], u);
  }

  lemma CutOwned(blocks: map<nat, nat>, owner: map<nat, nat>, b: nat, n: nat)
    requires Tiling(blocks, owner) && b in blocks && 0 < n < blocks[b]
    ensures var c := b + blocks[b] - n; Owned(CutBlocks(blocks, b, n), Cut(owner, b, c))
  {
    CutFresh(blocks, owner, b, n);
    hide Covered, Covers, Within;
    forall u | u in owner
      ensures Within(CutBlocks(blocks, b, n), Cut(owner, b, b + blocks[b] - n)[u], u)
    {
      CutWithin(blocks, owner, b, n, u);
    }
  }

  lemma CutCovered(blocks: map<nat, nat>, owner: map<nat, nat>, b: nat, n: nat)
    requires Tiling(blocks, owner) && b in blocks && 0 < n < blocks[b]
    ensures var c := b + blocks[b] - n; Covered(CutBlocks(blocks, b, n), Cut(owner, b, c))
  {
    CutFresh(blocks, owner, b, n);
    hide Owned, Covers, Cut;
    forall d | d in CutBlocks(blocks, b, n)
      ensures CutBlocks(blocks, b, n)[d] > 0 && Covers(Cut(owner, b, b + blocks[b] - n), d, CutBlocks(blocks, b, n)[d])
    {
      CutCovers(blocks, owner, b, n, d);
    }
  }

  /** Splitting off the last n units of a block. */
  lemma CutTiles(blocks: map<nat, nat>, owner: map<nat, nat>, b: nat, n: nat)
    requires Tiling(blocks, owner) && b in blocks && 0 < n < blocks[b]
    ensures var c := b + blocks[b] - n;
            c !in blocks && Tiling(CutBlocks(blocks, b, n), Cut(owner, b, c))
  {
    CutFresh(blocks, owner, b, n);
    CutOwned(blocks, owner, b, n);
    CutCovered(blocks, owner, b, n);
    hide Owned, Covered, Cut;
  }

  /** New memory [b, b + n) above all other blocks. */
  function Grown(owner: map<nat, nat>, b: nat, n: nat): (r: map<nat, nat>)
    ensures forall u :: u in r <==> u in owner || b <= u < b + n
    ensures forall u :: u in r ==> r[u] == if b <= u < b + n then b else owner[u]
  {
    if n == 0 then owner else Grown(owner, b, n - 1)[b + n - 1 := b]
  }

  lemma GrowTiles(blocks: map<nat, nat>, owner: map<nat, nat>, b: nat, n: nat)
    requires Tiling(blocks, owner) && n > 0
    requires forall c :: c in blocks ==> c + blocks[c] <= b
    ensures b !in blocks && Tiling(blocks[b := n], Grown(owner, b, n))
  {
    var bs, o := blocks[b := n], Grown(owner, b, n);
    forall u | u in o
      ensures Within(bs, o[u], u)
    {
      assert u in owner ==> Within(blocks, owner[u], u);
    }
    forall d | d in bs
      ensures bs[d] > 0 && Covers(o, d, bs[d])
    {
      assert d in blocks ==> Covers(owner, d, blocks[d]);
    }
  }

  // ---- conservation ----

  ghost function Sum(blocks: map<nat, nat>): (s: nat)
  {
    if blocks == map[] then 0 else
      var b :| b in blocks;
      blocks[b] + Sum(blocks - {b})
  }

  lemma {:induction false} SumSplit(blocks: map<nat, nat>, b: nat)
    requires b in blocks
    ensures Sum(blocks) == blocks[b] + Sum(blocks - {b})
    decreases |blocks|
  {
    var c :| c in blocks && Sum(blocks) == blocks[c] + Sum(blocks - {c});
    if c != b {
      SumSplit(blocks - {c}, b);
      SumSplit(blocks - {b}, c);
      assert blocks - {c} - {b} == blocks - {b} - {c};
    }
  }

  lemma {:induction false} SpanSize(b: nat, n: nat, s: set<nat>)
    requires forall u :: u in s <==> b <= u < b + n
    ensures |s| == n
  {
    if n > 0 {
      SpanSize(b, n - 1, s - {b + n - 1});
    }
  }

  function UnitsOf(owner: map<nat, nat>, b: nat): (s: set<nat>) {
    set u | u in owner && owner[u] == b
  }

  lemma RemoveTile(blocks: map<nat, nat>, owner: map<nat, nat>, b: nat)
    requires Tiling(blocks, owner) && b in blocks
    ensures Tiling(blocks - {b}, owner - UnitsOf(owner, b))
  {
    var rest, left := owner - UnitsOf(owner, b), blocks - {b};
    forall u | u in rest
      ensures Within(left, rest[u], u)
    {
      assert Within(blocks, owner[u], u);
    }
    forall d | d in left
      ensures left[d] > 0 && Covers(rest, d, left[d])
    {
      assert Covers(owner, d, blocks[d]);
    }
  }

  lemma BlockSize(blocks: map<nat, nat>, owner: map<nat, nat>, b: nat)
    requires Tiling(blocks, owner) && b in blocks
    ensures |owner.Keys| == blocks[b] + |(owner - UnitsOf(owner, b)).Keys|
  {
    var mine := UnitsOf(owner, b);
    assert Covers(owner, b, blocks[b]);
    forall u | u in mine
      ensures b <= u < b + blocks[b]
    {
      assert Within(blocks, owner[u], u);
    }
    SpanSize(b, blocks[b], mine);
    assert owner.Keys == mine + (owner - mine).Keys;
  }

  /** The blocks, free and allocated, add up to the units obtained. */
  lemma {:induction false} Conservation(blocks: map<nat, nat>, owner: map<nat, nat>)
    requires Tiling(blocks, owner)
    ensures Sum(blocks) == |owner.Keys|
    decreases |blocks|
  {
    if blocks == map[] {
      assert owner.Keys == {};
    } else {
      var b :| b in blocks;
      RemoveTile(blocks, owner, b);
      BlockSize(blocks, owner, b);
      Conservation(blocks - {b}, owner - UnitsOf(owner, b));
      SumSplit(blocks, b);
    }
  }

  // ---- the free units determine the list ----

  ghost predicate InBlock(mem: Memory, ring: seq<nat>, i: nat, u: nat)
    requires i < |ring|
  {
    ring[i] in mem && ring[i] <= u < End(mem, ring[i])
  }

  /** Unit u is in some block of the list. */
  ghost predicate IsFree(mem: Memory, ring: seq<nat>, u: nat) {
    exists i :: 1 <= i < |ring| && InBlock(mem, ring, i, u)
  }

  ghost predicate SameUpTo(mem: Memory, ring: seq<nat>, mem': Memory, ring': seq<nat>, i: nat) {
    && i <= |ring| && i <= |ring'|
    && forall j :: 0 <= j < i ==>
         ring[j] == ring'[j] && ring[j] in mem && ring[j] in mem' && mem[ring[j]].size == mem'[ring[j]].size
  }

  lemma NextStart(mem: Memory, ring: seq<nat>, mem': Memory, ring': seq<nat>, base: nat, i: nat)
    requires IsRing(mem, base, ring) && IsRing(mem', base, ring')
    requires forall u :: IsFree(mem, ring, u) ==> IsFree(mem', ring', u)
    requires SameUpTo(mem, ring, mem', ring', i) && 1 <= i < |ring|
    ensures i < |ring'| && ring'[i] <= ring[i]
  {
    assert LinkedAt(mem, ring, i) && InBlock(mem, ring, i, ring[i]);
    assert IsFree(mem, ring, ring[i]);
    var j :| 1 <= j < |ring'| && InBlock(mem', ring', j, ring[i]);
    assert j < |ring| ==> LinkedAt(mem, ring, j);
  }

  lemma LaterBlock(mem: Memory, ring: seq<nat>, base: nat, i: nat, j: nat, u: nat)
    requires IsRing(mem, base, ring) && i < |ring| && j < |ring| && InBlock(mem, ring, j, u)
    requires ring[i] in mem && u >= End(mem, ring[i])
    ensures j > i
  {
    assert LinkedAt(mem, ring, j) && LinkedAt(mem, ring, i);
  }

  lemma NextEnd(mem: Memory, ring: seq<nat>, mem': Memory, ring': seq<nat>, base: nat, i: nat)
    requires IsRing(mem, base, ring) && IsRing(mem', base, ring') && Coalesced(mem, ring)
    requires forall u :: IsFree(mem', ring', u) ==> IsFree(mem, ring, u)
    requires 1 <= i < |ring| && i < |ring'| && ring[i] == ring'[i] && ring[i] in mem && ring'[i] in mem'
    ensures mem'[ring'[i]].size <= mem[ring[i]].size
  {
    var u := End(mem, ring[i]);
    if u < End(mem', ring'[i]) {
      assert LinkedAt(mem, ring, i) && ApartAt(mem, ring, i);
      assert InBlock(mem', ring', i, u);
      assert IsFree(mem', ring', u);
      var j :| 1 <= j < |ring| && InBlock(mem, ring, j, u);
      LaterBlock(mem, ring, base, i, j, u);
    }
  }

  lemma {:induction false} SamePrefix(mem: Memory, ring: seq<nat>, mem': Memory, ring': seq<nat>, base: nat, i: nat)
    requires IsRing(mem, base, ring) && Coalesced(mem, ring) && IsRing(mem', base, ring') && Coalesced(mem', ring')
    requires forall u :: IsFree(mem, ring, u) <==> IsFree(mem', ring', u)
    requires 1 <= i <= |ring|
    ensures SameUpTo(mem, ring, mem', ring', i)
  {
    assert LinkedAt(mem, ring, 0) && LinkedAt(mem', ring', 0);
    if i > 1 {
      SamePrefix(mem, ring, mem', ring', base, i - 1);
      NextStart(mem, ring, mem', ring', base, i - 1);
      NextStart(mem', ring', mem, ring, base, i - 1);
      assert LinkedAt(mem, ring, i - 1) && LinkedAt(mem', ring', i - 1);
      NextEnd(mem, ring, mem', ring', base, i - 1);
      NextEnd(mem', ring', mem, ring, base, i - 1);
    }
  }

  /** Full coalescing makes the list canonical: which units are free determines the blocks,
      whatever order of malloc and free led there. */
  lemma CanonicalFreeList(mem: Memory, ring: seq<nat>, mem': Memory, ring': seq<nat>, base: nat)
    requires IsRing(mem, base, ring) && Coalesced(mem, ring) && IsRing(mem', base, ring') && Coalesced(mem', ring')
    requires forall u :: IsFree(mem, ring, u) <==> IsFree(mem', ring', u)
    ensures ring == ring'
    ensures forall i :: 0 <= i < |ring| ==> ring[i] in mem && ring[i] in mem' && mem[ring[i]].size == mem'[ring[i]].size
  {
    SamePrefix(mem, ring, mem', ring', base, |ring|);
    SamePrefix(mem', ring', mem, ring, base, |ring'|);
  }
}
