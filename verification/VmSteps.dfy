/**
 Steps of the page allocator and of the page tables, as facts about values of memory.
 */
module VmSteps {
  import opened VmSpec

  lemma TableSlotUsed(mem: Memory, use: Uses, d: int, i: int)
    requires Tabled(mem, use) && d in use && use[d] == Dir && 0 <= i < NENT && IsDir(mem, d)
    ensures TableOf(mem, d, i) == 0 || (TableOf(mem, d, i) in use && use[TableOf(mem, d, i)] == Table(d, i))
    ensures TableOf(mem, d, i) == 0 || (0 < TableOf(mem, d, i) < |mem| && |mem[TableOf(mem, d, i)]| == NENT)
  {
    TableInUse(mem, use, d, i);
  }

  lemma KeepsRefl(mem: Memory, use: Uses, d: int)
    requires Tabled(mem, use)
    ensures Keeps(mem, use, mem, use, d) && Grew(use, use, d)
    ensures SameUsers(mem, use, mem, use) && KernelKept(mem, use, mem, use)
  {
  }

  lemma StillNoTable(m0: Memory, u0: Uses, use: Uses, mem: Memory, d: int, i: int, t: int)
    requires Tabled(mem, use) && mem == m0 && d in u0 && u0[d] == Dir && t in u0 && u0[t] == Free
    requires use == u0[t := Kernel]
    requires IsDir(mem, d) && 0 <= i < NENT && !Present(mem[d][i])
    ensures MayTable(mem, use, d, i, t)
  {
  }

  lemma TableKeeps(m0: Memory, u0: Uses, mem: Memory, use: Uses, d: int, i: int, t: int, perm: int)
    requires MayTable(mem, use, d, i, t) && mem == m0 && t in u0 && u0[t] == Free && use == u0[t := Kernel]
    requires 0 <= perm < PGSIZE && IsDir(mem, d) && t != d && u0[d] == Dir
    ensures Keeps(m0, u0, WithTable(mem, d, i, t, perm), use[t := Table(d, i)], d)
    ensures Grew(u0, use[t := Table(d, i)], d)
    ensures SameUsers(m0, u0, WithTable(mem, d, i, t, perm), use[t := Table(d, i)])
    ensures SameUsers(WithTable(mem, d, i, t, perm), use[t := Table(d, i)], m0, u0)
    ensures KernelKept(m0, u0, WithTable(mem, d, i, t, perm), use[t := Table(d, i)])
  {
    hide Pte;
    var m, us := WithTable(mem, d, i, t, perm), use[t := Table(d, i)];
    assert us == u0[t := Table(d, i)];
    forall f | f in u0
      ensures KeepsFrame(m0, u0, m, us, d, f) && GrewAt(u0, us, d, f)
      ensures SameUser(m0, u0, m, us, f) && SameUser(m, us, m0, u0, f) && KernelKeptAt(m0, u0, m, us, f)
    {
      assert f == t || u0[f] == us[f];
      assert f != t && f != d ==> m0[f] == m[f];
    }
  }

  lemma TableList(mem: Memory, use: Uses, free: seq<int>, head: int, d: int, i: int, t: int, perm: int)
    requires FreeList(mem, use, free, head) && MayTable(mem, use, d, i, t) && 0 <= perm < PGSIZE && IsDir(mem, d)
    requires t != d
    ensures FreeList(WithTable(mem, d, i, t, perm), use[t := Table(d, i)], free, head)
  {
    hide Pte;
    NotListed(mem, use, free, head, t);
    NotListed(mem, use, free, head, d);
    FreeListKeeps(mem, use, free, head, t, Zeros());
    var m := mem[t := Zeros()];
    FreeListKeeps(m, use, free, head, d, m[d][i := Pte(t, perm)]);
    FreeListReuse(WithTable(mem, d, i, t, perm), use, free, head, t, Table(d, i));
  }

  lemma NotListed(mem: Memory, use: Uses, free: seq<int>, head: int, f: int)
    requires FreeList(mem, use, free, head) && f in use && use[f] != Free
    ensures f !in free
  {
    forall i | 0 <= i < |free|
      ensures free[i] != f
    {
      assert ListedAt(mem, use, free, i);
    }
  }

  lemma PopHead(mem: Memory, use: Uses, free: seq<int>, head: int)
    requires FreeList(mem, use, free, head) && free != []
    ensures head == free[0] * PGSIZE && head / PGSIZE == free[0] && free[0] > 0
    ensures free[0] in use && use[free[0]] == Free && free[0] < |mem| && |mem[free[0]]| == NENT
  {
    assert ListedAt(mem, use, free, 0);
  }

  lemma EmptyHead(mem: Memory, use: Uses, free: seq<int>, head: int)
    requires FreeList(mem, use, free, head) && free == []
    ensures head == 0
  {
  }

  lemma SameMemory(mem: Memory, f: int)
    requires 0 <= f < |mem|
    ensures mem[f := mem[f]] == mem
  {
  }

  lemma InRange(mem: Memory, use: Uses, f: int)
    requires Tabled(mem, use) && f in use
    ensures 0 < f < |mem| && |mem[f]| == NENT
  {
  }

  // ---- user frames ----

  ghost predicate SameUser(m1: Memory, u1: Uses, m2: Memory, u2: Uses, f: int)
    requires f in u1
  {
    u1[f].User? ==> f in u2 && u2[f] == u1[f] && 0 <= f < |m1| && f < |m2| && m2[f] == m1[f]
  }

  /** Every user frame of the first state has the same slot and contents in the second. */
  ghost predicate SameUsers(m1: Memory, u1: Uses, m2: Memory, u2: Uses) {
    forall f :: f in u1 ==> SameUser(m1, u1, m2, u2, f)
  }

  lemma SameUsersTrans(m1: Memory, u1: Uses, m2: Memory, u2: Uses, m3: Memory, u3: Uses)
    requires SameUsers(m1, u1, m2, u2) && SameUsers(m2, u2, m3, u3)
    ensures SameUsers(m1, u1, m3, u3)
  {
    forall f | f in u1
      ensures SameUser(m1, u1, m3, u3, f)
    {
      assert SameUser(m1, u1, m2, u2, f) && (f in u2 ==> SameUser(m2, u2, m3, u3, f));
    }
  }

  lemma GrewTrans(u1: Uses, u2: Uses, u3: Uses, d: int)
    requires Grew(u1, u2, d) && Grew(u2, u3, d)
    ensures Grew(u1, u3, d)
  {
    forall f | f in u1
      ensures GrewAt(u1, u3, d, f)
    {
      assert GrewAt(u1, u2, d, f) && GrewAt(u2, u3, d, f);
    }
  }

  /** Changing a free frame keeps everything in use. */
  lemma FreeWrite(mem: Memory, use: Uses, f: int, p: Page, mem': Memory, use': Uses, d: int)
    requires f in use && use[f] == Free && 0 <= f < |mem|
    requires Keeps(mem[f := p], use, mem', use', d) && SameUsers(mem[f := p], use, mem', use')
    ensures Keeps(mem, use, mem', use', d) && SameUsers(mem, use, mem', use')
  {
    forall g | g in use
      ensures KeepsFrame(mem, use, mem', use', d, g) && SameUser(mem, use, mem', use', g)
    {
      assert KeepsFrame(mem[f := p], use, mem', use', d, g) && SameUser(mem[f := p], use, mem', use', g);
    }
  }

  /** What is not d's is not seen through d: other directories keep their address spaces. */
  lemma OtherDirectory(mem: Memory, use: Uses, mem': Memory, use': Uses, d: int, e: int)
    requires Tabled(mem, use) && Tabled(mem', use') && Keeps(mem, use, mem', use', d)
    requires e != d && e in use && use[e] == Dir && IsDir(mem, e)
    ensures e in use' && use'[e] == Dir && IsDir(mem', e) && PageMap(mem', e) == PageMap(mem, e)
  {
    assert KeepsFrame(mem, use, mem', use', d, e);
    forall v | 0 <= v < NPAGES
      ensures PageEntry(mem', e, v) == PageEntry(mem, e, v)
    {
      TableInUse(mem, use, e, v / NENT);
      var t := TableOf(mem, e, v / NENT);
      assert t != 0 ==> KeepsFrame(mem, use, mem', use', d, t);
    }
  }

  // ---- unmapping a page and freeing its frame ----

  ghost predicate UserSlot(mem: Memory, use: Uses, d: int, v: int) {
    && Tabled(mem, use) && d in use && use[d] == Dir && IsDir(mem, d) && 0 <= v < UPAGES
    && PageEntry(mem, d, v) != 0
  }

  /** A present user entry names a frame of its own, never frame 0. */
  lemma UserFrame(mem: Memory, use: Uses, d: int, v: int)
    requires UserSlot(mem, use, d, v)
    ensures var f, t := FrameOf(PageEntry(mem, d, v)), TableOf(mem, d, v / NENT);
            && 0 < f < |mem| && f in use && use[f] == User(d, v / NENT, v % NENT)
            && 0 < t < |mem| && t in use && use[t] == Table(d, v / NENT) && |mem[t]| == NENT && t != f && t != d
            && mem[t][v % NENT] == PageEntry(mem, d, v)
  {
    var s := User(d, v / NENT, v % NENT);
    assert IsSlot(use, s) && SlotOk(mem, use, s);
    TableInUse(mem, use, d, v / NENT);
  }

  function Dropped1(mem: Memory, t: int, j: int, f: int, p: Page): (m: Memory)
    requires 0 <= f < |mem| && 0 <= t < |mem| && t != f && 0 <= j < |mem[t]|
  {
    mem[f := p][t := mem[t][j := 0]]
  }

  lemma DropOk(mem: Memory, use: Uses, d: int, v: int, p: Page)
    requires UserSlot(mem, use, d, v) && |p| == NENT
    ensures var f, t := FrameOf(PageEntry(mem, d, v)), TableOf(mem, d, v / NENT);
            && 0 < f < |mem| && 0 < t < |mem| && |mem[t]| == NENT && t != f
            && Tabled(Dropped1(mem, t, v % NENT, f, p), use[f := Free])
            && IsDir(Dropped1(mem, t, v % NENT, f, p), d)
            && PageMap(Dropped1(mem, t, v % NENT, f, p), d) == PageMap(mem, d)[v := 0]
  {
    hide PageMap, Tabled;
    UserFrame(mem, use, d, v);
    var f, t := FrameOf(PageEntry(mem, d, v)), TableOf(mem, d, v / NENT);
    UnmapOk(mem, use, d, v / NENT, v % NENT);
    EntryMap(mem, use, d, v, 0);
    var ma := WithEntry(mem, d, v / NENT, v % NENT, 0);
    LooseOk(ma, use[f := Kernel], f, p, Free);
    LooseMap(ma, use[f := Kernel], f, p, d);
    assert use[f := Kernel][f := Free] == use[f := Free];
    assert ma[f := p] == Dropped1(mem, t, v % NENT, f, p);
  }

  lemma DropList(mem: Memory, use: Uses, free: seq<int>, head: int, t: int, j: int, f: int)
    requires FreeList(mem, use, free, head)
    requires 0 <= f < |mem| && 0 <= t < |mem| && t != f && 0 <= j < |mem[t]| == NENT && t in use && use[t] != Free
    requires FreeList(mem[f := Junk(head)], use[f := Free], [f] + free, f * PGSIZE)
    ensures FreeList(Dropped1(mem, t, j, f, Junk(head)), use[f := Free], [f] + free, f * PGSIZE)
  {
    hide Junk;
    NotListed(mem, use, free, head, t);
    FreeListKeeps(mem[f := Junk(head)], use[f := Free], [f] + free, f * PGSIZE, t, mem[t][j := 0]);
  }

  /** Every use except those of d's user pages lo..hi-1, which are free. */
  function Dropped(use: Uses, d: int, lo: int, hi: int): (r: Uses)
    ensures r.Keys == use.Keys
  {
    map f | f in use :: if use[f].User? && use[f].d == d && lo <= use[f].i * NENT + use[f].j < hi then Free else use[f]
  }

  lemma SlotPage(i: int, j: int, v: int)
    requires 0 <= j < NENT
    ensures i * NENT + j == v <==> i == v / NENT && j == v % NENT
  {
  }

  lemma DropKeeps(mem: Memory, use: Uses, d: int, t: int, j: int, f: int, p: Page)
    requires Tabled(mem, use) && f in use && use[f].User? && use[f].d == d && t in use && use[t].Table? && use[t].d == d
    requires t != f && 0 <= j < NENT && |mem[t]| == NENT && 0 < t < |mem| && 0 < f < |mem|
    ensures Keeps(mem, use, Dropped1(mem, t, j, f, p), use[f := Free], d)
    ensures SameUsers(Dropped1(mem, t, j, f, p), use[f := Free], mem, use)
  {
    var m, u := Dropped1(mem, t, j, f, p), use[f := Free];
    forall g | g in use
      ensures KeepsFrame(mem, use, m, u, d, g) && SameUser(m, u, mem, use, g)
    {
    }
  }

  /** A page that is not mapped has no frame. */
  lemma NoFrame(mem: Memory, use: Uses, d: int, v: int, g: int)
    requires Tabled(mem, use) && IsDir(mem, d) && 0 <= v < UPAGES && PageEntry(mem, d, v) == 0 && g in use
    ensures use[g] != User(d, v / NENT, v % NENT)
  {
    assert FrameOk(mem, use, g);
  }

  /** Unmapped pages add nothing to what has been dropped. */
  lemma DroppedSkip(mem: Memory, use: Uses, use0: Uses, d: int, lo: int, v: int, w: int)
    requires Tabled(mem, use) && use == Dropped(use0, d, lo, v) && IsDir(mem, d) && lo <= v <= w && 0 <= v
    requires w <= UPAGES
    requires forall x :: v <= x < w ==> PageEntry(mem, d, x) == 0
    requires Slotted(use0)
    ensures use == Dropped(use0, d, lo, w)
  {
    forall g | g in use0
      ensures Dropped(use0, d, lo, w)[g] == Dropped(use0, d, lo, v)[g]
    {
      if use0[g].User? && use0[g].d == d {
        assert SlottedAt(use0, g);
        var x := use0[g].i * NENT + use0[g].j;
        if v <= x < w {
          SlotPage(use0[g].i, use0[g].j, x);
          NoFrame(mem, use, d, x, g);
        }
      }
    }
  }

  /** User slots are named in range. */
  ghost predicate SlottedAt(use: Uses, g: int)
    requires g in use
  {
    use[g].User? ==> 0 <= use[g].i < UTABLES && 0 <= use[g].j < NENT
  }

  ghost predicate Slotted(use: Uses) {
    forall g :: g in use ==> SlottedAt(use, g)
  }

  lemma TabledSlotted(mem: Memory, use: Uses)
    requires Tabled(mem, use)
    ensures Slotted(use)
  {
    forall g | g in use
      ensures SlottedAt(use, g)
    {
      assert FrameOk(mem, use, g);
    }
  }

  /** No two frames serve one slot. */
  lemma OneFrame(mem: Memory, use: Uses, f: int, g: int)
    requires Tabled(mem, use) && f in use && g in use && use[f] == use[g] && use[f].User?
    ensures f == g
  {
    assert FrameOk(mem, use, f) && FrameOk(mem, use, g);
  }

  lemma DroppedPage(mem: Memory, use: Uses, use0: Uses, d: int, lo: int, v: int)
    requires UserSlot(mem, use, d, v) && use == Dropped(use0, d, lo, v) && 0 <= lo <= v && Slotted(use0)
    ensures FrameOf(PageEntry(mem, d, v)) in use
    ensures use[FrameOf(PageEntry(mem, d, v)) := Free] == Dropped(use0, d, lo, v + 1)
  {
    UserFrame(mem, use, d, v);
    var f := FrameOf(PageEntry(mem, d, v));
    assert use0[f] == use[f];
    forall g | g in use0
      ensures use[f := Free][g] == Dropped(use0, d, lo, v + 1)[g]
    {
      assert SlottedAt(use0, g);
      if use0[g].User? {
        SlotPage(use0[g].i, use0[g].j, v);
        if use0[g] == User(d, v / NENT, v % NENT) {
          assert use[g] == use0[g];
          OneFrame(mem, use, f, g);
        }
      }
    }
  }

  // ---- frames the kernel holds ----

  ghost predicate KernelKeptAt(m1: Memory, u1: Uses, m2: Memory, u2: Uses, f: int) {
    f in u1 && f in u2 && (u1[f] == Kernel <==> u2[f] == Kernel)
    && (u1[f] == Kernel ==> 0 <= f < |m1| && f < |m2| && m1[f] == m2[f])
  }

  /** The frames held by other parts of the kernel are the same, with the same contents. */
  ghost predicate KernelKept(m1: Memory, u1: Uses, m2: Memory, u2: Uses) {
    forall f :: f in u1 ==> KernelKeptAt(m1, u1, m2, u2, f)
  }

  lemma KernelKeptOne(m1: Memory, u1: Uses, m2: Memory, u2: Uses, f: int)
    requires KernelKept(m1, u1, m2, u2) && f in u1 && u1[f] == Kernel
    ensures f in u2 && u2[f] == Kernel && 0 <= f < |m1| && f < |m2| && m1[f] == m2[f]
  {
    assert KernelKeptAt(m1, u1, m2, u2, f);
  }

  // ---- mapping a page ----

  lemma NoTableNoPage(mem: Memory, d: int, v: int)
    requires IsDir(mem, d) && 0 <= v < NPAGES && TableOf(mem, d, v / NENT) == 0
    ensures PageMap(mem, d)[v] == 0
  {
  }

  /** The uses as they were before the caller of mappages allocated the frame it maps. */
  function Given(use: Uses, v: int, f: int): (r: Uses) {
    if v < UPAGES then use[f := Free] else use
  }

  function Mapping(use: Uses, d: int, v: int, f: int): (r: Uses) {
    if v < UPAGES then use[f := User(d, v / NENT, v % NENT)] else use
  }

  /** Only free frames were taken, for directory d; the other frames in use are as they were. */
  ghost predicate Extends(m0: Memory, u0: Uses, m1: Memory, u1: Uses, d: int) {
    Keeps(m0, u0, m1, u1, d) && Grew(u0, u1, d)
  }

  /** Frame f, with the contents it had, is the frame of d's page v. */
  ghost predicate TakenOver(m0: Memory, m1: Memory, use: Uses, f: int, d: int, v: int) {
    f in use && use[f] == User(d, v / NENT, v % NENT) && 0 < f < |m0| && f < |m1| && m1[f] == m0[f]
  }

  /** Pages first..last-1 are not mapped. */
  ghost predicate Vacant(m: seq<int>, first: int, last: int) {
    forall v :: 0 <= v < |m| && first <= v < last ==> m[v] == 0
  }

  lemma PutOk(mem: Memory, use: Uses, d: int, v: int, f: int, perm: int)
    requires Tabled(mem, use) && d in use && use[d] == Dir && IsDir(mem, d) && 0 <= v < NPAGES && 0 <= perm < PGSIZE
    requires TableOf(mem, d, v / NENT) != 0 && PageMap(mem, d)[v] == 0
    requires v < UPAGES ==> f in use && use[f] == Kernel
    ensures var t := TableOf(mem, d, v / NENT);
            && 0 < t < |mem| && |mem[t]| == NENT
            && Tabled(mem[t := mem[t][v % NENT := Pte(f, perm)]], Mapping(use, d, v, f))
  {
    assert PageMap(mem, d)[v] == PageEntry(mem, d, v);
    hide Tabled, PageMap, Pte;
    if v < UPAGES {
      MapOk(mem, use, d, v / NENT, v % NENT, f, perm);
    } else {
      KernelEntryOk(mem, use, d, v / NENT, v % NENT, Pte(f, perm));
    }
  }

  lemma PutKeeps(m0: Memory, u0: Uses, mem: Memory, use: Uses, d: int, v: int, t: int, f: int, perm: int)
    requires Keeps(m0, u0, mem, use, d) && Grew(u0, use, d) && SameUsers(m0, u0, mem, use)
    requires 0 <= v < NPAGES && 0 <= perm < PGSIZE && t in use && use[t] == Table(d, v / NENT)
    requires 0 < t < |mem| && |mem[t]| == NENT && (v < UPAGES ==> f in use && use[f] == Kernel)
    ensures Keeps(m0, Given(u0, v, f), mem[t := mem[t][v % NENT := Pte(f, perm)]], Mapping(use, d, v, f), d)
    ensures Grew(Given(u0, v, f), Mapping(use, d, v, f), d)
    ensures SameUsers(m0, u0, mem[t := mem[t][v % NENT := Pte(f, perm)]], Mapping(use, d, v, f))
  {
    hide Pte;
    var m, u, g0 := mem[t := mem[t][v % NENT := Pte(f, perm)]], Mapping(use, d, v, f), Given(u0, v, f);
    forall g | g in u0
      ensures KeepsFrame(m0, g0, m, u, d, g) && GrewAt(g0, u, d, g) && SameUser(m0, u0, m, u, g)
    {
      assert KeepsFrame(m0, u0, mem, use, d, g) && GrewAt(u0, use, d, g) && SameUser(m0, u0, mem, use, g);
    }
  }

  // ---- how many tables a directory has ----

  function TableCount(dir: seq<int>): (r: nat) {
    if dir == [] then 0 else (if Present(dir[0]) then 1 else 0) + TableCount(dir[1..])
  }

  lemma {:induction false} CountNone(dir: seq<int>)
    requires forall i :: 0 <= i < |dir| ==> dir[i] == 0
    ensures TableCount(dir) == 0
  {
    if dir != [] { CountNone(dir[1..]); }
  }

  lemma {:induction false} CountMore(dir: seq<int>, i: nat, e: int)
    requires i < |dir| && Present(e) && !Present(dir[i])
    ensures TableCount(dir[i := e]) == TableCount(dir) + 1
  {
    if i == 0 {
      assert dir[i := e][1..] == dir[1..];
    } else {
      assert dir[i := e][1..] == dir[1..][i - 1 := e];
      CountMore(dir[1..], i - 1, e);
    }
  }

  lemma {:induction false} CountAbsent(dir: seq<int>, i: nat)
    requires i < |dir|
    ensures TableCount(dir) <= |dir| && (!Present(dir[i]) ==> TableCount(dir) < |dir|)
  {
    if |dir| > 1 { CountAbsent(dir[1..], if i == 0 then 0 else i - 1); }
  }

  // ---- what user code may do ----

  /** What the processor lets user code do with virtual page v: both levels must agree. */
  predicate UserMay(mem: Memory, d: int, v: int, write: bool)
    requires 0 <= d < |mem| && |mem[d]| == NENT && 0 <= v < NPAGES
  {
    var pde, pte := mem[d][v / NENT], Entry(mem, d, v / NENT, v % NENT);
    && Present(pde) && ForUsers(pde) && (write ==> Writable(pde))
    && Present(pte) && ForUsers(pte) && (write ==> Writable(pte))
  }

  predicate EntryAllows(e: int, write: bool) {
    e != 0 && ForUsers(e) && (write ==> Writable(e))
  }

  /** The page's own entry decides: directory entries never take anything away. */
  lemma EntryDecides(mem: Memory, use: Uses, d: int, v: int, write: bool)
    requires Tabled(mem, use) && d in use && use[d] == Dir && IsDir(mem, d) && 0 <= v < NPAGES
    ensures UserMay(mem, d, v, write) <==> EntryAllows(PageMap(mem, d)[v], write)
  {
    var s := Table(d, v / NENT);
    assert IsSlot(use, s) && SlotOk(mem, use, s);
    assert PageMap(mem, d)[v] == PageEntry(mem, d, v);
  }

  /** User code may use pages lo..hi-1. */
  ghost predicate UserOwned(mem: Memory, d: int, lo: int, hi: int) {
    IsDir(mem, d) && forall v, w :: 0 <= v < NPAGES && lo <= v < hi ==> UserMay(mem, d, v, w)
  }

  /** User code may do the same with pages lo..hi-1 of either directory. */
  ghost predicate SameAccess(mem: Memory, d: int, e: int, lo: int, hi: int) {
    && IsDir(mem, d) && IsDir(mem, e)
    && forall v, w :: 0 <= v < NPAGES && lo <= v < hi ==> (UserMay(mem, d, v, w) <==> UserMay(mem, e, v, w))
  }

  // ---- conservation ----

  function FreeFrames(use: Uses): (r: set<int>) {
    set f | f in use && use[f] == Free
  }

  lemma {:induction false} DistinctSize(s: seq<int>)
    requires forall i, j :: 0 <= i < j < |s| ==> s[i] != s[j]
    ensures |set f | f in s| == |s|
  {
    if s != [] {
      var t := s[..|s|-1];
      DistinctSize(t);
      assert (set f | f in s) == (set f | f in t) + {s[|s|-1]};
    }
  }

  /** Every frame is either on the free list, once, or in use; none is lost. */
  lemma FramesConserved(mem: Memory, use: Uses, free: seq<int>, head: int)
    requires Sound(mem, use, free, head)
    ensures |free| == |FreeFrames(use)| && |free| + |use.Keys - FreeFrames(use)| == |use.Keys|
    ensures forall f :: f in free <==> f in use && use[f] == Free
  {
    DistinctSize(free);
    forall f
      ensures f in free <==> f in use && use[f] == Free
    {
      if f in free {
        var i :| 0 <= i < |free| && free[i] == f;
        assert ListedAt(mem, use, free, i);
      }
    }
    assert (set f | f in free) == FreeFrames(use);
  }
}
