/**
 Physical memory under kalloc.c and vm.c as a value: the free list threaded through free
 pages, two-level page tables, and which use each page frame has.

 A frame is named by its number; addresses in page words count bytes.
 */
module VmSpec {
  import opened Common

  const PGSIZE: int := 4096
  const NENT: int := 1024          // NPDENTRIES and NPTENTRIES
  const UTABLES: int := 512        // directory entries below KERNBASE
  const KERNBASE: int := 0x8000_0000

  const PTE_P: int := 1
  const PTE_W: int := 2
  const PTE_U: int := 4

  type Page = seq<int>             // 1024 words
  type Memory = seq<Page>

  // ---- page table entries ----

  predicate Present(e: int) {
    e % 2 == 1
  }

  function FrameOf(e: int): (r: int) {
    e / PGSIZE
  }

  function FlagsOf(e: int): (r: int) {
    e % PGSIZE
  }

  /** pa | perm | PTE_P for a page-aligned pa. */
  function Pte(frame: int, perm: int): (e: int)
    requires 0 <= perm < PGSIZE
    ensures Present(e) && FrameOf(e) == frame
    ensures FlagsOf(e) == if perm % 2 == 0 then perm + 1 else perm
  {
    var p := if perm % 2 == 0 then perm + 1 else perm;
    PteParts(frame, p);
    frame * PGSIZE + p
  }

  lemma PteParts(frame: int, p: int)
    requires 0 <= p < PGSIZE
    ensures (frame * PGSIZE + p) / PGSIZE == frame && (frame * PGSIZE + p) % PGSIZE == p
    ensures (frame * PGSIZE + p) % 2 == p % 2
  {
    EvenPart(frame * 2048, p);
  }

  lemma EvenPart(h: int, p: int)
    ensures (2 * h + p) % 2 == p % 2
  {
  }

  predicate Writable(e: int) {
    FlagsOf(e) / PTE_W % 2 == 1
  }

  predicate ForUsers(e: int) {
    FlagsOf(e) / PTE_U % 2 == 1
  }

  /** A directory entry as walkpgdir makes it: what the table's own entries allow decides. */
  predicate Generous(e: int) {
    FlagsOf(e) == PTE_P + PTE_W + PTE_U
  }

  // ---- uses of frames ----

  /** Free, held by other parts of the kernel, a page directory, or the page that entry i of
      directory d, or entry j of its i-th table, points to. */
  datatype Use = Free | Kernel | Dir | Table(d: int, i: int) | User(d: int, i: int, j: int)

  type Uses = map<int, Use>

  predicate IsSlot(use: Uses, s: Use) {
    match s
    case Table(d, i) => d in use && use[d] == Dir && 0 <= i < NENT
    case User(d, i, j) => d in use && use[d] == Dir && 0 <= i < UTABLES && 0 <= j < NENT
    case _ => false
  }

  predicate Shaped(mem: Memory, use: Uses) {
    && (forall f :: 0 <= f < |mem| ==> |mem[f]| == NENT)
    && (forall f :: f in use ==> 0 < f < |mem|)
  }

  /** The frame an entry names: 0 when it is not present, -1 when it is but names none. */
  function Target(e: int): (r: int) {
    if !Present(e) then 0 else if FrameOf(e) == 0 then -1 else FrameOf(e)
  }

  /** The frame of the i-th table of directory d, 0 when the entry is not present. */
  function TableOf(mem: Memory, d: int, i: int): (r: int)
    requires 0 <= d < |mem| && |mem[d]| == NENT && 0 <= i < NENT
  {
    Target(mem[d][i])
  }

  /** The entry for the j-th page under the i-th directory entry, 0 without a table. */
  function Entry(mem: Memory, d: int, i: int, j: int): (r: int)
    requires 0 <= d < |mem| && |mem[d]| == NENT && 0 <= i < NENT && 0 <= j < NENT
  {
    var t := TableOf(mem, d, i);
    if 0 < t < |mem| && |mem[t]| == NENT then mem[t][j] else 0
  }

  /** The frame a slot points to, 0 for none. */
  function Held(mem: Memory, use: Uses, s: Use): (r: int)
    requires Shaped(mem, use) && IsSlot(use, s)
  {
    match s
    case Table(d, i) => TableOf(mem, d, i)
    case User(d, i, j) => Target(Entry(mem, d, i, j))
  }

  ghost predicate SlotOk(mem: Memory, use: Uses, s: Use)
    requires Shaped(mem, use) && IsSlot(use, s)
  {
    var f := Held(mem, use, s);
    f == 0 || (f in use && use[f] == s && (s.Table? ==> Generous(mem[s.d][s.i])))
  }

  ghost predicate FrameOk(mem: Memory, use: Uses, f: int)
    requires Shaped(mem, use) && f in use
  {
    use[f].Table? || use[f].User? ==> IsSlot(use, use[f]) && Held(mem, use, use[f]) == f
  }

  /** Every page-table and user frame is pointed to by exactly the slot that owns it, and
      directory entries restrict nothing. */
  ghost predicate Tabled(mem: Memory, use: Uses) {
    && Shaped(mem, use)
    && (forall f :: f in use ==> FrameOk(mem, use, f))
    && (forall s :: IsSlot(use, s) ==> SlotOk(mem, use, s))
  }

  // ---- the free list ----

  function AddressOf(free: seq<int>, i: nat): (r: int)
    requires i <= |free|
  {
    if i < |free| then free[i] * PGSIZE else 0
  }

  ghost predicate ListedAt(mem: Memory, use: Uses, free: seq<int>, i: nat)
    requires i < |free|
  {
    && 0 < free[i] < |mem| && |mem[free[i]]| == NENT && mem[free[i]][0] == AddressOf(free, i + 1)
    && free[i] in use && use[free[i]] == Free
  }

  /** The list from `head` runs through exactly the free frames. */
  ghost predicate FreeList(mem: Memory, use: Uses, free: seq<int>, head: int) {
    && head == AddressOf(free, 0)
    && (forall i :: 0 <= i < |free| ==> ListedAt(mem, use, free, i))
    && (forall i, j :: 0 <= i < j < |free| ==> free[i] != free[j])
    && (forall f :: f in use && use[f] == Free ==> f in free)
  }

  /** Conservation: every frame has one use, free frames are on the list, and used ones are
      where their use says. */
  ghost predicate Sound(mem: Memory, use: Uses, free: seq<int>, head: int) {
    Tabled(mem, use) && FreeList(mem, use, free, head)
  }

  // ---- changes ----

  function Zeros(): (p: Page)
    ensures |p| == NENT && forall k :: 0 <= k < NENT ==> p[k] == 0
  {
    seq(NENT, _ => 0)
  }

  /** The junk that kfree fills a page with, and the link in its first word. */
  function Junk(next: int): (p: Page)
    ensures |p| == NENT && p[0] == next
  {
    [next] + seq(NENT - 1, _ => 0x0101_0101)
  }

  /** Writing to a frame that is not on the free list leaves the list alone. */
  lemma FreeListKeeps(mem: Memory, use: Uses, free: seq<int>, head: int, f: int, p: Page)
    requires FreeList(mem, use, free, head) && 0 <= f < |mem| && |p| == NENT
    requires f !in free
    ensures FreeList(mem[f := p], use, free, head)
  {
    var m := mem[f := p];
    forall i | 0 <= i < |free|
      ensures ListedAt(m, use, free, i)
    {
      assert ListedAt(mem, use, free, i);
    }
  }

  /** A frame changes from one use to another, both not free. */
  lemma FreeListReuse(mem: Memory, use: Uses, free: seq<int>, head: int, f: int, u: Use)
    requires FreeList(mem, use, free, head) && f in use && use[f] != Free && u != Free
    ensures FreeList(mem, use[f := u], free, head)
  {
    var us := use[f := u];
    forall i | 0 <= i < |free|
      ensures ListedAt(mem, us, free, i)
    {
      assert ListedAt(mem, use, free, i);
    }
  }

  /** kalloc takes the first frame of the list. */
  lemma PopOk(mem: Memory, use: Uses, free: seq<int>, head: int)
    requires FreeList(mem, use, free, head) && |free| > 0
    ensures free[0] in use && use[free[0]] == Free && 0 < free[0] < |mem| && |mem[free[0]]| == NENT
    ensures FreeList(mem, use[free[0] := Kernel], free[1..], mem[free[0]][0])
  {
    assert ListedAt(mem, use, free, 0);
    var u, l := use[free[0] := Kernel], free[1..];
    forall i | 0 <= i < |l|
      ensures ListedAt(mem, u, l, i)
    {
      assert ListedAt(mem, use, free, i + 1);
    }
    forall f | f in u && u[f] == Free
      ensures f in l
    {
      assert f in use && use[f] == Free && f in free;
    }
  }

  lemma PushListed(mem: Memory, use: Uses, free: seq<int>, head: int, f: int, i: nat)
    requires FreeList(mem, use, free, head) && f in use && use[f] != Free && 0 < f < |mem| && i <= |free|
    ensures ListedAt(mem[f := Junk(head)], use[f := Free], [f] + free, i)
    ensures i > 0 ==> free[i-1] != f
  {
    hide Junk;
    if i > 0 {
      assert ListedAt(mem, use, free, i - 1);
      assert AddressOf([f] + free, i + 1) == AddressOf(free, i);
    } else {
      assert AddressOf([f] + free, 1) == AddressOf(free, 0);
    }
  }

  /** kfree puts a frame in front of the list. */
  lemma PushOk(mem: Memory, use: Uses, free: seq<int>, head: int, f: int)
    requires FreeList(mem, use, free, head) && f in use && use[f] != Free && 0 < f < |mem|
    ensures FreeList(mem[f := Junk(head)], use[f := Free], [f] + free, f * PGSIZE)
  {
    var m, u, l := mem[f := Junk(head)], use[f := Free], [f] + free;
    hide Junk, ListedAt;
    forall i | 0 <= i < |l|
      ensures ListedAt(m, u, l, i) && (i > 0 ==> l[i] != f)
    {
      PushListed(mem, use, free, head, f, i);
    }
  }

  // ---- frames outside every page table ----

  predicate Loose(u: Use) {
    u == Free || u == Kernel
  }

  /** A table that a directory entry points to is a frame of its own. */
  lemma TableInUse(mem: Memory, use: Uses, d: int, i: int)
    requires Tabled(mem, use) && IsSlot(use, Table(d, i))
    ensures var t := TableOf(mem, d, i);
            t == 0 || (t in use && use[t] == Table(d, i) && 0 < t < |mem| && |mem[t]| == NENT)
  {
    assert SlotOk(mem, use, Table(d, i));
  }

  lemma LooseHeld(mem: Memory, use: Uses, f: int, p: Page, u: Use, s: Use)
    requires Tabled(mem, use) && f in use && Loose(use[f]) && Loose(u) && |p| == NENT && IsSlot(use, s)
    ensures Shaped(mem[f := p], use[f := u]) && IsSlot(use[f := u], s)
    ensures Held(mem[f := p], use[f := u], s) == Held(mem, use, s)
  {
    TableInUse(mem, use, s.d, s.i);
  }

  /** Loose frames may be written, allocated and freed. */
  lemma LooseOk(mem: Memory, use: Uses, f: int, p: Page, u: Use)
    requires Tabled(mem, use) && f in use && Loose(use[f]) && Loose(u) && |p| == NENT
    ensures Tabled(mem[f := p], use[f := u])
  {
    var m, us := mem[f := p], use[f := u];
    forall s | IsSlot(us, s)
      ensures SlotOk(m, us, s)
    {
      assert IsSlot(use, s) && SlotOk(mem, use, s);
      LooseHeld(mem, use, f, p, u, s);
    }
    forall g | g in us
      ensures FrameOk(m, us, g)
    {
      assert FrameOk(mem, use, g);
      if us[g].Table? || us[g].User? { LooseHeld(mem, use, f, p, u, us[g]); }
    }
  }

  // ---- directories, tables and pages ----

  /** A zeroed frame becomes a page directory. */
  lemma NewDirOk(mem: Memory, use: Uses, d: int)
    requires Tabled(mem, use) && d in use && use[d] == Kernel && mem[d] == Zeros()
    ensures Tabled(mem, use[d := Dir])
  {
    var us := use[d := Dir];
    forall s | IsSlot(us, s)
      ensures SlotOk(mem, us, s)
    {
      if s.d == d {
        assert TableOf(mem, d, s.i) == 0;
      } else {
        assert IsSlot(use, s) && SlotOk(mem, use, s);
      }
    }
    forall g | g in us
      ensures FrameOk(mem, us, g)
    {
      assert FrameOk(mem, use, g);
    }
  }

  /** walkpgdir's new table: zeroed, and entered in the directory. */
  function WithTable(mem: Memory, d: int, i: int, t: int, perm: int): (m: Memory)
    requires 0 <= d < |mem| && |mem[d]| == NENT && 0 <= i < NENT && 0 <= t < |mem| && t != d && 0 <= perm < PGSIZE
  {
    mem[t := Zeros()][d := mem[d][i := Pte(t, perm)]]
  }

  ghost predicate MayTable(mem: Memory, use: Uses, d: int, i: int, t: int) {
    && Tabled(mem, use) && IsSlot(use, Table(d, i)) && TableOf(mem, d, i) == 0
    && t in use && use[t] == Kernel
  }

  lemma TableHeld(mem: Memory, use: Uses, d: int, i: int, t: int, perm: int, s: Use)
    requires MayTable(mem, use, d, i, t) && 0 <= perm < PGSIZE && IsSlot(use, s)
    ensures t != d && Shaped(WithTable(mem, d, i, t, perm), use[t := Table(d, i)]) && IsSlot(use[t := Table(d, i)], s)
    ensures Held(WithTable(mem, d, i, t, perm), use[t := Table(d, i)], s)
         == if s == Table(d, i) then t else Held(mem, use, s)
  {
    TableInUse(mem, use, s.d, s.i);
  }

  lemma TableOk(mem: Memory, use: Uses, d: int, i: int, t: int, perm: int)
    requires MayTable(mem, use, d, i, t) && 0 <= perm < PGSIZE && Generous(Pte(t, perm))
    ensures t != d && Tabled(WithTable(mem, d, i, t, perm), use[t := Table(d, i)])
  {
    TableHeld(mem, use, d, i, t, perm, Table(d, i));
    var m, us := WithTable(mem, d, i, t, perm), use[t := Table(d, i)];
    forall s | IsSlot(us, s)
      ensures SlotOk(m, us, s)
    {
      assert IsSlot(use, s) && SlotOk(mem, use, s);
      TableHeld(mem, use, d, i, t, perm, s);
    }
    forall g | g in us
      ensures FrameOk(m, us, g)
    {
      assert FrameOk(mem, use, g);
      if g != t && (us[g].Table? || us[g].User?) { TableHeld(mem, use, d, i, t, perm, us[g]); }
    }
  }

  /** Entry j of the i-th table of d becomes e. */
  function WithEntry(mem: Memory, d: int, i: int, j: int, e: int): (m: Memory)
    requires 0 <= d < |mem| && |mem[d]| == NENT && 0 <= i < NENT && 0 <= j < NENT
    requires var t := TableOf(mem, d, i); 0 < t < |mem| && |mem[t]| == NENT
  {
    var t := TableOf(mem, d, i);
    mem[t := mem[t][j := e]]
  }

  lemma EntryHeld(mem: Memory, use: Uses, d: int, i: int, j: int, e: int, s: Use)
    requires Tabled(mem, use) && IsSlot(use, Table(d, i)) && TableOf(mem, d, i) != 0 && 0 <= j < NENT && IsSlot(use, s)
    ensures var t := TableOf(mem, d, i); 0 < t < |mem| && |mem[t]| == NENT
    ensures Shaped(WithEntry(mem, d, i, j, e), use)
    ensures Held(WithEntry(mem, d, i, j, e), use, s)
         == if s == User(d, i, j) then Target(e) else Held(mem, use, s)
  {
    TableInUse(mem, use, d, i);
    TableInUse(mem, use, s.d, s.i);
  }

  /** A kernel entry maps no frame of its own. */
  lemma KernelEntryOk(mem: Memory, use: Uses, d: int, i: int, j: int, e: int)
    requires Tabled(mem, use) && IsSlot(use, Table(d, i)) && TableOf(mem, d, i) != 0 && 0 <= j < NENT && i >= UTABLES
    ensures var t := TableOf(mem, d, i); 0 < t < |mem| && |mem[t]| == NENT
    ensures Tabled(WithEntry(mem, d, i, j, e), use)
  {
    TableInUse(mem, use, d, i);
    var m := WithEntry(mem, d, i, j, e);
    forall s | IsSlot(use, s)
      ensures SlotOk(m, use, s)
    {
      assert SlotOk(mem, use, s);
      EntryHeld(mem, use, d, i, j, e, s);
    }
    forall g | g in use
      ensures FrameOk(m, use, g)
    {
      assert FrameOk(mem, use, g);
      if use[g].Table? || use[g].User? { EntryHeld(mem, use, d, i, j, e, use[g]); }
    }
  }

  /** Mapping a user page: the frame becomes the slot's. */
  lemma MapOk(mem: Memory, use: Uses, d: int, i: int, j: int, f: int, perm: int)
    requires Tabled(mem, use) && IsSlot(use, User(d, i, j)) && TableOf(mem, d, i) != 0 && !Present(Entry(mem, d, i, j))
    requires f in use && use[f] == Kernel && 0 <= perm < PGSIZE
    ensures var t := TableOf(mem, d, i); 0 < t < |mem| && |mem[t]| == NENT
    ensures Tabled(WithEntry(mem, d, i, j, Pte(f, perm)), use[f := User(d, i, j)])
  {
    TableInUse(mem, use, d, i);
    var e := Pte(f, perm);
    var m, us := WithEntry(mem, d, i, j, e), use[f := User(d, i, j)];
    forall s | IsSlot(us, s)
      ensures SlotOk(m, us, s)
    {
      assert IsSlot(use, s) && SlotOk(mem, use, s);
      EntryHeld(mem, use, d, i, j, e, s);
      TableInUse(mem, use, s.d, s.i);
    }
    forall g | g in us
      ensures FrameOk(m, us, g)
    {
      assert FrameOk(mem, use, g);
      if us[g].Table? || us[g].User? { assert IsSlot(use, us[g]); EntryHeld(mem, use, d, i, j, e, us[g]); }
    }
  }

  /** Unmapping a user page: its frame is loose again. */
  lemma UnmapOk(mem: Memory, use: Uses, d: int, i: int, j: int)
    requires Tabled(mem, use) && IsSlot(use, User(d, i, j)) && Held(mem, use, User(d, i, j)) != 0
    ensures var t := TableOf(mem, d, i); 0 < t < |mem| && |mem[t]| == NENT
    ensures var f := FrameOf(Entry(mem, d, i, j));
            f in use && use[f] == User(d, i, j) && Tabled(WithEntry(mem, d, i, j, 0), use[f := Kernel])
  {
    assert SlotOk(mem, use, User(d, i, j));
    TableInUse(mem, use, d, i);
    var f := FrameOf(Entry(mem, d, i, j));
    var m, us := WithEntry(mem, d, i, j, 0), use[f := Kernel];
    forall s | IsSlot(us, s)
      ensures SlotOk(m, us, s)
    {
      assert IsSlot(use, s) && SlotOk(mem, use, s);
      EntryHeld(mem, use, d, i, j, 0, s);
      TableInUse(mem, use, s.d, s.i);
    }
    forall g | g in us
      ensures FrameOk(m, us, g)
    {
      assert FrameOk(mem, use, g);
      if us[g].Table? || us[g].User? { assert IsSlot(use, us[g]); EntryHeld(mem, use, d, i, j, 0, us[g]); }
    }
  }

  // ---- what one address space's operation leaves alone ----

  /** Frame f is directory d or is reached through it. */
  predicate Belongs(u: Use, f: int, d: int) {
    match u
    case Dir => f == d
    case Table(e, _) => e == d
    case User(e, _, _) => e == d
    case _ => false
  }

  /** Frame f, in use and not d's, keeps its use and its contents. */
  ghost predicate KeepsFrame(mem: Memory, use: Uses, mem': Memory, use': Uses, d: int, f: int)
    requires f in use
  {
    use[f] != Free && !Belongs(use[f], f, d) ==>
      f in use' && use'[f] == use[f] && 0 <= f < |mem| && f < |mem'| && mem'[f] == mem[f]
  }

  ghost predicate Keeps(mem: Memory, use: Uses, mem': Memory, use': Uses, d: int) {
    use'.Keys == use.Keys && |mem'| == |mem| && forall f :: f in use ==> KeepsFrame(mem, use, mem', use', d, f)
  }

  lemma KeepsTrans(m1: Memory, u1: Uses, m2: Memory, u2: Uses, m3: Memory, u3: Uses, d: int)
    requires Keeps(m1, u1, m2, u2, d) && Keeps(m2, u2, m3, u3, d)
    ensures Keeps(m1, u1, m3, u3, d)
  {
    forall f | f in u1
      ensures KeepsFrame(m1, u1, m3, u3, d, f)
    {
      assert KeepsFrame(m1, u1, m2, u2, d, f) && f in u2 && KeepsFrame(m2, u2, m3, u3, d, f);
    }
  }

  /** Only free frames have been given to d since u. */
  ghost predicate GrewAt(use: Uses, use': Uses, d: int, f: int) {
    f in use && f in use' && (use'[f] == use[f] || (use[f] == Free && Belongs(use'[f], f, d)))
  }

  ghost predicate Grew(use: Uses, use': Uses, d: int) {
    use'.Keys == use.Keys && forall f :: f in use ==> GrewAt(use, use', d, f)
  }

  /** All of d's frames given back. */
  function Released(use: Uses, d: int): (r: Uses)
    ensures r.Keys == use.Keys
  {
    map f | f in use :: if Belongs(use[f], f, d) then Free else use[f]
  }

  // ---- taking an address space apart ----

  /** Directory d and its tables as frames held by freevm. */
  function Orphaned(use: Uses, d: int): (r: Uses)
    ensures r.Keys == use.Keys
  {
    map f | f in use :: if Belongs(use[f], f, d) then Kernel else use[f]
  }

  lemma OrphanedOk(mem: Memory, use: Uses, d: int)
    requires Tabled(mem, use) && forall f :: f in use && use[f].User? ==> use[f].d != d
    ensures Tabled(mem, Orphaned(use, d))
  {
    var us := Orphaned(use, d);
    forall s | IsSlot(us, s)
      ensures SlotOk(mem, us, s)
    {
      assert IsSlot(use, s) && SlotOk(mem, use, s) && s.d != d;
    }
    forall g | g in us
      ensures FrameOk(mem, us, g)
    {
      assert FrameOk(mem, use, g);
    }
  }

  lemma OrphanedList(mem: Memory, use: Uses, free: seq<int>, head: int, d: int)
    requires FreeList(mem, use, free, head)
    ensures FreeList(mem, Orphaned(use, d), free, head)
  {
    var us := Orphaned(use, d);
    forall i | 0 <= i < |free|
      ensures ListedAt(mem, us, free, i)
    {
      assert ListedAt(mem, use, free, i);
    }
  }

  // ---- virtual pages ----

  const NPAGES: int := NENT * NENT
  const UPAGES: int := UTABLES * NENT   // pages below KERNBASE

  /** The entry of virtual page v in directory d when it is present, otherwise 0. */
  function PageEntry(mem: Memory, d: int, v: int): (r: int)
    requires 0 <= d < |mem| && |mem[d]| == NENT && 0 <= v < NPAGES
  {
    var e := Entry(mem, d, v / NENT, v % NENT);
    if Present(e) then e else 0
  }

  ghost predicate IsDir(mem: Memory, d: int) {
    0 <= d < |mem| && |mem[d]| == NENT
  }

  /** The whole address space of directory d: the entry of every virtual page. */
  ghost function PageMap(mem: Memory, d: int): (m: seq<int>)
    requires IsDir(mem, d)
    ensures |m| == NPAGES && forall v :: 0 <= v < NPAGES ==> m[v] == PageEntry(mem, d, v)
  {
    seq(NPAGES, v requires 0 <= v < NPAGES => PageEntry(mem, d, v))
  }

  lemma LooseMap(mem: Memory, use: Uses, f: int, p: Page, d: int)
    requires Tabled(mem, use) && f in use && Loose(use[f]) && |p| == NENT && d in use && use[d] == Dir
    ensures IsDir(mem, d) && IsDir(mem[f := p], d) && PageMap(mem[f := p], d) == PageMap(mem, d)
  {
    forall v | 0 <= v < NPAGES
      ensures PageEntry(mem[f := p], d, v) == PageEntry(mem, d, v)
    {
      TableInUse(mem, use, d, v / NENT);
    }
  }

  lemma TableMap(mem: Memory, use: Uses, d: int, i: int, t: int, perm: int)
    requires MayTable(mem, use, d, i, t) && 0 <= perm < PGSIZE
    ensures t != d && IsDir(mem, d) && IsDir(WithTable(mem, d, i, t, perm), d)
    ensures PageMap(WithTable(mem, d, i, t, perm), d) == PageMap(mem, d)
  {
    var m := WithTable(mem, d, i, t, perm);
    forall v | 0 <= v < NPAGES
      ensures PageEntry(m, d, v) == PageEntry(mem, d, v)
    {
      TableInUse(mem, use, d, v / NENT);
    }
  }

  lemma EntryMap(mem: Memory, use: Uses, d: int, v: int, e: int)
    requires Tabled(mem, use) && d in use && use[d] == Dir && 0 <= v < NPAGES
    requires IsDir(mem, d) && TableOf(mem, d, v / NENT) != 0 && (e == 0 || Present(e))
    ensures var t := TableOf(mem, d, v / NENT); 0 < t < |mem| && |mem[t]| == NENT && t != d
    ensures IsDir(WithEntry(mem, d, v / NENT, v % NENT, e), d)
    ensures PageMap(WithEntry(mem, d, v / NENT, v % NENT, e), d) == PageMap(mem, d)[v := e]
  {
    TableInUse(mem, use, d, v / NENT);
    var m := WithEntry(mem, d, v / NENT, v % NENT, e);
    forall w | 0 <= w < NPAGES
      ensures PageEntry(m, d, w) == PageMap(mem, d)[v := e][w]
    {
      TableInUse(mem, use, d, w / NENT);
    }
  }

  /** Pages first..last-1 of m mapped to consecutive frames. */
  function Filled(m: seq<int>, first: int, last: int, frame: int, perm: int): (r: seq<int>)
    requires 0 <= perm < PGSIZE
    ensures |r| == |m|
    ensures forall v :: 0 <= v < |m| ==> r[v] == if first <= v < last then Pte(frame + v - first, perm) else m[v]
  {
    seq(|m|, v requires 0 <= v < |m| => if first <= v < last then Pte(frame + v - first, perm) else m[v])
  }

  /** Pages first..last-1 of m unmapped. */
  function Unmapped(m: seq<int>, first: int, last: int): (r: seq<int>)
    ensures |r| == |m|
    ensures forall v :: 0 <= v < |m| ==> r[v] == if first <= v < last then 0 else m[v]
  {
    seq(|m|, v requires 0 <= v < |m| => if first <= v < last then 0 else m[v])
  }
}
