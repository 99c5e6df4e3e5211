/**
 The page allocator of kalloc.c and the page tables of vm.c, over physical memory.

 Frames are named by number: P2V and V2P are the identity here.  Virtual addresses are
 32-bit, and arithmetic on them wraps where the program's does.
 */
module Vm {
  import opened VmSpec
  import opened VmSteps
  import opened Common

  function PgRoundUp(a: int): (r: int) {
    (a + PGSIZE - 1) % UINT / PGSIZE * PGSIZE
  }

  /** The first page wholly at or above an address. */
  function FirstPage(a: int): (r: int) {
    (a + PGSIZE - 1) / PGSIZE
  }

  /** The page of the last byte of a mapping. */
  function LastPage(va: int, size: int): (r: int) {
    (va + size - 1) % UINT / PGSIZE
  }

  // ---- the kernel's mappings ----

  const EXTMEM: int := 0x10_0000
  const PHYSTOP: int := 0xE00_0000
  const DEVSPACE: int := 0xFE00_0000
  const KERNLINK: int := KERNBASE + EXTMEM

  datatype Row = Row(virt: int, start: int, end: int, perm: int)

  /** The linker puts `data` on a page boundary inside the kernel's image. */
  predicate DataAddress(data: int) {
    data % PGSIZE == 0 && KERNLINK < data < KERNBASE + PHYSTOP
  }

  function Kmap(data: int): (rows: seq<Row>)
    ensures |rows| == 4
  {
    [ Row(KERNBASE, 0, EXTMEM, PTE_W),
      Row(KERNLINK, EXTMEM, data - KERNBASE, 0),
      Row(data, data - KERNBASE, PHYSTOP, PTE_W),
      Row(DEVSPACE, DEVSPACE, 0, PTE_W) ]
  }

  /** An address space with the first k rows mapped, and nothing else. */
  ghost function KernelMap(data: int, k: nat): (m: seq<int>)
    requires k <= 4
    ensures |m| == NPAGES
  {
    if k == 0 then seq(NPAGES, _ => 0)
    else
      var r := Kmap(data)[k - 1];
      Filled(KernelMap(data, k - 1), r.virt / PGSIZE, LastPage(r.virt, (r.end - r.start) % UINT) + 1,
          r.start / PGSIZE, r.perm)
  }

  lemma NoRows(data: int)
    ensures KernelMap(data, 0) == KernelMap(0, 0)
  {
  }

  lemma NextRow(data: int, k: nat)
    requires k < 4
    ensures var r := Kmap(data)[k];
            KernelMap(data, k + 1)
            == Filled(KernelMap(data, k), r.virt / PGSIZE, LastPage(r.virt, (r.end - r.start) % UINT) + 1,
                r.start / PGSIZE, r.perm)
  {
  }

  /** The rows in pages: one after another, all above KERNBASE. */
  lemma RowAt(data: int, k: nat)
    requires DataAddress(data) && k < 4
    ensures var r := Kmap(data)[k];
            var size := (r.end - r.start) % UINT;
            && 0 <= r.virt <= (r.virt + size - 1) % UINT && r.virt < UINT && 0 <= size < UINT && r.start % PGSIZE == 0
            && 0 <= r.perm < PGSIZE && UPAGES <= r.virt / PGSIZE <= LastPage(r.virt, size) < NPAGES
            && (k < 3 ==> LastPage(r.virt, size) < Kmap(data)[k + 1].virt / PGSIZE)
  {
  }

  /** Above the first k rows nothing is mapped yet, so that mapping the next cannot panic. */
  lemma {:induction false} RowVacant(data: int, k: nat)
    requires DataAddress(data) && k < 4
    ensures forall v :: Kmap(data)[k].virt / PGSIZE <= v < NPAGES ==> KernelMap(data, k)[v] == 0
    ensures var r := Kmap(data)[k];
            Vacant(KernelMap(data, k), r.virt / PGSIZE, LastPage(r.virt, (r.end - r.start) % UINT) + 1)
  {
    if k > 0 {
      RowVacant(data, k - 1);
      RowAt(data, k - 1);
    }
  }

  /** setupkvm's address space: the user part is empty, and every row's pages are mapped to
      its physical range in order, with its permission. */
  lemma {:induction false} KernelMapped(data: int, k: nat, v: int)
    requires DataAddress(data) && k <= 4 && 0 <= v < NPAGES
    ensures v < UPAGES ==> KernelMap(data, k)[v] == 0
    ensures forall i :: 0 <= i < k && Kmap(data)[i].virt <= v * PGSIZE < Kmap(data)[i].virt + RowSize(data, i) ==>
              KernelMap(data, k)[v] == Pte(Kmap(data)[i].start / PGSIZE + v - Kmap(data)[i].virt / PGSIZE,
                  Kmap(data)[i].perm)
  {
    hide Pte;
    if k > 0 {
      KernelMapped(data, k - 1, v);
      RowAt(data, k - 1);
      forall i | 0 <= i < k && Kmap(data)[i].virt <= v * PGSIZE < Kmap(data)[i].virt + RowSize(data, i)
        ensures KernelMap(data, k)[v] == Pte(Kmap(data)[i].start / PGSIZE + v - Kmap(data)[i].virt / PGSIZE,
            Kmap(data)[i].perm)
      {
        RowsApart(data, i, k - 1);
      }
    }
  }

  /** The comment at the head of kmap, page by page: below PHYSTOP physical memory appears at
      KERNBASE, read-only between KERNLINK and data; devices appear where they are; user code
      may use none of it; and nothing else is mapped. */
  lemma KernelView(data: int, v: int)
    requires DataAddress(data) && 0 <= v < NPAGES
    ensures var e, a := KernelMap(data, 4)[v], v * PGSIZE;
            && (a < KERNBASE || KERNBASE + PHYSTOP <= a < DEVSPACE ==> e == 0)
            && (KERNBASE <= a < KERNBASE + PHYSTOP ==> Present(e) && FrameOf(e) * PGSIZE == a - KERNBASE)
            && (DEVSPACE <= a ==> Present(e) && FrameOf(e) * PGSIZE == a)
            && (Present(e) ==> FlagsOf(e) == if KERNLINK <= a < data then PTE_P else PTE_P + PTE_W)
  {
    hide Pte;
    hide KernelMap, LastPage;
    NoneMapped(data, v);
    RowView(data, 0, v);
    RowView(data, 1, v);
    RowView(data, 2, v);
    RowView(data, 3, v);
  }

  lemma NoneMapped(data: int, v: int)
    requires 0 <= v < NPAGES
    ensures KernelMap(data, 0)[v] == 0
  {
  }

  /** Where row k ends: the first three rows are adjacent. */
  function RowEnd(data: int, k: nat): (r: int)
    requires k < 4
  {
    if k == 0 then KERNLINK else if k == 1 then data else if k == 2 then KERNBASE + PHYSTOP else UINT
  }

  lemma RowView(data: int, k: nat, v: int)
    requires DataAddress(data) && k < 4 && 0 <= v < NPAGES
    ensures var r := Kmap(data)[k];
            0 <= r.perm < PGSIZE
            && KernelMap(data, k + 1)[v] == if r.virt <= v * PGSIZE < RowEnd(data, k)
               then Pte((r.start + v * PGSIZE - r.virt) / PGSIZE, r.perm) else KernelMap(data, k)[v]
  {
    hide Pte, KernelMap;
    NextRow(data, k);
  }

  function RowSize(data: int, i: nat): (r: int)
    requires i < 4
  {
    (Kmap(data)[i].end - Kmap(data)[i].start) % UINT
  }

  lemma RowsApart(data: int, i: nat, k: nat)
    requires DataAddress(data) && i <= k < 4
    ensures var r, q := Kmap(data)[i], Kmap(data)[k];
            && LastPage(r.virt, RowSize(data, i)) == (r.virt + RowSize(data, i)) / PGSIZE - 1
            && (r.virt + RowSize(data, i)) % PGSIZE == 0 && r.virt % PGSIZE == 0
            && (i < k ==> r.virt + RowSize(data, i) <= q.virt)
  {
  }

  datatype MapResult = Mapped | NoMemory | Remap

  class Machine {
    var mem: Memory
    var freelist: int           // address of the first free page, 0 when there is none
    ghost var free: seq<int>
    ghost var use: Uses

    constructor (m: Memory, head: int, ghost fr: seq<int>, ghost u: Uses)
      requires Sound(m, u, fr, head)
      ensures Valid() && mem == m && freelist == head && free == fr && use == u
    {
      mem, freelist, free, use := m, head, fr, u;
    }

    ghost predicate Valid()
      reads this
    {
      Sound(mem, use, free, freelist)
    }

    ghost predicate DirAt(d: int)
      reads this
    {
      Valid() && d in use && use[d] == Dir && IsDir(mem, d)
    }

    /** Frames on the free list and in d's tables: making a table keeps it. */
    ghost function Supply(d: int): (r: nat)
      requires 0 <= d < |mem|
      reads this
    {
      |free| + TableCount(mem[d])
    }

    // ---- kalloc.c ----

    /** kalloc: a free frame, or 0. */
    method Kalloc() returns (f: int)
      requires Valid()
      modifies this`freelist, this`free, this`use
      ensures Valid()
      ensures old(free) == [] ==> f == 0 && use == old(use) && free == old(free) && freelist == old(freelist)
      ensures old(free) != [] ==>
                && f == old(free)[0] && f in old(use) && old(use)[f] == Free && 0 < f < |mem| && |mem[f]| == NENT
                && use == old(use)[f := Kernel] && free == old(free)[1..]
    {
      hide Tabled, FreeList;
      if free != [] {
        PopHead(mem, use, free, freelist);
        PopOk(mem, use, free, freelist);
        LooseOk(mem, use, free[0], mem[free[0]], Kernel);
        SameMemory(mem, free[0]);
      } else {
        EmptyHead(mem, use, free, freelist);
      }
      f := freelist / PGSIZE;
      if freelist != 0 {
        freelist := mem[f][0];
        use := use[f := Kernel];
        free := free[1..];
      }
    }

    /** kfree: filled with junk and put on the list. */
    method Kfree(f: int)
      requires Valid() && f in use && use[f] != Free
      modifies this
      ensures 0 < f < |old(mem)| && mem == old(mem)[f := Junk(old(freelist))]
      ensures use == old(use)[f := Free] && free == [f] + old(free) && freelist == f * PGSIZE
      ensures FreeList(mem, use, free, freelist)
      ensures old(use)[f] == Kernel ==> Valid()
    {
      hide Tabled, FreeList, Junk;
      InRange(mem, use, f);
      PushOk(mem, use, free, freelist, f);
      if use[f] == Kernel { LooseOk(mem, use, f, Junk(freelist), Free); }
      mem := mem[f := Junk(freelist)];
      freelist := f * PGSIZE;
      use := use[f := Free];
      free := [f] + free;
    }

    /** freerange: every whole page of [start, end) becomes free. */
    method Freerange(start: int, end: int)
      requires Valid() && 0 <= start && start + PGSIZE <= UINT && end + PGSIZE < UINT
      requires forall f :: FirstPage(start) <= f < end / PGSIZE ==> f in use && use[f] == Kernel
      modifies this
      ensures Valid()
      ensures |free| == |old(free)| + if FirstPage(start) <= end / PGSIZE then end / PGSIZE - FirstPage(start) else 0
      ensures use == WithFree(old(use), FirstPage(start), end / PGSIZE)
    {
      hide Tabled, FreeList, WithFree, Junk;
      var p := PgRoundUp(start);
      ghost var f, first, u0 := FirstPage(start), FirstPage(start), use;
      WithNone(use, f, end / PGSIZE);
      while p + PGSIZE <= end
        invariant Valid() && p == f * PGSIZE && first <= f && (f <= end / PGSIZE || f == first)
        invariant use == WithFree(u0, first, f) && |free| == |old(free)| + f - first
        invariant f <= end / PGSIZE || use == WithFree(u0, first, end / PGSIZE)
        decreases end - p
      {
        WithNext(u0, first, f);
        Kfree(p / PGSIZE);
        p := p + PGSIZE;
        f := f + 1;
      }
    }

    // ---- vm.c: one page ----

    /** walkpgdir: the frame of the table for virtual page v, made if `alloc` asks for it; 0
        when there is none. */
    method Walkpgdir(d: int, v: int, alloc: bool) returns (t: int)
      requires DirAt(d) && 0 <= v < NPAGES
      modifies this
      ensures DirAt(d) && PageMap(mem, d) == PageMap(old(mem), d)
      ensures t == 0 ==> mem == old(mem) && use == old(use) && free == old(free) && freelist == old(freelist)
      ensures t == 0 <==> TableOf(old(mem), d, v / NENT) == 0 && (!alloc || old(free) == [])
      ensures t == TableOf(mem, d, v / NENT)
      ensures TableOf(old(mem), d, v / NENT) != 0 || !alloc ==>
                mem == old(mem) && use == old(use) && free == old(free) && freelist == old(freelist)
      ensures Keeps(old(mem), old(use), mem, use, d) && Grew(old(use), use, d)
      ensures SameUsers(old(mem), old(use), mem, use) && SameUsers(mem, use, old(mem), old(use))
      ensures KernelKept(old(mem), old(use), mem, use)
      ensures Supply(d) == old(Supply(d)) && (t == 0 ==> TableCount(mem[d]) < NENT)
    {
      hide Tabled, FreeList, PageMap, Pte, Keeps, Grew, SameUsers, KernelKept, TableCount;
      var i := v / NENT;
      CountAbsent(mem[d], i);
      if mem[d][i] % 2 == 1 {
        TableSlotUsed(mem, use, d, i);
        KeepsRefl(mem, use, d);
        return mem[d][i] / PGSIZE;
      }
      if !alloc { KeepsRefl(mem, use, d); return 0; }
      ghost var m0, u0 := mem, use;
      t := Kalloc();
      if t == 0 { KeepsRefl(mem, use, d); return 0; }
      StillNoTable(m0, u0, use, mem, d, i, t);
      TableOk(mem, use, d, i, t, PTE_W + PTE_U);
      TableMap(mem, use, d, i, t, PTE_W + PTE_U);
      TableKeeps(m0, u0, mem, use, d, i, t, PTE_W + PTE_U);
      TableList(mem, use, free, freelist, d, i, t, PTE_W + PTE_U);
      CountMore(mem[d], i, Pte(t, PTE_W + PTE_U));
      mem := mem[t := Zeros()];
      mem := mem[d := mem[d][i := Pte(t, PTE_W + PTE_U)]];
      use := use[t := Table(d, i)];
    }

    /** One round of mappages' loop: page v, which in the user part takes over a frame of the
        kernel's. */
    method MapPage(d: int, v: int, f: int, perm: int) returns (r: MapResult)
      requires DirAt(d) && 0 <= v < NPAGES && 0 <= perm < PGSIZE
      requires v < UPAGES ==> f in use && use[f] == Kernel
      modifies this
      ensures DirAt(d)
      ensures r == Remap <==> PageMap(old(mem), d)[v] != 0
      ensures PageMap(mem, d) == if r == Mapped then PageMap(old(mem), d)[v := Pte(f, perm)] else PageMap(old(mem), d)
      ensures r == NoMemory ==> mem == old(mem) && use == old(use) && free == old(free) && freelist == old(freelist)
      ensures r == NoMemory ==> free == []
      ensures r == Mapped ==> Extends(old(mem), Given(old(use), v, f), mem, use, d)
      ensures SameUsers(old(mem), old(use), mem, use)
      ensures r == Mapped && v < UPAGES ==> TakenOver(old(mem), mem, use, f, d, v)
      ensures Supply(d) == old(Supply(d)) && (r == NoMemory ==> TableCount(mem[d]) < NENT)
    {
      hide TableCount, Tabled, FreeList, PageMap, Keeps, Grew, SameUsers, KernelKept, Given, Pte;
      ghost var m0, u0 := mem, use;
      if v < UPAGES { InRange(mem, use, f); }
      var t := Walkpgdir(d, v, true);
      if t == 0 { KeepsRefl(mem, use, d); NoTableNoPage(mem, d, v); return NoMemory; }
      TableSlotUsed(mem, use, d, v / NENT);
      if v < UPAGES { KernelKeptOne(m0, u0, mem, use, f); }
      if mem[t][v % NENT] % 2 == 1 { return Remap; }
      PutEntry(d, v, t, f, perm, m0, u0);
      r := Mapped;
    }

    /** *pte = pa | perm | PTE_P. */
    method PutEntry(d: int, v: int, t: int, f: int, perm: int, ghost m0: Memory, ghost u0: Uses)
      requires DirAt(d) && 0 <= v < NPAGES && 0 <= perm < PGSIZE && PageMap(mem, d)[v] == 0
      requires t == TableOf(mem, d, v / NENT) && t != 0
      requires v < UPAGES ==> f in use && use[f] == Kernel
      requires Keeps(m0, u0, mem, use, d) && Grew(u0, use, d) && SameUsers(m0, u0, mem, use)
      modifies this`mem, this`use
      ensures DirAt(d) && PageMap(mem, d) == PageMap(old(mem), d)[v := Pte(f, perm)]
      ensures Keeps(m0, Given(u0, v, f), mem, use, d) && Grew(Given(u0, v, f), use, d)
      ensures SameUsers(m0, u0, mem, use) && mem[d] == old(mem)[d]
      ensures v < UPAGES ==>
                f in use && use[f] == User(d, v / NENT, v % NENT) && 0 < f < |old(mem)| && f < |mem|
                    && mem[f] == old(mem)[f]
    {
      hide Tabled, FreeList, PageMap, Keeps, Grew, SameUsers, Given, Pte;
      TableSlotUsed(mem, use, d, v / NENT);
      if v < UPAGES { InRange(mem, use, f); }
      EntryMap(mem, use, d, v, Pte(f, perm));
      NotListed(mem, use, free, freelist, t);
      FreeListKeeps(mem, use, free, freelist, t, mem[t][v % NENT := Pte(f, perm)]);
      PutOk(mem, use, d, v, f, perm);
      PutKeeps(m0, u0, mem, use, d, v, t, f, perm);
      mem := mem[t := mem[t][v % NENT := Pte(f, perm)]];
      if v < UPAGES {
        FreeListReuse(mem, use, free, freelist, f, User(d, v / NENT, v % NENT));
        use := use[f := User(d, v / NENT, v % NENT)];
      }
    }

    /** One round of mappages, for page v of the range. */
    method MapNext(d: int, v: int, f: int, perm: int,
                   ghost m0: Memory, ghost u0: Uses, ghost first: int, ghost last: int,
                       ghost frame: int) returns (r: MapResult)
      requires DirAt(d) && 0 <= first <= v <= last < NPAGES && 0 <= perm < PGSIZE && f == frame + v - first
      requires IsDir(m0, d)
      requires PageMap(mem, d) == Filled(PageMap(m0, d), first, v, frame, perm) && Vacant(PageMap(m0, d), first, v)
      requires first < UPAGES ==> mem == m0 && use == u0 && v == first == last && frame in use && use[frame] == Kernel
      requires first >= UPAGES ==> Extends(m0, u0, mem, use, d)
      requires SameUsers(m0, u0, mem, use)
      modifies this
      ensures DirAt(d) && SameUsers(m0, u0, mem, use)
      ensures r == Mapped ==>
                PageMap(mem, d) == Filled(PageMap(m0, d), first, v + 1, frame, perm)
                    && Vacant(PageMap(m0, d), first, v + 1)
      ensures r == Remap ==> !Vacant(PageMap(m0, d), first, last + 1)
      ensures r == NoMemory ==> mem == old(mem) && use == old(use) && free == old(free) && freelist == old(freelist)
      ensures r == Mapped ==> Extends(m0, Given(u0, first, frame), mem, use, d)
      ensures r == Mapped && v < UPAGES ==> TakenOver(old(mem), mem, use, f, d, v)
      ensures Supply(d) == old(Supply(d)) && (r == NoMemory ==> free == [] && TableCount(mem[d]) < NENT)
    {
      hide TableCount, Tabled, FreeList, PageMap, Extends, SameUsers, Given, Pte, Filled, LastPage, Vacant, TakenOver;
      ghost var m1, u1 := mem, use;
      NextVacant(PageMap(m0, d), first, v, last + 1);
      NextFilled(PageMap(m0, d), first, v, frame, perm);
      KernelGiven(u0, first, frame);
      r := MapPage(d, v, f, perm);
      SameUsersTrans(m0, u0, m1, u1, mem, use);
      if r == Mapped { KernelStep(m0, u0, m1, u1, mem, use, d, v, f); }
    }

    /** mappages.  The range is either in the kernel part or one user page, whose frame the
        caller has just allocated. */
    method Mappages(d: int, va: int, size: int, pa: int, perm: int) returns (r: MapResult)
      requires DirAt(d) && 0 <= perm < PGSIZE && pa % PGSIZE == 0
      requires 0 <= va < UINT && 0 <= size < UINT && va <= (va + size - 1) % UINT
      requires var first, last := va / PGSIZE, LastPage(va, size);
               first >= UPAGES || (first == last && pa / PGSIZE in use && use[pa / PGSIZE] == Kernel)
      modifies this
      ensures DirAt(d)
      ensures r == Mapped ==>
                PageMap(mem, d) == Filled(PageMap(old(mem), d), va / PGSIZE, LastPage(va, size) + 1, pa / PGSIZE, perm)
      ensures r == Mapped ==> Vacant(PageMap(old(mem), d), va / PGSIZE, LastPage(va, size) + 1)
      ensures r == Remap ==> !Vacant(PageMap(old(mem), d), va / PGSIZE, LastPage(va, size) + 1)
      ensures r == NoMemory && va / PGSIZE < UPAGES ==>
                mem == old(mem) && use == old(use) && free == old(free) && freelist == old(freelist)
      ensures r == Mapped || (r == NoMemory && va / PGSIZE >= UPAGES) ==>
                Extends(old(mem), Given(old(use), va / PGSIZE, pa / PGSIZE), mem, use, d)
      ensures SameUsers(old(mem), old(use), mem, use)
      ensures r == Mapped && va / PGSIZE < UPAGES ==> TakenOver(old(mem), mem, use, pa / PGSIZE, d, va / PGSIZE)
      ensures Supply(d) == old(Supply(d)) && (r == NoMemory ==> free == [] && TableCount(mem[d]) < NENT)
    {
      hide TableCount, Tabled, FreeList, PageMap, Extends, SameUsers, Given, Pte, Filled, LastPage, Vacant, TakenOver;
      ghost var m0, u0 := mem, use;
      ghost var first, last, frame := va / PGSIZE, LastPage(va, size), pa / PGSIZE;
      var a, end := va / PGSIZE * PGSIZE, (va + size - 1) % UINT / PGSIZE * PGSIZE;
      var p := pa;
      AlignedRange(va, size);
      KernelGiven(use, first, frame);
      NoneFilled(PageMap(mem, d), first, last, frame, perm);
      ExtendsRefl(mem, use, d);
      ghost var v := first;
      while true
        invariant DirAt(d) && first <= v <= last && a == v * PGSIZE && p == (frame + v - first) * PGSIZE
        invariant PageMap(mem, d) == Filled(PageMap(m0, d), first, v, frame, perm)
        invariant Vacant(PageMap(m0, d), first, v)
        invariant first < UPAGES ==>
                  mem == m0 && use == u0 && free == old(free) && freelist == old(freelist) && v == last
        invariant first >= UPAGES ==> Extends(m0, u0, mem, use, d)
        invariant SameUsers(m0, u0, mem, use) && Supply(d) == old(Supply(d))
        decreases last - v
      {
        ExactPage(v);
        ExactPage(frame + v - first);
        r := MapNext(d, a / PGSIZE, p / PGSIZE, perm, m0, u0, first, last, frame);
        if r != Mapped { break; }
        if a == end { break; }
        a := a + PGSIZE;
        p := p + PGSIZE;
        v := v + 1;
      }
    }

    /** One step of deallocuvm: a present page's frame is freed and its entry cleared. */
    method DropPage(d: int, v: int, t: int)
      requires DirAt(d) && 0 <= v < UPAGES && PageEntry(mem, d, v) != 0 && t == TableOf(mem, d, v / NENT)
      modifies this
      ensures DirAt(d) && PageMap(mem, d) == old(PageMap(mem, d))[v := 0]
      ensures FrameOf(old(PageEntry(mem, d, v))) in old(use)
      ensures use == old(use)[FrameOf(old(PageEntry(mem, d, v))) := Free]
      ensures Keeps(old(mem), old(use), mem, use, d) && SameUsers(mem, use, old(mem), old(use))
    {
      hide Tabled, FreeList, PageMap, Keeps, Grew, SameUsers, Junk;
      UserFrame(mem, use, d, v);
      var pa := mem[t][v % NENT] / PGSIZE;   // not 0: no panic
      DropOk(mem, use, d, v, Junk(freelist));
      DropKeeps(mem, use, d, t, v % NENT, pa, Junk(freelist));
      ghost var m, u, l, h := mem, use, free, freelist;
      Kfree(pa);
      DropList(m, u, l, h, t, v % NENT, pa);
      mem := mem[t := mem[t][v % NENT := 0]];
    }

    /** One round of deallocuvm's loop, at the page of address a: the page it names or, without
        a table, the rest of that table's 4 MB.  Returns the last page passed. */
    method DeallocPage(d: int, oldsz: int, a: int, lo: int, ghost m0: Memory, ghost u0: Uses) returns (b: int)
      requires DirAt(d) && 0 <= a < oldsz <= KERNBASE && a % PGSIZE == 0 && 0 <= lo * PGSIZE <= a
      requires IsDir(m0, d) && Slotted(u0)
      requires PageMap(mem, d) == Unmapped(PageMap(m0, d), lo, a / PGSIZE)
      requires use == Dropped(u0, d, lo, a / PGSIZE)
      modifies this
      ensures DirAt(d) && a <= b && b % PGSIZE == 0
      ensures PageMap(mem, d) == Unmapped(PageMap(m0, d), lo, Min(b / PGSIZE + 1, FirstPage(oldsz)))
      ensures use == Dropped(u0, d, lo, Min(b / PGSIZE + 1, FirstPage(oldsz)))
      ensures Keeps(old(mem), old(use), mem, use, d) && SameUsers(mem, use, old(mem), old(use))
    {
      hide Tabled, FreeList, PageMap, Keeps, Grew, SameUsers, Unmapped, Dropped, KernelKept;
      b := a;
      ghost var v := a / PGSIZE;
      VisitRange(a, oldsz);
      var t := Walkpgdir(d, a / PGSIZE, false);
      if t == 0 {
        b := (a / (NENT * PGSIZE) + 1) * (NENT * PGSIZE) - PGSIZE;
        SkipRange(a, oldsz);
        SkipTable(mem, use, u0, PageMap(m0, d), d, lo, v, Min(b / PGSIZE + 1, FirstPage(oldsz)));
      } else {
        TableSlotUsed(mem, use, d, a / PGSIZE / NENT);
        if mem[t][a / PGSIZE % NENT] % 2 == 1 {
          NextDropped(mem, use, u0, PageMap(m0, d), d, lo, v);
          DropPage(d, a / PGSIZE, t);
        } else {
          SkipPage(mem, use, u0, PageMap(m0, d), d, lo, v);
          KeepsRefl(mem, use, d);
        }
      }
    }

    /** deallocuvm for a size up to KERNBASE: exactly the pages from the new size up to the old
        are unmapped and their frames freed, whatever the skipping over absent tables. */
    method Deallocuvm(d: int, oldsz: int, newsz: int) returns (sz: int)
      requires DirAt(d) && 0 <= oldsz <= KERNBASE && 0 <= newsz < UINT
      modifies this
      ensures DirAt(d)
      ensures sz == if newsz < oldsz then newsz else oldsz
      ensures PageMap(mem, d) == Unmapped(old(PageMap(mem, d)), FirstPage(newsz), FirstPage(oldsz))
      ensures use == Dropped(old(use), d, FirstPage(newsz), FirstPage(oldsz))
      ensures Keeps(old(mem), old(use), mem, use, d) && SameUsers(mem, use, old(mem), old(use))
    {
      hide Tabled, FreeList, PageMap, Keeps, Grew, SameUsers, Unmapped, Dropped, KernelKept;
      if newsz >= oldsz {
        DeallocNothing(mem, use, d, oldsz, newsz);
        return oldsz;
      }
      ghost var m0, u0 := mem, use;
      var lo, hi := FirstPage(newsz), FirstPage(oldsz);
      var a := PgRoundUp(newsz);
      UpFrom(newsz, oldsz);
      TabledSlotted(mem, use);
      KeepsRefl(mem, use, d);
      NoneYet(mem, use, d, lo);
      while a < oldsz
        invariant DirAt(d) && a % PGSIZE == 0 && lo * PGSIZE <= a
        invariant IsDir(m0, d) && Slotted(u0)
        invariant PageMap(mem, d) == Unmapped(PageMap(m0, d), lo, Min(a / PGSIZE, hi))
        invariant use == Dropped(u0, d, lo, Min(a / PGSIZE, hi))
        invariant Keeps(m0, u0, mem, use, d) && SameUsers(mem, use, m0, u0)
        decreases oldsz - a
      {
        VisitRange(a, oldsz);
        ghost var m1, u1 := mem, use;
        a := DeallocPage(d, oldsz, a, lo, m0, u0);
        KeepsTrans(m0, u0, m1, u1, mem, use, d);
        SameUsersTrans(mem, use, m1, u1, m0, u0);
        a := a + PGSIZE;
      }
      AtEnd(a, oldsz);
      sz := newsz;
    }

    // ---- vm.c: address spaces ----

    /** freevm: every frame of the address space is free afterwards, and nothing else changed. */
    method Freevm(d: int)
      requires DirAt(d)
      modifies this
      ensures Valid() && use == Released(old(use), d)
      ensures Keeps(old(mem), old(use), mem, use, d)
    {
      hide Tabled, FreeList, PageMap, Keeps, Grew, SameUsers, Unmapped, Dropped, Orphaned, Torn, Released, Junk;
      ghost var m0, u0 := mem, use;
      var sz := Deallocuvm(d, KERNBASE, 0);
      ghost var m1, u1 := mem, use;
      NoUserPages(m0, u0, u1, d);
      OrphanedOk(mem, use, d);
      OrphanedList(mem, use, free, freelist, d);
      StartTearing(mem, use, d);
      use := Orphaned(use, d);
      var i := 0;
      while i < NENT
        invariant 0 <= i <= NENT && Valid() && IsDir(mem, d) && IsDir(m1, d) && mem[d] == m1[d]
        invariant use == Torn(u1, d, i) && Keeps(m1, u1, mem, use, d)
      {
        TearOne(m1, u1, d, i);
        if mem[d][i] % 2 == 1 {
          var t := mem[d][i] / PGSIZE;
          ghost var m2, u2, h2 := mem, use, freelist;
          Kfree(t);
          TornKeeps(m1, u1, m2, u2, d, i, t, Junk(h2));
        }
        i := i + 1;
      }
      TornAll(m0, u0, m1, u1, mem, d, Junk(freelist));
      Kfree(d);
    }

    /** setupkvm: a directory with the kernel's mappings and no user pages, or 0. */
    method Setupkvm(data: int) returns (d: int)
      requires Valid() && DataAddress(data)
      modifies this
      ensures Valid() && AllKept(old(mem), old(use), mem, use)
      ensures d == 0 ==> use == old(use) && |old(free)| <= NENT
      ensures d != 0 ==> DirAt(d) && PageMap(mem, d) == KernelMap(data, 4) && Supply(d) == |old(free)| - 1
      ensures d != 0 ==> d in old(use) && old(use)[d] == Free && Extends(old(mem), old(use)[d := Dir], mem, use, d)
    {
      hide TableCount, Tabled, FreeList, PageMap, Extends, SameUsers, KernelMap, AllKept, Filled, Vacant, LastPage,
          Given;
      ghost var m0, u0 := mem, use;
      AllKeptRefl(mem, use);
      d := NewDirectory();
      if d == 0 { return; }
      ghost var m1, u1 := mem, use;
      ExtendsRefl(mem, use, d);
      NoRows(data);
      var k := 0;
      while k < 4
        invariant 0 <= k <= 4 && DirAt(d) && PageMap(mem, d) == KernelMap(data, k)
        invariant Extends(m1, u1, mem, use, d) && Supply(d) == |old(free)| - 1
      {
        var r := Kmap(data)[k];
        ghost var m2, u2 := mem, use;
        RowAt(data, k);
        RowVacant(data, k);
        KernelGiven(use, r.virt / PGSIZE, r.start / PGSIZE);
        var ok := Mappages(d, r.virt, (r.end - r.start) % UINT, r.start, r.perm);
        NextRow(data, k);
        ExtendsTrans(m1, u1, m2, u2, mem, use, d);
        if ok != Mapped {
          ghost var m3, u3 := mem, use;
          Freevm(d);
          SetupUndone(m0, u0, m1, u1, m3, u3, mem, use, d);
          return 0;
        }
        k := k + 1;
      }
      SetupKept(m0, u0, m1, u1, mem, use, d);
    }

    /** kalloc and memset for a page directory. */
    method NewDirectory() returns (d: int)
      requires Valid()
      modifies this
      ensures d == 0 ==> Valid() && mem == old(mem) && use == old(use) && old(free) == []
      ensures d != 0 ==>
                && DirAt(d) && PageMap(mem, d) == KernelMap(0, 0)
                && d in old(use) && old(use)[d] == Free && 0 < d < |old(mem)|
                && mem == old(mem)[d := Zeros()] && use == old(use)[d := Dir] && Supply(d) == |old(free)| - 1
    {
      hide Tabled, FreeList, PageMap, TableCount;
      d := Kalloc();
      if d == 0 { return; }
      Fill(d, Zeros());
      NewDirOk(mem, use, d);
      FreeListReuse(mem, use, free, freelist, d, Dir);
      EmptyDirectory(mem, d);
      CountNone(Zeros());
      use := use[d := Dir];
    }

    /** memset and memmove on a page that kalloc returned. */
    method Fill(f: int, p: Page)
      requires Valid() && f in use && use[f] == Kernel && |p| == NENT
      modifies this`mem
      ensures 0 < f < |old(mem)| && mem == old(mem)[f := p] && Valid()
    {
      hide Tabled, FreeList;
      InRange(mem, use, f);
      NotListed(mem, use, free, freelist, f);
      FreeListKeeps(mem, use, free, freelist, f, p);
      LooseOk(mem, use, f, p, Kernel);
      SameUses(use, f);
      mem := mem[f := p];
    }

    /** kalloc, the page's contents, and mappages: a new user page, or nothing.  Returns the
        frame, 0 when kalloc had none. */
    method NewPage(d: int, a: int, p: Page, perm: int) returns (f: int, r: MapResult)
      requires DirAt(d) && 0 <= a < KERNBASE && a % PGSIZE == 0 && PageMap(mem, d)[a / PGSIZE] == 0
      requires |p| == NENT && 0 <= perm < PGSIZE
      modifies this
      ensures DirAt(d) && r != Remap
      ensures f == 0 ==>
                mem == old(mem) && use == old(use) && free == [] && Supply(d) == old(Supply(d)) && r == NoMemory
      ensures f != 0 ==> f in old(use) && old(use)[f] == Free && 0 < f < |old(mem)|
      ensures f != 0 && r == NoMemory ==>
                && mem == old(mem)[f := p] && use == old(use)[f := Kernel] && PageMap(mem, d) == PageMap(old(mem), d)
                && free == []
      ensures f != 0 ==> Supply(d) == old(Supply(d)) - 1 && (r == NoMemory ==> TableCount(mem[d]) < NENT)
      ensures r == Mapped ==> f != 0 && NewlyMapped(old(mem), old(use), mem, use, d, a / PGSIZE, f, p, perm)
    {
      hide Tabled, FreeList, PageMap, Extends, Given, Filled, LastPage, Vacant, TableCount, SameUsers, TakenOver;
      ghost var m0, u0 := mem, use;
      InDirectory(mem, use, d);
      r := NoMemory;
      f := Kalloc();
      if f == 0 { return; }
      Fill(f, p);
      LooseMap(m0, u0, f, p, d);
      OnePage(a, f);
      ghost var m1, u1 := mem, use;
      OneVacant(PageMap(mem, d), a / PGSIZE);
      r := Mappages(d, a, PGSIZE, f * PGSIZE, perm);
      NewPageOk(m0, u0, m1, u1, mem, use, d, a / PGSIZE, f, p, perm, r == Mapped);
    }

    /** allocuvm.  On success the new pages are mapped to zeroed frames of their own, which user
        code may read and write, and the rest is as before; otherwise the address space is as
        before, and of the frames taken only page tables are kept. */
    method Allocuvm(d: int, oldsz: int, newsz: int) returns (sz: int)
      requires DirAt(d) && 0 <= oldsz < UINT && 0 <= newsz < UINT
      requires Vacant(PageMap(mem, d), FirstPage(oldsz), FirstPage(newsz))
      modifies this
      ensures DirAt(d)
      ensures newsz >= KERNBASE ==> sz == 0
      ensures newsz < KERNBASE && newsz < oldsz ==> sz == oldsz
      ensures newsz < KERNBASE && newsz >= oldsz ==> sz == newsz || sz == 0
      ensures newsz >= KERNBASE || newsz < oldsz ==> mem == old(mem) && use == old(use)
      ensures newsz < KERNBASE && newsz >= oldsz && sz == newsz ==>
                && Grown(mem, PageMap(old(mem), d), PageMap(mem, d), FirstPage(oldsz), FirstPage(newsz))
                && Extends(old(mem), old(use), mem, use, d) && UserOwned(mem, d, FirstPage(oldsz), FirstPage(newsz))
      ensures newsz < KERNBASE && newsz >= oldsz && sz != newsz ==>
                && PageMap(mem, d) == PageMap(old(mem), d) && TablesOnly(old(use), use, d)
                && Keeps(old(mem), old(use), mem, use, d)
                && old(Supply(d)) < NENT + FirstPage(newsz) - FirstPage(oldsz)
      ensures SameUsers(old(mem), old(use), mem, use)
    {
      hide Tabled, FreeList, PageMap, Extends, Vacant, TableCount, SameUsers, Grown, Keeps, TablesOnly, Dropped,
          Unmapped, NewlyMapped, FirstPage;
      KeepsRefl(mem, use, d);
      if newsz >= KERNBASE { return 0; }
      if newsz < oldsz { return oldsz; }
      ghost var m0, u0, lo, hi := mem, use, FirstPage(oldsz), FirstPage(newsz);
      UpToSize(oldsz, newsz);
      ExtendsRefl(mem, use, d);
      StartGrowing(mem, d, lo);
      var a := PgRoundUp(oldsz);
      ghost var v := lo;
      while a < newsz
        invariant 0 <= lo <= v <= hi <= UPAGES && a == v * PGSIZE && DirAt(d)
        invariant Grown(mem, PageMap(m0, d), PageMap(mem, d), lo, v)
        invariant Extends(m0, u0, mem, use, d) && SameUsers(m0, u0, mem, use)
        invariant Supply(d) + v - lo == old(Supply(d))
        decreases hi - v
      {
        PageBelow(v, newsz);
        StillVacant(mem, PageMap(m0, d), PageMap(mem, d), lo, v, hi);
        CountAbsent(mem[d], 0);
        ghost var m1, u1 := mem, use;
        var f, r := NewPage(d, a, Zeros(), PTE_W + PTE_U);
        if f == 0 {
          sz := GrowFailed(d, newsz, oldsz, v, m0, u0);
          return;
        }
        if r != Mapped {
          sz := GrowFailedHolding(d, newsz, oldsz, v, f, m0, u0, m1, u1);
          return;
        }
        GrownNext(m0, m1, u1, mem, use, d, lo, v, f);
        TransFromNew(m0, u0, m1, u1, mem, use, d, v, f);
        a := a + PGSIZE;
        v := v + 1;
      }
      PageBelow(v, newsz);
      GrownForUsers(mem, use, PageMap(m0, d), d, lo, v);
      sz := newsz;
    }

    /** Out of memory before the page's frame was found. */
    method GrowFailed(d: int, newsz: int, oldsz: int, ghost v: int, ghost m0: Memory, ghost u0: Uses) returns (sz: int)
      requires DirAt(d) && 0 <= oldsz <= newsz < KERNBASE && FirstPage(oldsz) <= v <= FirstPage(newsz)
      requires Tabled(m0, u0) && d in u0 && u0[d] == Dir && IsDir(m0, d)
      requires Vacant(PageMap(m0, d), FirstPage(oldsz), FirstPage(newsz))
      requires Grown(mem, PageMap(m0, d), PageMap(mem, d), FirstPage(oldsz), v)
      requires Extends(m0, u0, mem, use, d) && SameUsers(m0, u0, mem, use)
      modifies this
      ensures sz == 0 && DirAt(d) && PageMap(mem, d) == PageMap(m0, d)
      ensures TablesOnly(u0, use, d) && Keeps(m0, u0, mem, use, d) && SameUsers(m0, u0, mem, use)
    {
      hide Tabled, FreeList, PageMap, Extends, Vacant, SameUsers, Grown, Keeps, TablesOnly, Dropped, Unmapped,
          FirstPage;
      ghost var m1, u1, lo, hi := mem, use, FirstPage(oldsz), FirstPage(newsz);
      UpToSize(oldsz, newsz);
      var _ := Deallocuvm(d, newsz, oldsz);
      UndoneMap(m0, m1, d, lo, v, hi);
      UndoneUse(m0, u0, m1, u1, d, lo, v, hi);
      UndoneUsers(m0, u0, m1, u1, mem, use, d, lo, v, hi);
      return 0;
    }

    /** Out of memory for a page table, with the page's frame in hand. */
    method GrowFailedHolding(d: int, newsz: int, oldsz: int, ghost v: int, f: int, ghost m0: Memory, ghost u0: Uses,
                             ghost m1: Memory, ghost u1: Uses)
      returns (sz: int)
      requires DirAt(d) && 0 <= oldsz <= newsz < KERNBASE && FirstPage(oldsz) <= v <= FirstPage(newsz)
      requires Tabled(m0, u0) && d in u0 && u0[d] == Dir && IsDir(m0, d)
      requires Vacant(PageMap(m0, d), FirstPage(oldsz), FirstPage(newsz))
      requires Tabled(m1, u1) && IsDir(m1, d) && PageMap(mem, d) == PageMap(m1, d)
      requires f in u1 && u1[f] == Free && 0 < f < |m1| && mem == m1[f := Zeros()] && use == u1[f := Kernel]
      requires Grown(m1, PageMap(m0, d), PageMap(m1, d), FirstPage(oldsz), v)
      requires Extends(m0, u0, m1, u1, d) && SameUsers(m0, u0, m1, u1)
      modifies this
      ensures sz == 0 && DirAt(d) && PageMap(mem, d) == PageMap(m0, d)
      ensures TablesOnly(u0, use, d) && Keeps(m0, u0, mem, use, d) && SameUsers(m0, u0, mem, use)
    {
      hide Tabled, FreeList, PageMap, Extends, Vacant, SameUsers, Grown, Keeps, TablesOnly, Dropped, Unmapped,
          FirstPage, Junk;
      ghost var m2, u2, lo, hi := mem, use, FirstPage(oldsz), FirstPage(newsz);
      UpToSize(oldsz, newsz);
      var _ := Deallocuvm(d, newsz, oldsz);
      ghost var m3, u3, h3 := mem, use, freelist;
      StillHeld(u1, f, d, lo, hi);
      Kfree(f);
      LooseMap(m3, u3, f, Junk(h3), d);
      FreeAgain(m1, u1, m3, u3, d, f, Zeros(), Junk(h3), lo, hi);
      UndoneMap(m0, m1, d, lo, v, hi);
      UndoneUse(m0, u0, m1, u1, d, lo, v, hi);
      UndoneUsers(m0, u0, m1, u1, mem, use, d, lo, v, hi);
      return 0;
    }

    /** copyuvm: an address space whose user pages have the parent's contents and flags, in
        frames of its own, and in which user code may do the same; or 0, with every frame taken given back. */
    method Copyuvm(p: int, sz: int, data: int) returns (d: int)
      requires DirAt(p) && 0 <= sz <= KERNBASE && DataAddress(data) && AllPresent(PageMap(mem, p), FirstPage(sz))
      modifies this
      ensures DirAt(p) && PageMap(mem, p) == PageMap(old(mem), p)
      ensures AllKept(old(mem), old(use), mem, use)
      ensures d == 0 ==> use == old(use) && |old(free)| <= NENT + FirstPage(sz)
      ensures d != 0 ==>
                d != p && DirAt(d) && CopyOf(mem, PageMap(mem, p), PageMap(mem, d), KernelMap(data, 4), FirstPage(sz))
                && SameAccess(mem, p, d, 0, FirstPage(sz))
    {
      hide TableCount, Tabled, FreeList, PageMap, Extends, SameUsers, KernelMap, AllKept, CopyOf, Keeps, AllPresent,
          FirstPage, NewlyMapped;
      ghost var m0, u0, n := mem, use, FirstPage(sz);
      PagesOf(sz);
      d := Setupkvm(data);
      SameDirectory(m0, u0, mem, use, p);
      if d == 0 { return; }
      NothingCopied(mem, PageMap(mem, p), PageMap(mem, d));
      InRange(m0, u0, d);
      var i := 0;
      ghost var v := 0;
      while i < sz
        invariant 0 <= v <= n && i == v * PGSIZE && DirAt(d) && DirAt(p) && d != p
        invariant PageMap(mem, p) == PageMap(m0, p)
        invariant Extends(m0, u0[d := Dir], mem, use, d) && Supply(d) + v == |old(free)| - 1
        invariant CopyOf(mem, PageMap(m0, p), PageMap(mem, d), KernelMap(data, 4), v)
        decreases n - v
      {
        PageBelow(v, sz);
        UserPages(v, sz);
        ghost var m1, u1 := mem, use;
        CountAbsent(mem[d], 0);
        ToCopy(mem, PageMap(m0, p), PageMap(mem, d), data, v, n);
        var f, r := CopyPage(d, p, i);
        if r != Mapped {
          CopyFailed(d, p, f, m0, u0, m1, u1);
          return 0;
        }
        ExtendsNew(m0, u0[d := Dir], m1, u1, mem, use, d, v, f, PageMap(m1, p)[v]);
        CopiedNext(m1, u1, mem, use, d, p, v, f, KernelMap(data, 4));
        i := i + PGSIZE;
        v := v + 1;
      }
      PageBelow(v, sz);
      CopiedForUsers(mem, use, p, d, KernelMap(data, 4), n);
      SetupKept(m0, u0, m0, u0[d := Dir], mem, use, d);
    }

    /** One round of copyuvm's loop: the child's page at address i. */
    method CopyPage(d: int, p: int, i: int) returns (f: int, r: MapResult)
      requires DirAt(d) && DirAt(p) && d != p && 0 <= i < KERNBASE && i % PGSIZE == 0
      requires PageMap(mem, d)[i / PGSIZE] == 0 && PageMap(mem, p)[i / PGSIZE] != 0
      modifies this
      ensures DirAt(d) && r != Remap
      ensures f == 0 ==>
                mem == old(mem) && use == old(use) && free == [] && Supply(d) == old(Supply(d)) && r == NoMemory
      ensures f != 0 ==> f in old(use) && old(use)[f] == Free && 0 < f < |old(mem)|
      ensures var e := PageMap(old(mem), p)[i / PGSIZE];
              && 0 < FrameOf(e) < |old(mem)|
              && (f != 0 && r == NoMemory ==>
                    && mem == old(mem)[f := old(mem)[FrameOf(e)]] && use == old(use)[f := Kernel] && free == [])
              && (r == Mapped ==> f != 0 && NewlyMapped(old(mem), old(use), mem, use, d, i / PGSIZE, f,
                  old(mem)[FrameOf(e)], FlagsOf(e)))
      ensures f != 0 ==> Supply(d) == old(Supply(d)) - 1 && (r == NoMemory ==> TableCount(mem[d]) < NENT)
    {
      hide Tabled, FreeList, PageMap, Extends, TableCount, SameUsers, Keeps, Grew, KernelKept, NewlyMapped;
      PagePresent(mem, use, p, i);
      var t := Walkpgdir(p, i / PGSIZE, false);
      var pte := mem[t][i / PGSIZE % NENT];
      var pa := pte / PGSIZE;
      f, r := NewPage(d, i, mem[pa], pte % PGSIZE);
    }

    /** copyuvm's error exit: the page in hand and the child's address space are freed. */
    method CopyFailed(d: int, p: int, f: int, ghost m0: Memory, ghost u0: Uses, ghost m1: Memory, ghost u1: Uses)
      requires DirAt(d) && Tabled(m0, u0) && Tabled(m1, u1)
      requires d in u0 && u0[d] == Free && 0 < d < |m0| && p in u0 && u0[p] == Dir && IsDir(m0, p)
      requires Extends(m0, u0[d := Dir], m1, u1, d)
      requires f == 0 ==> mem == m1 && use == u1
      requires f != 0 ==>
                f in u1 && u1[f] == Free && 0 < f < |m1| == |mem| && mem == m1[f := mem[f]] && use == u1[f := Kernel]
      modifies this
      ensures DirAt(p) && PageMap(mem, p) == PageMap(m0, p) && AllKept(m0, u0, mem, use) && use == u0
    {
      hide Tabled, FreeList, PageMap, Keeps, Grew, AllKept;
      if f != 0 { DropCopy(d, f, m1, u1); } else { KeepsRefl(mem, use, d); }
      ghost var m2, u2 := mem, use;
      Freevm(d);
      KeepsTrans(m1, u1, m2, u2, mem, use, d);
      SetupUndone(m0, u0, m0, u0[d := Dir], m1, u1, mem, use, d);
      SameDirectory(m0, u0, mem, use, p);
    }

    /** kfree of the page that could not be mapped. */
    method DropCopy(d: int, f: int, ghost m1: Memory, ghost u1: Uses)
      requires DirAt(d) && f in u1 && u1[f] == Free && 0 < f < |m1| == |mem| && mem == m1[f := mem[f]]
      requires use == u1[f := Kernel]
      modifies this
      ensures DirAt(d) && use == u1 && Keeps(m1, u1, mem, use, d)
    {
      hide Tabled, FreeList, PageMap, Keeps, Junk;
      ghost var m2, u2, h2 := mem, use, freelist;
      Kfree(f);
      LooseMap(m2, u2, f, Junk(h2), d);
      SameUses(u1, f);
      assert use == u1;
      FreeWritten(m1, u1, mem, f, d);
    }
  }

  // ---- the arithmetic of deallocuvm ----

  lemma VisitRange(a: int, oldsz: int)
    requires 0 <= a < oldsz <= KERNBASE && a % PGSIZE == 0
    ensures 0 <= a / PGSIZE < FirstPage(oldsz) <= UPAGES && a / PGSIZE * PGSIZE == a
    ensures (a + PGSIZE) / PGSIZE == a / PGSIZE + 1
  {
  }

  lemma SkipRange(a: int, oldsz: int)
    requires 0 <= a < oldsz <= KERNBASE && a % PGSIZE == 0
    ensures var b := (a / (NENT * PGSIZE) + 1) * (NENT * PGSIZE) - PGSIZE;
            a <= b && b % PGSIZE == 0 && b / PGSIZE + 1 == (a / PGSIZE / NENT + 1) * NENT
  {
  }

  lemma UpFrom(newsz: int, oldsz: int)
    requires 0 <= newsz < oldsz <= KERNBASE
    ensures PgRoundUp(newsz) == FirstPage(newsz) * PGSIZE && 0 <= FirstPage(newsz) <= FirstPage(oldsz) <= UPAGES
    ensures PgRoundUp(newsz) % PGSIZE == 0 && PgRoundUp(newsz) / PGSIZE == FirstPage(newsz)
  {
  }

  lemma AtEnd(a: int, oldsz: int)
    requires a % PGSIZE == 0 && a >= oldsz
    ensures Min(a / PGSIZE, FirstPage(oldsz)) == FirstPage(oldsz)
  {
  }

  lemma FirstPageMonotone(a: int, b: int)
    requires a <= b
    ensures FirstPage(a) <= FirstPage(b)
  {
  }

  lemma NoneYet(mem: Memory, use: Uses, d: int, lo: int)
    requires IsDir(mem, d)
    ensures PageMap(mem, d) == Unmapped(PageMap(mem, d), lo, lo) && use == Dropped(use, d, lo, lo)
  {
    hide PageMap;
  }

  lemma DeallocNothing(mem: Memory, use: Uses, d: int, oldsz: int, newsz: int)
    requires Tabled(mem, use) && IsDir(mem, d) && newsz >= oldsz
    ensures PageMap(mem, d) == Unmapped(PageMap(mem, d), FirstPage(newsz), FirstPage(oldsz))
    ensures use == Dropped(use, d, FirstPage(newsz), FirstPage(oldsz))
    ensures Keeps(mem, use, mem, use, d) && SameUsers(mem, use, mem, use)
  {
    hide PageMap, Tabled;
    FirstPageMonotone(oldsz, newsz);
    KeepsRefl(mem, use, d);
  }

  lemma NextDropped(mem: Memory, use: Uses, u0: Uses, m: seq<int>, d: int, lo: int, v: int)
    requires UserSlot(mem, use, d, v) && use == Dropped(u0, d, lo, v) && 0 <= lo <= v && Slotted(u0)
    requires PageMap(mem, d) == Unmapped(m, lo, v)
    ensures FrameOf(PageEntry(mem, d, v)) in use
    ensures use[FrameOf(PageEntry(mem, d, v)) := Free] == Dropped(u0, d, lo, v + 1)
    ensures PageMap(mem, d)[v := 0] == Unmapped(m, lo, v + 1)
  {
    hide Tabled, Dropped, PageEntry, Slotted;
    DroppedPage(mem, use, u0, d, lo, v);
  }

  lemma SkipPages(mem: Memory, use: Uses, u0: Uses, m: seq<int>, d: int, lo: int, v: int, w: int)
    requires Tabled(mem, use) && IsDir(mem, d) && use == Dropped(u0, d, lo, v) && 0 <= lo <= v <= w <= UPAGES
    requires Slotted(u0)
    requires PageMap(mem, d) == Unmapped(m, lo, v)
    requires forall x :: v <= x < w ==> PageEntry(mem, d, x) == 0
    ensures use == Dropped(u0, d, lo, w) && PageMap(mem, d) == Unmapped(m, lo, w)
  {
    hide Tabled, Dropped, PageEntry, Slotted;
    DroppedSkip(mem, use, u0, d, lo, v, w);
    forall x | 0 <= x < NPAGES
      ensures Unmapped(m, lo, w)[x] == Unmapped(m, lo, v)[x]
    {
      assert PageMap(mem, d)[x] == PageEntry(mem, d, x);
    }
  }

  lemma SkipTable(mem: Memory, use: Uses, u0: Uses, m: seq<int>, d: int, lo: int, v: int, w: int)
    requires Tabled(mem, use) && IsDir(mem, d) && use == Dropped(u0, d, lo, v) && 0 <= lo <= v <= w <= UPAGES
    requires Slotted(u0)
    requires PageMap(mem, d) == Unmapped(m, lo, v)
    requires TableOf(mem, d, v / NENT) == 0 && w <= (v / NENT + 1) * NENT
    ensures use == Dropped(u0, d, lo, w) && PageMap(mem, d) == Unmapped(m, lo, w)
  {
    hide Tabled, Dropped, Slotted, Unmapped, PageMap;
    forall x | v <= x < w
      ensures PageEntry(mem, d, x) == 0
    {
      assert x / NENT == v / NENT;
    }
    SkipPages(mem, use, u0, m, d, lo, v, w);
  }

  lemma SkipPage(mem: Memory, use: Uses, u0: Uses, m: seq<int>, d: int, lo: int, v: int)
    requires Tabled(mem, use) && IsDir(mem, d) && use == Dropped(u0, d, lo, v) && 0 <= lo <= v < UPAGES && Slotted(u0)
    requires PageMap(mem, d) == Unmapped(m, lo, v) && PageEntry(mem, d, v) == 0
    ensures use == Dropped(u0, d, lo, v + 1) && PageMap(mem, d) == Unmapped(m, lo, v + 1)
  {
    hide Tabled, Dropped, Slotted, Unmapped, PageMap, PageEntry;
    SkipPages(mem, use, u0, m, d, lo, v, v + 1);
  }

  // ---- mappages ----

  lemma AlignedRange(va: int, size: int)
    requires 0 <= va <= (va + size - 1) % UINT
    ensures va / PGSIZE * PGSIZE <= (va + size - 1) % UINT / PGSIZE * PGSIZE == LastPage(va, size) * PGSIZE
    ensures va / PGSIZE * PGSIZE % PGSIZE == 0 && 0 <= va / PGSIZE <= LastPage(va, size) < NPAGES
    ensures va / PGSIZE * PGSIZE / PGSIZE == va / PGSIZE && LastPage(va, size) * PGSIZE / PGSIZE == LastPage(va, size)
  {
  }

  lemma ExactPage(v: int)
    ensures v * PGSIZE / PGSIZE == v
  {
  }

  lemma NoneFilled(m: seq<int>, first: int, last: int, frame: int, perm: int)
    requires 0 <= perm < PGSIZE && first <= last
    ensures Vacant(m, first, first)
    ensures Filled(m, first, first, frame, perm) == m
  {
    hide Pte;
  }

  lemma NextFilled(m: seq<int>, first: int, v: int, frame: int, perm: int)
    requires 0 <= perm < PGSIZE && 0 <= first <= v < |m|
    ensures Filled(m, first, v, frame, perm)[v := Pte(frame + v - first, perm)] == Filled(m, first, v + 1, frame, perm)
    ensures Filled(m, first, v, frame, perm)[v] == m[v]
  {
    hide Pte;
  }

  lemma KernelGiven(u: Uses, v: int, f: int)
    ensures v >= UPAGES ==> Given(u, v, f) == u
  {
  }

  lemma NextVacant(m: seq<int>, first: int, v: int, last: int)
    requires 0 <= first <= v < last <= |m| && Vacant(m, first, v)
    ensures m[v] == 0 ==> Vacant(m, first, v + 1)
    ensures m[v] != 0 ==> !Vacant(m, first, last)
  {
  }

  lemma ExtendsRefl(mem: Memory, use: Uses, d: int)
    requires Tabled(mem, use)
    ensures Extends(mem, use, mem, use, d) && SameUsers(mem, use, mem, use)
  {
    hide Tabled;
    KeepsRefl(mem, use, d);
  }

  lemma KernelStep(m0: Memory, u0: Uses, m1: Memory, u1: Uses, m2: Memory, u2: Uses, d: int, v: int, f: int)
    requires Extends(m1, Given(u1, v, f), m2, u2, d)
    ensures v >= UPAGES && Extends(m0, u0, m1, u1, d) ==> Extends(m0, u0, m2, u2, d)
  {
    hide Keeps, Grew;
    if v >= UPAGES && Extends(m0, u0, m1, u1, d) {
      KeepsTrans(m0, u0, m1, u1, m2, u2, d);
      GrewTrans(u0, u1, u2, d);
    }
  }

  // ---- freevm ----

  /** The uses while freevm frees the tables: those before entry n are free, and the others and
      the directory are held. */
  function Torn(use: Uses, d: int, n: int): (r: Uses)
    ensures r.Keys == use.Keys
  {
    map f | f in use ::
      if use[f].Table? && use[f].d == d && use[f].i < n then Free
      else if Belongs(use[f], f, d) then Kernel else use[f]
  }

  lemma NoUserPages(m0: Memory, u0: Uses, use: Uses, d: int)
    requires Tabled(m0, u0) && use == Dropped(u0, d, FirstPage(0), FirstPage(KERNBASE))
    ensures forall f :: f in use && use[f].User? ==> use[f].d != d
  {
    TabledSlotted(m0, u0);
    forall f | f in use && use[f].User?
      ensures use[f].d != d
    {
      assert SlottedAt(u0, f);
      assert u0[f] == use[f];
      PageRange(use[f].i, use[f].j);
    }
  }

  lemma PageRange(i: int, j: int)
    requires 0 <= i < UTABLES && 0 <= j < NENT
    ensures FirstPage(0) <= i * NENT + j < FirstPage(KERNBASE)
  {
  }

  lemma StartTearing(mem: Memory, use: Uses, d: int)
    requires Tabled(mem, use)
    ensures Orphaned(use, d) == Torn(use, d, 0) && Keeps(mem, use, mem, Orphaned(use, d), d)
  {
    forall f | f in use
      ensures Orphaned(use, d)[f] == Torn(use, d, 0)[f] && KeepsFrame(mem, use, mem, Orphaned(use, d), d, f)
    {
      assert FrameOk(mem, use, f);
    }
  }

  lemma TearOne(m1: Memory, u1: Uses, d: int, i: int)
    requires Tabled(m1, u1) && IsDir(m1, d) && d in u1 && u1[d] == Dir && 0 <= i < NENT
    ensures !Present(m1[d][i]) ==> Torn(u1, d, i + 1) == Torn(u1, d, i)
    ensures var t := FrameOf(m1[d][i]);
            Present(m1[d][i]) ==> t in u1 && u1[t] == Table(d, i) && t != d && Torn(u1, d, i)[t] == Kernel
                                  && Torn(u1, d, i + 1) == Torn(u1, d, i)[t := Free]
  {
    assert SlotOk(m1, u1, Table(d, i));
    var t := FrameOf(m1[d][i]);
    forall f | f in u1 && u1[f] == Table(d, i)
      ensures Present(m1[d][i]) && f == t
    {
      assert FrameOk(m1, u1, f);
    }
    if Present(m1[d][i]) {
      assert Torn(u1, d, i + 1) == Torn(u1, d, i)[t := Free];
    } else {
      assert Torn(u1, d, i + 1) == Torn(u1, d, i);
    }
  }

  lemma TornKeeps(m1: Memory, u1: Uses, mem: Memory, use: Uses, d: int, i: int, t: int, p: Page)
    requires Keeps(m1, u1, mem, use, d) && t in u1 && u1[t] == Table(d, i) && 0 <= t < |mem| && t in use
    ensures Keeps(m1, u1, mem[t := p], use[t := Free], d)
  {
    forall f | f in u1
      ensures KeepsFrame(m1, u1, mem[t := p], use[t := Free], d, f)
    {
      assert KeepsFrame(m1, u1, mem, use, d, f);
    }
  }

  lemma TornAll(m0: Memory, u0: Uses, m1: Memory, u1: Uses, mem: Memory, d: int, p: Page)
    requires Tabled(m0, u0) && u1 == Dropped(u0, d, FirstPage(0), FirstPage(KERNBASE)) && Keeps(m0, u0, m1, u1, d)
    requires Tabled(m1, u1) && Keeps(m1, u1, mem, Torn(u1, d, NENT), d) && 0 <= d < |mem| && d in u1 && u1[d] == Dir
    ensures Torn(u1, d, NENT)[d] == Kernel && Torn(u1, d, NENT)[d := Free] == Released(u0, d)
    ensures Keeps(m0, u0, mem[d := p], Torn(u1, d, NENT)[d := Free], d)
  {
    hide Tabled;
    var u2 := Torn(u1, d, NENT);
    TabledSlotted(m0, u0);
    forall f | f in u0
      ensures u2[d := Free][f] == Released(u0, d)[f]
    {
      assert SlottedAt(u0, f);
      if u0[f].User? { PageRange(u0[f].i, u0[f].j); }
      if u0[f].Table? { TableRange(m1, u1, f); }
    }
    forall f | f in u0
      ensures KeepsFrame(m0, u0, mem[d := p], u2[d := Free], d, f)
    {
      assert KeepsFrame(m0, u0, m1, u1, d, f) && KeepsFrame(m1, u1, mem, u2, d, f);
    }
  }

  lemma TableRange(mem: Memory, use: Uses, f: int)
    requires Tabled(mem, use) && f in use && use[f].Table?
    ensures 0 <= use[f].i < NENT
  {
    assert FrameOk(mem, use, f);
  }

  // ---- setupkvm ----

  lemma SameUses(use: Uses, f: int)
    requires f in use
    ensures use[f := use[f]] == use
  {
  }

  lemma EmptyDirectory(mem: Memory, d: int)
    requires 0 <= d < |mem| && mem[d] == Zeros()
    ensures IsDir(mem, d) && PageMap(mem, d) == KernelMap(0, 0)
  {
    forall v | 0 <= v < NPAGES
      ensures PageEntry(mem, d, v) == 0
    {
      assert TableOf(mem, d, v / NENT) == 0;
    }
  }

  lemma ExtendsTrans(m0: Memory, u0: Uses, m1: Memory, u1: Uses, m2: Memory, u2: Uses, d: int)
    ensures Extends(m0, u0, m1, u1, d) && Extends(m1, u1, m2, u2, d) ==> Extends(m0, u0, m2, u2, d)
  {
    hide Keeps, Grew;
    if Extends(m0, u0, m1, u1, d) && Extends(m1, u1, m2, u2, d) {
      KeepsTrans(m0, u0, m1, u1, m2, u2, d);
      GrewTrans(u0, u1, u2, d);
    }
  }

  /** Frame f, if it is in use, has the same use and contents. */
  ghost predicate KeptAt(m0: Memory, u0: Uses, m1: Memory, u1: Uses, f: int)
    requires f in u0
  {
    u0[f] != Free ==> f in u1 && u1[f] == u0[f] && 0 <= f < |m0| && f < |m1| && m1[f] == m0[f]
  }

  /** Only free frames were taken or written. */
  ghost predicate AllKept(m0: Memory, u0: Uses, m1: Memory, u1: Uses) {
    |m0| == |m1| && u0.Keys == u1.Keys && forall f :: f in u0 ==> KeptAt(m0, u0, m1, u1, f)
  }

  lemma AllKeptRefl(mem: Memory, use: Uses)
    requires Tabled(mem, use)
    ensures AllKept(mem, use, mem, use)
  {
  }

  /** Nothing belongs to a frame that is not a directory. */
  lemma NoneBelong(mem: Memory, use: Uses, d: int, f: int)
    requires Tabled(mem, use) && d in use && use[d] != Dir && f in use
    ensures !Belongs(use[f], f, d)
  {
    assert FrameOk(mem, use, f);
  }

  lemma SetupUndone(m0: Memory, u0: Uses, m1: Memory, u1: Uses, m2: Memory, u2: Uses, m3: Memory, u3: Uses, d: int)
    requires Tabled(m0, u0) && d in u0 && u0[d] == Free && 0 < d < |m0|
    requires |m1| == |m0| && m1 == m0[d := m1[d]] && u1 == u0[d := Dir]
    requires Extends(m1, u1, m2, u2, d) && u3 == Released(u2, d) && Keeps(m2, u2, m3, u3, d)
    ensures u3 == u0 && AllKept(m0, u0, m3, u3)
  {
    forall f | f in u0
      ensures u3[f] == u0[f] && KeptAt(m0, u0, m3, u3, f)
    {
      NoneBelong(m0, u0, d, f);
      assert GrewAt(u1, u2, d, f);
      assert KeepsFrame(m1, u1, m2, u2, d, f) && KeepsFrame(m2, u2, m3, u3, d, f);
    }
  }

  lemma SetupKept(m0: Memory, u0: Uses, m1: Memory, u1: Uses, m2: Memory, u2: Uses, d: int)
    requires Tabled(m0, u0) && d in u0 && u0[d] == Free && 0 < d < |m0|
    requires |m1| == |m0| && m1 == m0[d := m1[d]] && u1 == u0[d := Dir] && Extends(m1, u1, m2, u2, d)
    ensures AllKept(m0, u0, m2, u2) && Extends(m0, u1, m2, u2, d)
  {
    forall f | f in u0
      ensures KeptAt(m0, u0, m2, u2, f) && KeepsFrame(m0, u1, m2, u2, d, f)
    {
      NoneBelong(m0, u0, d, f);
      assert GrewAt(u1, u2, d, f);
      assert KeepsFrame(m1, u1, m2, u2, d, f);
    }
  }

  // ---- one new user page ----

  /** The change that maps a new page v of d to frame f, with contents p. */
  ghost predicate NewlyMapped(m0: Memory, u0: Uses, m1: Memory, u1: Uses, d: int, v: int, f: int, p: Page, perm: int)
    requires 0 <= v < NPAGES && 0 <= perm < PGSIZE && IsDir(m0, d) && IsDir(m1, d)
  {
    && PageMap(m1, d) == PageMap(m0, d)[v := Pte(f, perm)] && Extends(m0, u0, m1, u1, d) && SameUsers(m0, u0, m1, u1)
    && f in u1 && u1[f] == User(d, v / NENT, v % NENT) && 0 < f < |m1| && m1[f] == p
  }

  lemma InDirectory(mem: Memory, use: Uses, d: int)
    requires Tabled(mem, use) && d in use && use[d] == Dir && IsDir(mem, d)
    ensures forall f :: f in use && use[f] == Free ==> f != d
  {
  }

  lemma OnePage(a: int, f: int)
    requires 0 <= a < KERNBASE && a % PGSIZE == 0
    ensures LastPage(a, PGSIZE) == a / PGSIZE < UPAGES && a <= (a + PGSIZE - 1) % UINT
    ensures f * PGSIZE / PGSIZE == f && f * PGSIZE % PGSIZE == 0
  {
  }

  lemma OneVacant(m: seq<int>, v: int)
    requires 0 <= v < |m| && m[v] == 0
    ensures Vacant(m, v, v + 1)
  {
  }

  lemma OneFilled(m: seq<int>, v: int, f: int, perm: int)
    requires 0 <= v < |m| && 0 <= perm < PGSIZE
    ensures Filled(m, v, v + 1, f, perm) == m[v := Pte(f, perm)]
  {
    hide Pte;
  }

  lemma NewPageOk(m0: Memory, u0: Uses, m1: Memory, u1: Uses, m2: Memory, u2: Uses,
                  d: int, v: int, f: int, p: Page, perm: int, mapped: bool)
    requires 0 <= v < UPAGES && 0 <= perm < PGSIZE && IsDir(m0, d) && IsDir(m1, d) && IsDir(m2, d) && |p| == NENT
    requires f in u0 && u0[f] == Free && 0 < f < |m0| && m1 == m0[f := p] && u1 == u0[f := Kernel]
    requires PageMap(m1, d) == PageMap(m0, d)
    requires mapped ==> PageMap(m2, d) == Filled(PageMap(m1, d), v, v + 1, f, perm)
    requires mapped ==>
              Extends(m1, Given(u1, v, f), m2, u2, d) && SameUsers(m1, u1, m2, u2) && TakenOver(m1, m2, u2, f, d, v)
    ensures mapped ==> NewlyMapped(m0, u0, m2, u2, d, v, f, p, perm)
  {
    hide PageMap, Keeps, Grew, SameUsers, Filled, Pte;
    if mapped {
      OneFilled(PageMap(m1, d), v, f, perm);
      assert Given(u1, v, f) == u0;
      SameUsersFree(m1, u0, m2, u2, f);
      FreeWrite(m0, u0, f, p, m2, u2, d);
    }
  }

  lemma SameUsersFree(m1: Memory, u0: Uses, m2: Memory, u2: Uses, f: int)
    requires SameUsers(m1, u0[f := Kernel], m2, u2) && f in u0 && !u0[f].User?
    ensures SameUsers(m1, u0, m2, u2)
  {
    forall g | g in u0
      ensures SameUser(m1, u0, m2, u2, g)
    {
      assert SameUser(m1, u0[f := Kernel], m2, u2, g);
    }
  }

  // ---- allocuvm ----

  /** An entry for a writable user page of zeroes. */
  ghost predicate ZeroPage(mem: Memory, e: int) {
    Present(e) && FlagsOf(e) == PTE_P + PTE_W + PTE_U && 0 < FrameOf(e) < |mem| && mem[FrameOf(e)] == Zeros()
  }

  ghost predicate GrownAt(mem: Memory, m0: seq<int>, m: seq<int>, lo: int, hi: int, v: int)
    requires |m0| == |m| && 0 <= v < |m|
  {
    if lo <= v < hi then ZeroPage(mem, m[v]) else m[v] == m0[v]
  }

  /** Address space m is m0 with pages of zeroes at lo..hi-1. */
  ghost predicate Grown(mem: Memory, m0: seq<int>, m: seq<int>, lo: int, hi: int) {
    |m0| == |m| && forall v :: 0 <= v < |m| ==> GrownAt(mem, m0, m, lo, hi, v)
  }

  lemma GrownForUsers(mem: Memory, use: Uses, m0: seq<int>, d: int, lo: int, hi: int)
    requires Tabled(mem, use) && d in use && use[d] == Dir && IsDir(mem, d) && Grown(mem, m0, PageMap(mem, d), lo, hi)
    ensures UserOwned(mem, d, lo, hi)
  {
    hide Tabled, PageMap, UserMay;
    forall v, w | 0 <= v < NPAGES && lo <= v < hi
      ensures UserMay(mem, d, v, w)
    {
      assert GrownAt(mem, m0, PageMap(mem, d), lo, hi, v);
      EntryDecides(mem, use, d, v, w);
    }
  }

  /** Of the free frames, only page tables of d were taken. */
  ghost predicate TablesOnly(u0: Uses, u1: Uses, d: int) {
    u1.Keys == u0.Keys && forall f :: f in u0 ==> u1[f] == u0[f] || (u0[f] == Free && u1[f].Table? && u1[f].d == d)
  }

  lemma UpToSize(oldsz: int, newsz: int)
    requires 0 <= oldsz <= newsz < KERNBASE
    ensures PgRoundUp(oldsz) == FirstPage(oldsz) * PGSIZE && 0 <= FirstPage(oldsz) <= FirstPage(newsz) <= UPAGES
  {
  }

  lemma PageBelow(v: int, sz: int)
    ensures v * PGSIZE < sz <==> v < FirstPage(sz)
    ensures v * PGSIZE / PGSIZE == v && v * PGSIZE % PGSIZE == 0 && (v < UPAGES ==> v * PGSIZE < KERNBASE)
  {
  }

  lemma StartGrowing(mem: Memory, d: int, lo: int)
    requires IsDir(mem, d)
    ensures Grown(mem, PageMap(mem, d), PageMap(mem, d), lo, lo)
  {
    hide PageMap, ZeroPage;
  }

  lemma StillVacant(mem: Memory, m0: seq<int>, m: seq<int>, lo: int, v: int, hi: int)
    requires Grown(mem, m0, m, lo, v) && Vacant(m0, lo, hi) && 0 <= lo <= v && hi <= |m|
    ensures v < hi ==> m[v] == 0
  {
    hide ZeroPage;
    if v < hi { assert GrownAt(mem, m0, m, lo, v, v); }
  }

  lemma GrownNext(m0: Memory, m1: Memory, u1: Uses, m2: Memory, u2: Uses, d: int, lo: int, v: int, f: int)
    requires IsDir(m0, d) && IsDir(m1, d) && IsDir(m2, d) && Tabled(m1, u1) && d in u1 && u1[d] == Dir
    requires 0 <= lo <= v < UPAGES && Grown(m1, PageMap(m0, d), PageMap(m1, d), lo, v)
    requires NewlyMapped(m1, u1, m2, u2, d, v, f, Zeros(), PTE_W + PTE_U)
    ensures Grown(m2, PageMap(m0, d), PageMap(m2, d), lo, v + 1)
  {
    hide Tabled, Pte, PageMap, Extends, SameUsers;
    var a0, a1, a2, n := PageMap(m0, d), PageMap(m1, d), PageMap(m2, d), v + 1;
    forall w | 0 <= w < NPAGES
      ensures GrownAt(m2, a0, a2, lo, n, w)
    {
      assert GrownAt(m1, a0, a1, lo, v, w);
      if lo <= w < v { KeptContents(m1, u1, m2, u2, d, w); }
    }
  }

  /** A user page whose entry stays keeps its contents. */
  lemma KeptContents(m1: Memory, u1: Uses, m2: Memory, u2: Uses, d: int, w: int)
    requires Tabled(m1, u1) && d in u1 && u1[d] == Dir && IsDir(m1, d) && 0 <= w < UPAGES && SameUsers(m1, u1, m2, u2)
    ensures var e := PageMap(m1, d)[w];
            e != 0 ==> 0 < FrameOf(e) < |m1| && FrameOf(e) < |m2| && m2[FrameOf(e)] == m1[FrameOf(e)]
                       && FrameOf(e) in u1 && u1[FrameOf(e)] == User(d, w / NENT, w % NENT)
  {
    var e := PageEntry(m1, d, w);
    if e != 0 {
      UserFrame(m1, u1, d, w);
      assert SameUser(m1, u1, m2, u2, FrameOf(e));
    }
  }

  lemma TransFromNew(m0: Memory, u0: Uses, m1: Memory, u1: Uses, m2: Memory, u2: Uses, d: int, v: int, f: int)
    requires SameUsers(m0, u0, m1, u1) && IsDir(m1, d) && IsDir(m2, d) && 0 <= v < NPAGES
    requires NewlyMapped(m1, u1, m2, u2, d, v, f, Zeros(), PTE_W + PTE_U)
    ensures SameUsers(m0, u0, m2, u2) && (Extends(m0, u0, m1, u1, d) ==> Extends(m0, u0, m2, u2, d))
  {
    hide SameUsers, Extends, PageMap;
    SameUsersTrans(m0, u0, m1, u1, m2, u2);
    ExtendsTrans(m0, u0, m1, u1, m2, u2, d);
  }

  // ---- allocuvm running out of memory ----

  lemma UndoneMap(m0: Memory, m1: Memory, d: int, lo: int, v: int, hi: int)
    requires IsDir(m0, d) && IsDir(m1, d) && 0 <= lo <= v <= hi
    requires Vacant(PageMap(m0, d), lo, hi) && Grown(m1, PageMap(m0, d), PageMap(m1, d), lo, v)
    ensures Unmapped(PageMap(m1, d), lo, hi) == PageMap(m0, d)
  {
    hide PageMap, ZeroPage;
    var a0, a1 := PageMap(m0, d), PageMap(m1, d);
    var r := Unmapped(a1, lo, hi);
    forall w | 0 <= w < NPAGES
      ensures r[w] == a0[w]
    {
      assert GrownAt(m1, a0, a1, lo, v, w);
    }
  }

  /** A user frame taken since (m0, u0) serves one of the new pages. */
  lemma NewUser(m0: Memory, u0: Uses, m1: Memory, u1: Uses, d: int, lo: int, v: int, f: int)
    requires Tabled(m0, u0) && Tabled(m1, u1) && IsDir(m0, d) && IsDir(m1, d) && d in u0 && u0[d] == Dir
    requires Grown(m1, PageMap(m0, d), PageMap(m1, d), lo, v)
    requires f in u0 && u0[f] == Free && f in u1 && u1[f].User? && u1[f].d == d
    ensures lo <= u1[f].i * NENT + u1[f].j < v
  {
    hide PageMap;
    var i, j := u1[f].i, u1[f].j;
    var w := i * NENT + j;
    assert FrameOk(m1, u1, f) && IsSlot(u1, u1[f]);
    SlotPage(i, j, w);
    assert GrownAt(m1, PageMap(m0, d), PageMap(m1, d), lo, v, w);
    assert SlotOk(m0, u0, u1[f]);
    assert PageMap(m0, d)[w] == PageEntry(m0, d, w) && PageMap(m1, d)[w] == PageEntry(m1, d, w);
  }

  lemma UndoneAt(m0: Memory, u0: Uses, m1: Memory, u1: Uses, d: int, lo: int, v: int, hi: int, f: int)
    requires Tabled(m0, u0) && Tabled(m1, u1) && IsDir(m0, d) && IsDir(m1, d) && d in u0 && u0[d] == Dir
    requires 0 <= lo <= v <= hi <= UPAGES && Vacant(PageMap(m0, d), lo, hi)
    requires Grown(m1, PageMap(m0, d), PageMap(m1, d), lo, v) && Extends(m0, u0, m1, u1, d) && f in u0
    ensures f in u1
    ensures var u := Dropped(u1, d, lo, hi)[f]; u == u0[f] || (u0[f] == Free && u.Table? && u.d == d)
  {
    assert GrewAt(u0, u1, d, f);
    hide PageMap, Tabled, Grown, Keeps, Vacant;
    if u0[f] == Free && u1[f].User? {
      if u1[f].d == d { NewUser(m0, u0, m1, u1, d, lo, v, f); }
    } else if u0[f].User? && u0[f].d == d {
      OldUser(m0, u0, d, lo, hi, f);
    }
  }

  lemma OldUser(m0: Memory, u0: Uses, d: int, lo: int, hi: int, f: int)
    requires Tabled(m0, u0) && IsDir(m0, d) && 0 <= lo <= hi <= UPAGES && Vacant(PageMap(m0, d), lo, hi)
    requires f in u0 && u0[f].User? && u0[f].d == d
    ensures !(lo <= u0[f].i * NENT + u0[f].j < hi)
  {
    var w := u0[f].i * NENT + u0[f].j;
    TabledSlotted(m0, u0);
    assert SlottedAt(u0, f);
    SlotPage(u0[f].i, u0[f].j, w);
    if lo <= w < hi {
      assert PageMap(m0, d)[w] == PageEntry(m0, d, w);
      NoFrame(m0, u0, d, w, f);
    }
  }

  lemma UndoneUse(m0: Memory, u0: Uses, m1: Memory, u1: Uses, d: int, lo: int, v: int, hi: int)
    requires Tabled(m0, u0) && Tabled(m1, u1) && IsDir(m0, d) && IsDir(m1, d) && d in u0 && u0[d] == Dir
    requires 0 <= lo <= v <= hi <= UPAGES && Vacant(PageMap(m0, d), lo, hi)
    requires Grown(m1, PageMap(m0, d), PageMap(m1, d), lo, v) && Extends(m0, u0, m1, u1, d)
    ensures TablesOnly(u0, Dropped(u1, d, lo, hi), d)
  {
    hide PageMap, Tabled, Grown, Grew, Vacant, Dropped;
    forall f | f in u0
      ensures f in u1
      ensures var u := Dropped(u1, d, lo, hi)[f]; u == u0[f] || (u0[f] == Free && u.Table? && u.d == d)
    {
      UndoneAt(m0, u0, m1, u1, d, lo, v, hi, f);
    }
  }

  lemma UndoneUsers(m0: Memory, u0: Uses, m1: Memory, u1: Uses, m2: Memory, u2: Uses, d: int, lo: int, v: int, hi: int)
    requires Tabled(m0, u0) && Tabled(m1, u1) && IsDir(m0, d) && IsDir(m1, d) && d in u0 && u0[d] == Dir
    requires 0 <= lo <= v <= hi <= UPAGES && Vacant(PageMap(m0, d), lo, hi)
    requires Extends(m0, u0, m1, u1, d) && SameUsers(m0, u0, m1, u1)
    requires u2 == Dropped(u1, d, lo, hi) && Keeps(m1, u1, m2, u2, d) && SameUsers(m2, u2, m1, u1)
    requires TablesOnly(u0, u2, d)
    ensures Keeps(m0, u0, m2, u2, d) && SameUsers(m0, u0, m2, u2)
  {
    hide PageMap, Tabled, Grew, Vacant, Dropped;
    KeepsTrans(m0, u0, m1, u1, m2, u2, d);
    forall f | f in u0
      ensures SameUser(m0, u0, m2, u2, f)
    {
      assert SameUser(m0, u0, m1, u1, f) && SameUser(m2, u2, m1, u1, f);
    }
  }

  lemma StillHeld(u1: Uses, f: int, d: int, lo: int, hi: int)
    requires f in u1
    ensures Dropped(u1[f := Kernel], d, lo, hi)[f] == Kernel
  {
  }

  /** Giving back the frame in hand: as if it had not been taken. */
  lemma FreeAgain(m1: Memory, u1: Uses, m3: Memory, u3: Uses, d: int, f: int, p: Page, q: Page, lo: int, hi: int)
    requires f in u1 && u1[f] == Free && 0 < f < |m1| && 0 < f < |m3|
    requires u3 == Dropped(u1[f := Kernel], d, lo, hi)
    requires Keeps(m1[f := p], u1[f := Kernel], m3, u3, d) && SameUsers(m3, u3, m1[f := p], u1[f := Kernel])
    ensures u3[f := Free] == Dropped(u1, d, lo, hi)
    ensures Keeps(m1, u1, m3[f := q], u3[f := Free], d) && SameUsers(m3[f := q], u3[f := Free], m1, u1)
  {
    var m4, u4 := m3[f := q], u3[f := Free];
    forall g | g in u1
      ensures KeepsFrame(m1, u1, m4, u4, d, g) && SameUser(m4, u4, m1, u1, g)
    {
      assert KeepsFrame(m1[f := p], u1[f := Kernel], m3, u3, d, g) && SameUser(m3, u3, m1[f := p], u1[f := Kernel], g);
    }
  }

  // ---- copyuvm ----

  ghost predicate AllPresent(m: seq<int>, n: int) {
    forall v :: 0 <= v < n && v < |m| ==> m[v] != 0
  }

  /** e' names another frame than e, with the same contents and flags. */
  ghost predicate SamePage(mem: Memory, e: int, e': int) {
    && Present(e') && FlagsOf(e') == FlagsOf(e) && 0 < FrameOf(e) < |mem| && 0 < FrameOf(e') < |mem|
    && FrameOf(e') != FrameOf(e) && mem[FrameOf(e')] == mem[FrameOf(e)]
  }

  ghost predicate CopyAt(mem: Memory, parent: seq<int>, child: seq<int>, kernel: seq<int>, n: int, v: int)
    requires |parent| == |child| == |kernel| && 0 <= v < |parent|
  {
    if v < n then SamePage(mem, parent[v], child[v]) else child[v] == kernel[v]
  }

  /** The child's first n pages are copies of the parent's, and the rest is the kernel's. */
  ghost predicate CopyOf(mem: Memory, parent: seq<int>, child: seq<int>, kernel: seq<int>, n: int) {
    |parent| == |child| == |kernel| && forall v :: 0 <= v < |parent| ==> CopyAt(mem, parent, child, kernel, n, v)
  }

  lemma CopiedForUsers(mem: Memory, use: Uses, p: int, d: int, kernel: seq<int>, n: int)
    requires Tabled(mem, use) && p in use && use[p] == Dir && IsDir(mem, p) && d in use && use[d] == Dir
    requires IsDir(mem, d) && CopyOf(mem, PageMap(mem, p), PageMap(mem, d), kernel, n)
    ensures SameAccess(mem, p, d, 0, n)
  {
    hide Tabled, PageMap, UserMay;
    forall v, w | 0 <= v < NPAGES && v < n
      ensures UserMay(mem, p, v, w) <==> UserMay(mem, d, v, w)
    {
      assert CopyAt(mem, PageMap(mem, p), PageMap(mem, d), kernel, n, v);
      EntryDecides(mem, use, p, v, w);
      EntryDecides(mem, use, d, v, w);
    }
  }

  /** The kernel's part of an address space is closed to user code, also through the generous
      directory entries. */
  lemma KernelClosed(mem: Memory, use: Uses, d: int, data: int, v: int, write: bool)
    requires Tabled(mem, use) && d in use && use[d] == Dir && IsDir(mem, d) && DataAddress(data)
    requires 0 <= v < NPAGES && PageMap(mem, d)[v] == KernelMap(data, 4)[v]
    ensures !UserMay(mem, d, v, write)
  {
    hide Tabled, PageMap, KernelMap;
    EntryDecides(mem, use, d, v, write);
    assert PageMap(mem, d)[v] == PageEntry(mem, d, v);
    KernelView(data, v);
  }

  lemma PagesOf(sz: int)
    requires 0 <= sz <= KERNBASE
    ensures 0 <= FirstPage(sz) <= UPAGES
  {
  }

  lemma UserPages(v: int, sz: int)
    requires sz <= KERNBASE && v < FirstPage(sz)
    ensures v < UPAGES
  {
  }

  lemma SameDirectory(m0: Memory, u0: Uses, m1: Memory, u1: Uses, p: int)
    requires Tabled(m0, u0) && Tabled(m1, u1) && AllKept(m0, u0, m1, u1) && p in u0 && u0[p] == Dir && IsDir(m0, p)
    ensures p in u1 && u1[p] == Dir && IsDir(m1, p) && PageMap(m1, p) == PageMap(m0, p)
  {
    hide PageMap, Tabled;
    forall f | f in u0
      ensures KeepsFrame(m0, u0, m1, u1, 0, f)
    {
      assert KeptAt(m0, u0, m1, u1, f);
    }
    assert p > 0 by { InRange(m0, u0, p); }
    OtherDirectory(m0, u0, m1, u1, 0, p);
  }

  lemma NothingCopied(mem: Memory, parent: seq<int>, child: seq<int>)
    requires |parent| == |child|
    ensures CopyOf(mem, parent, child, child, 0)
  {
  }

  lemma ToCopy(mem: Memory, parent: seq<int>, child: seq<int>, data: int, v: int, n: int)
    requires CopyOf(mem, parent, child, KernelMap(data, 4), v) && 0 <= v < n && v < UPAGES && |parent| == NPAGES
    requires AllPresent(parent, n) && DataAddress(data)
    ensures child[v] == 0 && parent[v] != 0
  {
    hide KernelMap, SamePage;
    assert CopyAt(mem, parent, child, KernelMap(data, 4), v, v);
    KernelMapped(data, 4, v);
  }

  lemma PagePresent(mem: Memory, use: Uses, p: int, i: int)
    requires Tabled(mem, use) && p in use && use[p] == Dir && IsDir(mem, p) && 0 <= i < KERNBASE && i % PGSIZE == 0
    requires PageMap(mem, p)[i / PGSIZE] != 0
    ensures var t, e := TableOf(mem, p, i / PGSIZE / NENT), PageMap(mem, p)[i / PGSIZE];
            0 < t < |mem| && |mem[t]| == NENT && mem[t][i / PGSIZE % NENT] == e && 0 < FrameOf(e) < |mem|
                && |mem[FrameOf(e)]| == NENT
  {
    assert PageMap(mem, p)[i / PGSIZE] == PageEntry(mem, p, i / PGSIZE);
    hide PageMap;
    UserFrame(mem, use, p, i / PGSIZE);
    InRange(mem, use, FrameOf(PageEntry(mem, p, i / PGSIZE)));
  }

  lemma FreeWritten(m1: Memory, u1: Uses, m2: Memory, f: int, d: int)
    requires f in u1 && u1[f] == Free && 0 < f < |m1| == |m2| && m2 == m1[f := m2[f]] && Tabled(m2, u1)
    ensures Keeps(m1, u1, m2, u1, d)
  {
    forall g | g in u1
      ensures KeepsFrame(m1, u1, m2, u1, d, g)
    {
    }
  }

  lemma CopiedNext(m1: Memory, u1: Uses, m2: Memory, u2: Uses, d: int, p: int, v: int, f: int, kernel: seq<int>)
    requires Tabled(m1, u1) && d in u1 && u1[d] == Dir && IsDir(m1, d) && IsDir(m2, d) && 0 <= v < UPAGES
    requires |kernel| == NPAGES
    requires p != d && p in u1 && u1[p] == Dir && IsDir(m1, p) && Tabled(m2, u2)
    requires CopyOf(m1, PageMap(m1, p), PageMap(m1, d), kernel, v) && PageMap(m1, p)[v] != 0
    requires f in u1 && u1[f] == Free
    requires var e := PageMap(m1, p)[v];
             0 < FrameOf(e) < |m1| && NewlyMapped(m1, u1, m2, u2, d, v, f, m1[FrameOf(e)], FlagsOf(e))
    ensures p in u2 && u2[p] == Dir && IsDir(m2, p) && PageMap(m2, p) == PageMap(m1, p)
    ensures CopyOf(m2, PageMap(m1, p), PageMap(m2, d), kernel, v + 1)
    ensures Extends(m1, u1, m2, u2, d)
  {
    hide Tabled, Pte, PageMap, SameUsers, Keeps, Grew;
    OtherDirectory(m1, u1, m2, u2, d, p);
    var mp, c1, c2, n := PageMap(m1, p), PageMap(m1, d), PageMap(m2, d), v + 1;
    forall w | 0 <= w < NPAGES
      ensures CopyAt(m2, mp, c2, kernel, n, w)
    {
      assert CopyAt(m1, mp, c1, kernel, v, w);
      if w <= v {
        KeptContents(m1, u1, m2, u2, d, w);
        KeptContents(m1, u1, m2, u2, p, w);
      }
      if w == v { OddFlags(m1, p, v); }
    }
  }

  lemma ExtendsNew(m0: Memory, u0: Uses, m1: Memory, u1: Uses, m2: Memory, u2: Uses, d: int, v: int, f: int, e: int)
    requires 0 <= v < NPAGES && IsDir(m1, d) && IsDir(m2, d) && 0 < FrameOf(e) < |m1| && Extends(m0, u0, m1, u1, d)
    requires NewlyMapped(m1, u1, m2, u2, d, v, f, m1[FrameOf(e)], FlagsOf(e))
    ensures Extends(m0, u0, m2, u2, d)
  {
    hide Extends, PageMap, SameUsers, Pte;
    ExtendsTrans(m0, u0, m1, u1, m2, u2, d);
  }

  lemma OddFlags(mem: Memory, p: int, v: int)
    requires IsDir(mem, p) && 0 <= v < NPAGES && PageMap(mem, p)[v] != 0
    ensures FlagsOf(PageMap(mem, p)[v]) % 2 == 1
  {
    var e := PageEntry(mem, p, v);
    PteParts(FrameOf(e), FlagsOf(e));
  }

  // ---- isolation ----

  /** No user page of one address space shares a frame with another page of any. */
  lemma UserPagesApart(mem: Memory, use: Uses, d: int, v: int, e: int, w: int)
    requires UserSlot(mem, use, d, v) && UserSlot(mem, use, e, w) && (d, v) != (e, w)
    ensures FrameOf(PageMap(mem, d)[v]) != FrameOf(PageMap(mem, e)[w])
  {
    UserFrame(mem, use, d, v);
    UserFrame(mem, use, e, w);
    assert PageMap(mem, d)[v] == PageEntry(mem, d, v) && PageMap(mem, e)[w] == PageEntry(mem, e, w);
    SlotPage(v / NENT, v % NENT, w);
  }

  // ---- freerange ----

  function WithFree(use: Uses, first: int, last: int): (r: Uses)
    ensures r.Keys == use.Keys
  {
    map f | f in use :: if first <= f < last then Free else use[f]
  }

  lemma WithNone(use: Uses, f: int, last: int)
    ensures WithFree(use, f, f) == use && (last <= f ==> WithFree(use, f, last) == use)
  {
  }

  lemma WithNext(use: Uses, first: int, f: int)
    requires f in use && first <= f
    ensures WithFree(use, first, f)[f] == use[f] && WithFree(use, first, f)[f := Free] == WithFree(use, first, f + 1)
    ensures f * PGSIZE / PGSIZE == f
  {
  }
}
