/**
 The process table of proc.c as a value, and its steps between two releases of ptable.lock.

 `code` says where in the kernel a process is when that matters: in fork with the slot it
 allocated, or in wait.  `exited` and `reaped` record pids.
 */
module ProcSpec {

  datatype Status = Unused | Embryo | Sleeping | Runnable | Running | Zombie

  /** What a process sleeps on: nothing, a process (in wait), or another address. */
  datatype Chan = Nothing | OnProc(p: int) | Address(a: int)

  const NONE: int := -1

  datatype Proc = Proc(status: Status, pid: int, parent: int, chan: Chan, killed: bool)

  datatype Code = Normal | Forking(np: int, linked: bool) | Waiting

  datatype Table = Table(procs: seq<Proc>, init: int, nextpid: int, code: seq<Code>, exited: set<int>, reaped: set<int>)

  predicate Live(s: Status) {
    s == Sleeping || s == Runnable || s == Running
  }

  // ---- scans of the table ----

  /** The first unused slot, or the table's size. */
  function FirstUnused(procs: seq<Proc>): (i: nat)
    ensures i <= |procs| && (forall j :: 0 <= j < i ==> procs[j].status != Unused)
    ensures i < |procs| ==> procs[i].status == Unused
    decreases |procs|
  {
    if procs == [] then 0
    else var i := FirstUnused(procs[..|procs|-1]);
      if i < |procs| - 1 then i else if procs[|procs|-1].status == Unused then |procs| - 1 else |procs|
  }

  predicate IsZombieChild(procs: seq<Proc>, p: int, j: int)
    requires 0 <= j < |procs|
  {
    procs[j].parent == p && procs[j].status == Zombie
  }

  predicate HasZombie(procs: seq<Proc>, p: int, n: nat)
    requires n <= |procs|
  {
    exists j :: 0 <= j < n && IsZombieChild(procs, p, j)
  }

  predicate HasKids(procs: seq<Proc>, p: int, n: nat)
    requires n <= |procs|
  {
    exists j :: 0 <= j < n && procs[j].parent == p
  }

  /** wakeup1(c). */
  function WokenOne(q: Proc, c: Chan): (r: Proc) {
    if q.status == Sleeping && q.chan == c then q.(status := Runnable) else q
  }

  function Woken(procs: seq<Proc>, c: Chan): (r: seq<Proc>)
    ensures |r| == |procs| && forall i :: 0 <= i < |r| ==> r[i] == WokenOne(procs[i], c)
  {
    seq(|procs|, i requires 0 <= i < |procs| => WokenOne(procs[i], c))
  }

  /** exit's loop over the first n slots: p's children go to init, which wakes up when one of
      them is a zombie. */
  function Adopted(procs: seq<Proc>, p: int, init: int, n: nat): (r: seq<Proc>)
    requires n <= |procs|
    ensures |r| == |procs|
    ensures forall i :: 0 <= i < |r| ==> r[i] == AdoptedOne(procs, p, init, n, i)
  {
    seq(|procs|, i requires 0 <= i < |procs| => AdoptedOne(procs, p, init, n, i))
  }

  function AdoptedOne(procs: seq<Proc>, p: int, init: int, n: nat, i: nat): (r: Proc)
    requires n <= |procs| && i < |procs|
  {
    var q := if i < n && procs[i].parent == p then procs[i].(parent := init) else procs[i];
    if HasZombie(procs, p, n) then WokenOne(q, OnProc(init)) else q
  }

  /** wait's reaped slot: pid, parent, killed and state cleared. */
  function Cleared(q: Proc): (r: Proc) {
    q.(status := Unused, pid := 0, parent := NONE, killed := false)
  }

  // ---- steps ----

  datatype Step =
    | ForkAlloc(p: int) | ForkFail(p: int) | ForkLink(p: int) | ForkRun(p: int)
    | Exit(p: int) | Wait(p: int, j: int)     // j: the zombie child found, if any
    | Sleep(p: int, a: int) | Wakeup(a: int) | Kill(j: int)     // j: the slot whose pid matches
    | Schedule(p: int) | Yield(p: int)

  predicate At(t: Table, p: int) {
    0 <= p < |t.procs| == |t.code| && t.procs[p].status == Running
  }

  predicate Enabled(t: Table, a: Step) {
    match a
    case ForkAlloc(p) => At(t, p) && t.code[p] == Normal
    case ForkFail(p) => At(t, p) && t.code[p].Forking? && !t.code[p].linked && 0 <= t.code[p].np < |t.procs|
    case ForkLink(p) => At(t, p) && t.code[p].Forking? && !t.code[p].linked && 0 <= t.code[p].np < |t.procs|
    case ForkRun(p) => At(t, p) && t.code[p].Forking? && t.code[p].linked && 0 <= t.code[p].np < |t.procs|
    case Exit(p) => At(t, p) && t.code[p] == Normal && p != t.init
    case Wait(p, j) =>
      && At(t, p) && !t.code[p].Forking? && 0 <= j <= |t.procs|
      && !HasZombie(t.procs, p, j) && (j < |t.procs| ==> IsZombieChild(t.procs, p, j))
    case Sleep(p, _) => At(t, p) && t.code[p] == Normal
    case Wakeup(_) => true
    case Kill(j) => 0 <= j < |t.procs|
    case Schedule(p) => 0 <= p < |t.procs| && t.procs[p].status == Runnable
    case Yield(p) => At(t, p)
  }

  function Next(t: Table, a: Step): (r: Table)
    requires Enabled(t, a)
  {
    match a
    case ForkAlloc(p) => Allocated(t, p)
    case ForkFail(p) => Unallocated(t, p)
    case ForkLink(p) => Linked(t, p)
    case ForkRun(p) => Started(t, p)
    case Exit(p) => Exited(t, p)
    case Wait(p, j) => if j < |t.procs| then Reaped(t, p, j) else Waited(t, p)
    case Sleep(p, c) => t.(procs := t.procs[p := t.procs[p].(status := Sleeping, chan := Address(c))])
    case Wakeup(c) => t.(procs := Woken(t.procs, Address(c)))
    case Kill(j) => t.(procs := t.procs[j := Killed(t.procs[j])])
    case Schedule(p) => t.(procs := t.procs[p := t.procs[p].(status := Running, chan := Nothing)])
    case Yield(p) => t.(procs := t.procs[p := t.procs[p].(status := Runnable)])
  }

  /** allocproc; fork fails when the table is full. */
  function Allocated(t: Table, p: int): (r: Table)
    requires 0 <= p < |t.code|
  {
    var np := FirstUnused(t.procs);
    if np == |t.procs| then t
    else t.(procs := t.procs[np := t.procs[np].(status := Embryo, pid := t.nextpid)], nextpid := t.nextpid + 1,
            code := t.code[p := Forking(np, false)])
  }

  /** No memory for the new process. */
  function Unallocated(t: Table, p: int): (r: Table)
    requires 0 <= p < |t.code| && t.code[p].Forking? && 0 <= t.code[p].np < |t.procs|
  {
    var np := t.code[p].np;
    t.(procs := t.procs[np := t.procs[np].(status := Unused)], code := t.code[p := Normal])
  }

  /** np->parent = curproc, without the lock. */
  function Linked(t: Table, p: int): (r: Table)
    requires 0 <= p < |t.code| && t.code[p].Forking? && 0 <= t.code[p].np < |t.procs|
  {
    var np := t.code[p].np;
    t.(procs := t.procs[np := t.procs[np].(parent := p)], code := t.code[p := Forking(np, true)])
  }

  function Started(t: Table, p: int): (r: Table)
    requires 0 <= p < |t.code| && t.code[p].Forking? && 0 <= t.code[p].np < |t.procs|
  {
    var np := t.code[p].np;
    t.(procs := t.procs[np := t.procs[np].(status := Runnable)], code := t.code[p := Normal])
  }

  function Exited(t: Table, p: int): (r: Table)
    requires 0 <= p < |t.procs|
  {
    var w := Woken(t.procs, OnProc(t.procs[p].parent));
    var o := Adopted(w, p, t.init, |w|);
    t.(procs := o[p := o[p].(status := Zombie)], exited := t.exited + {t.procs[p].pid})
  }

  function Reaped(t: Table, p: int, j: int): (r: Table)
    requires 0 <= p < |t.code| && 0 <= j < |t.procs|
  {
    t.(procs := t.procs[j := Cleared(t.procs[j])], code := t.code[p := Normal], reaped := t.reaped + {t.procs[j].pid})
  }

  /** No zombie among the children: return -1, or sleep on itself. */
  function Waited(t: Table, p: int): (r: Table)
    requires 0 <= p < |t.procs| == |t.code|
  {
    if !HasKids(t.procs, p, |t.procs|) || t.procs[p].killed then t.(code := t.code[p := Normal])
    else t.(procs := t.procs[p := t.procs[p].(status := Sleeping, chan := OnProc(p))], code := t.code[p := Waiting])
  }

  function Killed(q: Proc): (r: Proc) {
    q.(killed := true, status := if q.status == Sleeping then Runnable else q.status)
  }

  /** The first process, and nothing else. */
  ghost predicate Start(t: Table) {
    && 0 <= t.init < |t.procs| == |t.code| && t.exited == {} && t.reaped == {} && t.nextpid > 1
    && t.procs[t.init] == Proc(Runnable, 1, NONE, Nothing, false)
    && (forall i :: 0 <= i < |t.procs| && i != t.init ==> t.procs[i] == Proc(Unused, 0, NONE, Nothing, false))
    && (forall i :: 0 <= i < |t.code| ==> t.code[i] == Normal)
  }

  ghost predicate CanStep(t: Table, u: Table) {
    exists a :: Enabled(t, a) && u == Next(t, a)
  }

  ghost predicate Run(ts: seq<Table>) {
    |ts| > 0 && Start(ts[0]) && forall i :: 0 <= i < |ts| - 1 ==> CanStep(ts[i], ts[i+1])
  }

  // ---- the invariant ----

  /** A slot's own consistency: unused slots have no parent, every other process that runs or
      has run has a live parent, and who sleeps on itself is in wait. */
  predicate SlotOk(t: Table, i: int)
    requires 0 <= i < |t.procs| == |t.code|
  {
    var q := t.procs[i];
    && (q.status == Unused ==> q.parent == NONE)
    && (!Live(q.status) ==> t.code[i] == Normal)
    && (q.status != Unused ==> 0 < q.pid < t.nextpid)
    && (i == t.init ==> q.parent == NONE && Live(q.status))
    && (i != t.init && (Live(q.status) || q.status == Zombie) ==>
          0 <= q.parent < |t.procs| && q.parent != i && Live(t.procs[q.parent].status))
    && (q.status == Sleeping ==> (q.chan == OnProc(i) <==> t.code[i] == Waiting) && (q.chan.OnProc? ==> q.chan.p == i))
    && (q.status == Sleeping ==> q.chan != Nothing && !t.code[i].Forking?)
    && (q.status != Unused ==> q.pid !in t.reaped && (q.pid in t.exited <==> q.status == Zombie))
    && (t.code[i].Forking? ==>
          && 0 <= t.code[i].np < |t.procs| && t.procs[t.code[i].np].status == Embryo
          && t.procs[t.code[i].np].parent == if t.code[i].linked then i else NONE)
  }

  /** Two slots: distinct pids, distinct slots being forked, and nobody sleeps in wait with a
      zombie child. */
  predicate PairOk(t: Table, i: int, j: int)
    requires 0 <= i < |t.procs| == |t.code| && 0 <= j < |t.procs|
  {
    && (i != j && t.procs[i].status != Unused && t.procs[j].status != Unused ==> t.procs[i].pid != t.procs[j].pid)
    && (i != j && t.code[i].Forking? && t.code[j].Forking? ==> t.code[i].np != t.code[j].np)
    && (t.procs[i].status == Sleeping && t.procs[i].chan == OnProc(i) ==> !IsZombieChild(t.procs, i, j))
    && (t.procs[j].status == Embryo && t.procs[j].parent == i ==> t.code[i].Forking? && t.code[i].np == j)
  }

  /** Who sleeps in wait has a child. */
  predicate KidsOk(t: Table, i: int)
    requires 0 <= i < |t.procs| == |t.code|
  {
    t.procs[i].status == Sleeping && t.code[i] == Waiting ==> HasKids(t.procs, i, |t.procs|)
  }

  predicate IsZombie(t: Table, i: int, pid: int) {
    0 <= i < |t.procs| && t.procs[i].status == Zombie && t.procs[i].pid == pid
  }

  /** An exited process is a zombie or has been reaped. */
  ghost predicate Accounted(t: Table, pid: int) {
    && (pid in t.exited <==> pid in t.reaped || exists i :: IsZombie(t, i, pid))
    && (pid in t.exited ==> pid < t.nextpid)
  }

  ghost predicate Inv(t: Table) {
    && |t.procs| == |t.code| && 0 <= t.init < |t.procs|
    && (forall i :: 0 <= i < |t.procs| ==> SlotOk(t, i))
    && (forall i, j :: 0 <= i < |t.procs| && 0 <= j < |t.procs| ==> PairOk(t, i, j))
    && (forall pid :: Accounted(t, pid))
    && (forall i :: 0 <= i < |t.procs| ==> KidsOk(t, i))
  }

  // ---- every step keeps it ----

  lemma StartOk(t: Table)
    requires Start(t)
    ensures Inv(t)
  {
    forall pid
      ensures Accounted(t, pid)
    {
      forall i ensures !IsZombie(t, i, pid) {}
    }
  }

  /** Steps that leave pids and zombies alone keep the accounts. */
  lemma SameAccounts(t: Table, u: Table)
    requires Inv(t) && |u.procs| == |t.procs| && u.exited == t.exited && u.reaped == t.reaped && u.nextpid >= t.nextpid
    requires forall i :: 0 <= i < |t.procs| ==> (u.procs[i].status == Zombie <==> t.procs[i].status == Zombie)
    requires forall i :: 0 <= i < |t.procs| && t.procs[i].status == Zombie ==> u.procs[i].pid == t.procs[i].pid
    ensures forall pid :: Accounted(u, pid)
  {
    forall pid
      ensures Accounted(u, pid)
    {
      assert Accounted(t, pid);
      if i :| IsZombie(t, i, pid) { assert IsZombie(u, i, pid); }
      if i :| IsZombie(u, i, pid) { assert IsZombie(t, i, pid); }
    }
  }

  /** Children of sleepers stay theirs. */
  lemma SameKids(t: Table, u: Table)
    requires Inv(t) && |u.procs| == |t.procs| == |u.code|
    requires forall i :: 0 <= i < |t.procs| && u.procs[i].status == Sleeping && u.code[i] == Waiting ==>
               t.procs[i].status == Sleeping && t.code[i] == Waiting
               && forall j :: 0 <= j < |t.procs| && t.procs[j].parent == i ==> u.procs[j].parent == i
    ensures forall i :: 0 <= i < |t.procs| ==> KidsOk(u, i)
  {
    forall i | 0 <= i < |t.procs|
      ensures KidsOk(u, i)
    {
      assert KidsOk(t, i);
      if u.procs[i].status == Sleeping && u.code[i] == Waiting {
        var j :| 0 <= j < |t.procs| && t.procs[j].parent == i;
        assert u.procs[j].parent == i;
      }
    }
  }

  lemma AllocSlot(t: Table, p: int, i: int)
    requires Inv(t) && Enabled(t, ForkAlloc(p)) && 0 <= i < |t.procs|
    ensures |Allocated(t, p).procs| == |t.procs| == |Allocated(t, p).code| && SlotOk(Allocated(t, p), i)
  {
    var np := FirstUnused(t.procs);
    assert Accounted(t, t.nextpid);
    assert SlotOk(t, i) && SlotOk(t, p);
    if np < |t.procs| { assert SlotOk(t, np); }
  }

  lemma AllocPair(t: Table, p: int, i: int, j: int)
    requires Inv(t) && Enabled(t, ForkAlloc(p)) && 0 <= i < |t.procs| && 0 <= j < |t.procs|
    ensures |Allocated(t, p).procs| == |t.procs| == |Allocated(t, p).code| && PairOk(Allocated(t, p), i, j)
  {
    assert PairOk(t, i, j) && SlotOk(t, i) && SlotOk(t, j);
    if FirstUnused(t.procs) < |t.procs| { assert SlotOk(t, FirstUnused(t.procs)); }
  }

  lemma AllocOk(t: Table, p: int)
    requires Inv(t) && Enabled(t, ForkAlloc(p))
    ensures Inv(Allocated(t, p))
  {
    var u := Allocated(t, p);
    AllocAccounts(t, p);
    hide Allocated, SlotOk, PairOk, KidsOk, Accounted;
    forall i | 0 <= i < |t.procs|
      ensures SlotOk(u, i)
    {
      AllocSlot(t, p, i);
    }
    forall i, j | 0 <= i < |t.procs| && 0 <= j < |t.procs|
      ensures PairOk(u, i, j)
    {
      AllocPair(t, p, i, j);
    }
  }

  lemma AllocAccounts(t: Table, p: int)
    requires Inv(t) && Enabled(t, ForkAlloc(p))
    ensures var u := Allocated(t, p);
            && |u.procs| == |t.procs| == |u.code| && u.init == t.init
            && (forall pid :: Accounted(u, pid)) && (forall i :: 0 <= i < |u.procs| ==> KidsOk(u, i))
  {
    var u := Allocated(t, p);
    var np := FirstUnused(t.procs);
    if np < |t.procs| { assert SlotOk(t, np); }
    SameAccounts(t, u);
    SameKids(t, u);
  }

  lemma UnallocOk(t: Table, p: int)
    requires Inv(t) && Enabled(t, ForkFail(p))
    ensures Inv(Unallocated(t, p))
  {
    var u := Unallocated(t, p);
    var np := t.code[p].np;
    assert SlotOk(t, p);
    SameAccounts(t, u);
    SameKids(t, u);
    forall i | 0 <= i < |u.procs|
      ensures SlotOk(u, i)
    {
      assert SlotOk(t, i) && PairOk(t, i, p);
    }
    forall i, j | 0 <= i < |u.procs| && 0 <= j < |u.procs|
      ensures PairOk(u, i, j)
    {
      assert PairOk(t, i, j) && PairOk(t, p, j);
    }
  }

  lemma LinkOk(t: Table, p: int)
    requires Inv(t) && Enabled(t, ForkLink(p))
    ensures Inv(Linked(t, p))
  {
    var u := Linked(t, p);
    assert SlotOk(t, p);
    SameAccounts(t, u);
    SameKids(t, u);
    forall i | 0 <= i < |u.procs|
      ensures SlotOk(u, i)
    {
      assert SlotOk(t, i) && PairOk(t, i, p);
    }
    forall i, j | 0 <= i < |u.procs| && 0 <= j < |u.procs|
      ensures PairOk(u, i, j)
    {
      assert PairOk(t, i, j);
    }
  }

  lemma StartedOk(t: Table, p: int)
    requires Inv(t) && Enabled(t, ForkRun(p))
    ensures Inv(Started(t, p))
  {
    var u := Started(t, p);
    assert SlotOk(t, p);
    SameAccounts(t, u);
    SameKids(t, u);
    forall i | 0 <= i < |u.procs|
      ensures SlotOk(u, i)
    {
      assert SlotOk(t, i) && PairOk(t, i, p);
    }
    forall i, j | 0 <= i < |u.procs| && 0 <= j < |u.procs|
      ensures PairOk(u, i, j)
    {
      assert PairOk(t, i, j) && PairOk(t, p, j);
    }
  }

  /** exit, slot by slot. */
  lemma ExitSlot(t: Table, p: int, i: int)
    requires Inv(t) && Enabled(t, Exit(p)) && 0 <= i < |t.procs|
    ensures var q, r := t.procs[i], Exited(t, p).procs[i];
            && r.pid == q.pid && r.parent == (if q.parent == p then t.init else q.parent)
            && (r.status == Zombie <==> q.status == Zombie || i == p)
            && (Live(r.status) <==> Live(q.status) && i != p)
            && (r.status == Sleeping ==>
                  q.status == Sleeping && r.chan == q.chan && q.chan != OnProc(t.procs[p].parent))
            && (r.status == Unused <==> q.status == Unused) && (r.status == Embryo <==> q.status == Embryo)
            && (r.status == Sleeping && (exists j :: 0 <= j < |t.procs| && IsZombieChild(t.procs, p, j)) ==>
                q.chan != OnProc(t.init))
  {
    var w := Woken(t.procs, OnProc(t.procs[p].parent));
    forall j | 0 <= j < |t.procs|
      ensures IsZombieChild(w, p, j) <==> IsZombieChild(t.procs, p, j)
    {
    }
  }

  lemma ExitOk(t: Table, p: int)
    requires Inv(t) && Enabled(t, Exit(p))
    ensures Inv(Exited(t, p))
  {
    hide Exited, Woken, Adopted, SlotOk, PairOk, Accounted, KidsOk;
    ExitSize(t, p);
    var u := Exited(t, p);
    forall i | 0 <= i < |u.procs|
      ensures SlotOk(u, i)
    {
      ExitSlotOk(t, p, i);
    }
    forall i, j | 0 <= i < |u.procs| && 0 <= j < |u.procs|
      ensures PairOk(u, i, j)
    {
      ExitPairOk(t, p, i, j);
    }
    ExitAccounts(t, p);
    ExitKids(t, p);
  }

  lemma ExitKids(t: Table, p: int)
    requires Inv(t) && Enabled(t, Exit(p))
    ensures |Exited(t, p).procs| == |t.procs| == |Exited(t, p).code|
    ensures forall i :: 0 <= i < |t.procs| ==> KidsOk(Exited(t, p), i)
  {
    hide Exited;
    ExitSize(t, p);
    var u := Exited(t, p);
    forall i | 0 <= i < |t.procs|
      ensures KidsOk(u, i)
    {
      assert KidsOk(t, i);
      ExitSlot(t, p, i);
      if u.procs[i].status == Sleeping && u.code[i] == Waiting {
        var j :| 0 <= j < |t.procs| && t.procs[j].parent == i;
        ExitSlot(t, p, j);
        assert u.procs[j].parent == i;
      }
    }
  }

  lemma ExitSize(t: Table, p: int)
    requires Enabled(t, Exit(p))
    ensures var u := Exited(t, p);
            |u.procs| == |t.procs| && u.code == t.code && u.init == t.init && u.nextpid == t.nextpid
                && u.reaped == t.reaped
            && u.exited == t.exited + {t.procs[p].pid}
  {
  }

  lemma ExitSlotOk(t: Table, p: int, i: int)
    requires Inv(t) && Enabled(t, Exit(p)) && 0 <= i < |t.procs|
    ensures |Exited(t, p).procs| == |t.procs| && SlotOk(Exited(t, p), i)
  {
    hide Exited;
    ExitSize(t, p);
    assert SlotOk(t, i) && SlotOk(t, p) && SlotOk(t, t.init) && PairOk(t, i, p);
    ExitSlot(t, p, i);
    if 0 <= t.procs[i].parent < |t.procs| { ExitSlot(t, p, t.procs[i].parent); }
    ExitSlot(t, p, t.init);
    if t.code[i].Forking? { ExitSlot(t, p, t.code[i].np); }
  }

  lemma ExitPairOk(t: Table, p: int, i: int, j: int)
    requires Inv(t) && Enabled(t, Exit(p)) && 0 <= i < |t.procs| && 0 <= j < |t.procs|
    ensures |Exited(t, p).procs| == |t.procs| && PairOk(Exited(t, p), i, j)
  {
    hide Exited;
    ExitSize(t, p);
    assert PairOk(t, i, j) && PairOk(t, p, j) && SlotOk(t, p) && SlotOk(t, i) && SlotOk(t, j);
    ExitSlot(t, p, i);
    ExitSlot(t, p, j);
    assert IsZombieChild(t.procs, p, j) <==> t.procs[j].parent == p && t.procs[j].status == Zombie;
  }

  lemma ExitAccounts(t: Table, p: int)
    requires Inv(t) && Enabled(t, Exit(p))
    ensures forall pid :: Accounted(Exited(t, p), pid)
  {
    hide Exited;
    ExitSize(t, p);
    var u := Exited(t, p);
    assert SlotOk(t, p);
    ExitSlot(t, p, p);
    assert IsZombie(u, p, t.procs[p].pid);
    forall pid
      ensures Accounted(u, pid)
    {
      assert Accounted(t, pid);
      if i :| IsZombie(t, i, pid) { ExitSlot(t, p, i); assert IsZombie(u, i, pid); }
      if i :| IsZombie(u, i, pid) { ExitSlot(t, p, i); assert i == p || IsZombie(t, i, pid); }
    }
  }

  lemma ReapOk(t: Table, p: int, j: int)
    requires Inv(t) && Enabled(t, Wait(p, j)) && j < |t.procs|
    ensures Inv(Reaped(t, p, j))
    ensures t.procs[j].pid in t.exited && t.procs[j].pid !in t.reaped
  {
    var u := Reaped(t, p, j);
    assert SlotOk(t, p) && SlotOk(t, j);
    SameKids(t, u);
    forall i | 0 <= i < |u.procs|
      ensures SlotOk(u, i)
    {
      assert SlotOk(t, i) && PairOk(t, i, j);
    }
    forall i, k | 0 <= i < |u.procs| && 0 <= k < |u.procs|
      ensures PairOk(u, i, k)
    {
      assert PairOk(t, i, k);
    }
    forall pid
      ensures Accounted(u, pid)
    {
      assert Accounted(t, pid);
      if i :| IsZombie(t, i, pid) { assert PairOk(t, i, j); assert i == j || IsZombie(u, i, pid); }
      if i :| IsZombie(u, i, pid) { assert IsZombie(t, i, pid); }
    }
  }

  lemma WaitOk(t: Table, p: int)
    requires Inv(t) && Enabled(t, Wait(p, |t.procs|))
    ensures Inv(Waited(t, p))
  {
    var u := Waited(t, p);
    SameAccounts(t, u);
    WaitKids(t, p);
    forall i | 0 <= i < |u.procs|
      ensures SlotOk(u, i)
    {
      assert SlotOk(t, i);
    }
    forall i, k | 0 <= i < |u.procs| && 0 <= k < |u.procs|
      ensures PairOk(u, i, k)
    {
      assert PairOk(t, i, k) && !IsZombieChild(t.procs, p, k);
    }
  }

  lemma WaitKids(t: Table, p: int)
    requires Inv(t) && Enabled(t, Wait(p, |t.procs|))
    ensures forall i :: 0 <= i < |t.procs| ==> KidsOk(Waited(t, p), i)
  {
    var u := Waited(t, p);
    forall i | 0 <= i < |t.procs|
      ensures KidsOk(u, i)
    {
      assert KidsOk(t, i);
      if u.procs[i].status == Sleeping && u.code[i] == Waiting {
        var j :| 0 <= j < |t.procs| && t.procs[j].parent == i;
        assert u.procs[j].parent == i;
      }
    }
  }

  /** A change of one process that leaves its pid, its parent and whether it lives. */
  ghost predicate MayChange(t: Table, p: int, q: Proc) {
    && Inv(t) && 0 <= p < |t.procs|
    && q.pid == t.procs[p].pid && q.parent == t.procs[p].parent
    && (q.status == t.procs[p].status || (Live(q.status) && Live(t.procs[p].status)))
    && (q.status == Sleeping ==> t.procs[p] == q || (q.chan.Address? && t.code[p] == Normal))
  }

  lemma ChangeSlot(t: Table, p: int, q: Proc, i: int)
    requires MayChange(t, p, q) && 0 <= i < |t.procs|
    ensures SlotOk(t.(procs := t.procs[p := q]), i)
  {
    assert SlotOk(t, i) && SlotOk(t, p);
  }

  lemma ChangePair(t: Table, p: int, q: Proc, i: int, k: int)
    requires MayChange(t, p, q) && 0 <= i < |t.procs| && 0 <= k < |t.procs|
    ensures PairOk(t.(procs := t.procs[p := q]), i, k)
  {
    assert SlotOk(t, i) && SlotOk(t, p) && PairOk(t, i, k);
    hide SlotOk;
  }

  lemma ChangeOne(t: Table, p: int, q: Proc)
    requires MayChange(t, p, q)
    ensures Inv(t.(procs := t.procs[p := q]))
  {
    var u := t.(procs := t.procs[p := q]);
    SameAccounts(t, u);
    SameKids(t, u);
    hide SlotOk, PairOk, KidsOk, Accounted;
    forall i | 0 <= i < |u.procs|
      ensures SlotOk(u, i)
    {
      ChangeSlot(t, p, q, i);
    }
    forall i, k | 0 <= i < |u.procs| && 0 <= k < |u.procs|
      ensures PairOk(u, i, k)
    {
      ChangePair(t, p, q, i, k);
    }
  }

  lemma WakeupOk(t: Table, c: int)
    requires Inv(t)
    ensures Inv(t.(procs := Woken(t.procs, Address(c))))
  {
    var u := t.(procs := Woken(t.procs, Address(c)));
    SameAccounts(t, u);
    SameKids(t, u);
    forall i | 0 <= i < |u.procs|
      ensures SlotOk(u, i)
    {
      assert SlotOk(t, i);
    }
    forall i, k | 0 <= i < |u.procs| && 0 <= k < |u.procs|
      ensures PairOk(u, i, k)
    {
      assert PairOk(t, i, k);
    }
  }

  lemma OtherOk(t: Table, a: Step)
    requires Inv(t) && Enabled(t, a) && (a.Sleep? || a.Wakeup? || a.Kill? || a.Schedule? || a.Yield?)
    ensures Inv(Next(t, a))
  {
    hide Inv;
    match a
    case Wakeup(c) => WakeupOk(t, c);
    case Sleep(p, c) => ChangeOne(t, p, t.procs[p].(status := Sleeping, chan := Address(c)));
    case Kill(j) => ChangeOne(t, j, Killed(t.procs[j]));
    case Schedule(p) => ChangeOne(t, p, t.procs[p].(status := Running, chan := Nothing));
    case Yield(p) => ChangeOne(t, p, t.procs[p].(status := Runnable));
  }

  lemma InvNext(t: Table, a: Step)
    requires Inv(t) && Enabled(t, a)
    ensures Inv(Next(t, a))
  {
    match a
    case ForkAlloc(p) => AllocOk(t, p);
    case ForkFail(p) => UnallocOk(t, p);
    case ForkLink(p) => LinkOk(t, p);
    case ForkRun(p) => StartedOk(t, p);
    case Exit(p) => ExitOk(t, p);
    case Wait(p, j) => if j < |t.procs| { ReapOk(t, p, j); } else { WaitOk(t, p); }
    case _ => OtherOk(t, a);
  }

  lemma {:induction false} InvRun(ts: seq<Table>, i: nat)
    requires Run(ts) && i < |ts|
    ensures Inv(ts[i])
  {
    hide Inv, Enabled, Next, Start;
    if i == 0 {
      StartOk(ts[0]);
    } else {
      InvRun(ts, i - 1);
      assert CanStep(ts[i-1], ts[i]);
      var a :| Enabled(ts[i-1], a) && ts[i] == Next(ts[i-1], a);
      InvNext(ts[i-1], a);
    }
  }

  // ---- the results, over every run ----

  /** Nobody sleeps in wait while it has a zombie child. */
  lemma WaiterSeesZombie(ts: seq<Table>, n: nat, i: int, j: int)
    requires Run(ts) && n < |ts| && 0 <= i < |ts[n].procs| == |ts[n].code| && 0 <= j < |ts[n].procs|
    requires ts[n].code[i] == Waiting && ts[n].procs[i].status == Sleeping
    ensures !IsZombieChild(ts[n].procs, i, j)
  {
    InvRun(ts, n);
    assert SlotOk(ts[n], i) && PairOk(ts[n], i, j);
  }

  /** Who sleeps in wait has a live child, whose exit will wake it. */
  lemma WaiterHasChild(ts: seq<Table>, n: nat, i: int) returns (j: int)
    requires Run(ts) && n < |ts| && 0 <= i < |ts[n].procs| == |ts[n].code|
    requires ts[n].code[i] == Waiting && ts[n].procs[i].status == Sleeping
    ensures 0 <= j < |ts[n].procs| && ts[n].procs[j].parent == i && Live(ts[n].procs[j].status)
  {
    InvRun(ts, n);
    assert KidsOk(ts[n], i);
    j :| 0 <= j < |ts[n].procs| && ts[n].procs[j].parent == i;
    assert SlotOk(ts[n], i) && SlotOk(ts[n], j) && PairOk(ts[n], i, j);
  }

  /** Every process but init, running or zombie, has a parent that has not exited. */
  lemma ParentLives(ts: seq<Table>, n: nat, i: int)
    requires Run(ts) && n < |ts| && 0 <= i < |ts[n].procs| && i != ts[n].init
    requires Live(ts[n].procs[i].status) || ts[n].procs[i].status == Zombie
    ensures 0 <= ts[n].procs[i].parent < |ts[n].procs| && Live(ts[n].procs[ts[n].procs[i].parent].status)
  {
    InvRun(ts, n);
    assert SlotOk(ts[n], i);
  }

  /** What wait reaps has exited and was not reaped before. */
  lemma ReapedOnce(ts: seq<Table>, n: nat, p: int, j: int)
    requires Run(ts) && n < |ts| && Enabled(ts[n], Wait(p, j)) && j < |ts[n].procs|
    ensures var pid := ts[n].procs[j].pid; pid in ts[n].exited && pid !in ts[n].reaped
    ensures Next(ts[n], Wait(p, j)).reaped == ts[n].reaped + {ts[n].procs[j].pid}
  {
    InvRun(ts, n);
    ReapOk(ts[n], p, j);
  }

  /** Every process that exited is either a zombie, with a live parent to reap it, or reaped. */
  lemma NoLostExit(ts: seq<Table>, n: nat, pid: int)
    requires Run(ts) && n < |ts| && pid in ts[n].exited && pid !in ts[n].reaped
    ensures exists i :: IsZombie(ts[n], i, pid)
  {
    InvRun(ts, n);
    assert Accounted(ts[n], pid);
  }

  // ---- killed ----

  /** A run with the steps it takes. */
  ghost predicate StepsOf(ts: seq<Table>, sts: seq<Step>) {
    && |ts| == |sts| + 1 && Start(ts[0])
    && forall i :: 0 <= i < |sts| ==> Enabled(ts[i], sts[i]) && ts[i+1] == Next(ts[i], sts[i])
  }

  /** wait reaps slot j. */
  predicate Reaps(a: Step, j: int) {
    a.Wait? && a.j == j
  }

  /** The k-th of the first n steps is a kill that hits slot j, and the slot is not reaped later. */
  ghost predicate HitBy(sts: seq<Step>, k: nat, n: nat, j: int) {
    k < n <= |sts| && sts[k] == Kill(j) && forall m :: k < m < n ==> !Reaps(sts[m], j)
  }

  ghost predicate Hit(sts: seq<Step>, n: nat, j: int) {
    exists k: nat :: HitBy(sts, k, n, j)
  }

  lemma HitNext(sts: seq<Step>, n: nat, j: int)
    requires n < |sts|
    ensures Hit(sts, n + 1, j) <==> sts[n] == Kill(j) || (Hit(sts, n, j) && !Reaps(sts[n], j))
  {
    if k: nat :| HitBy(sts, k, n, j) { assert !Reaps(sts[n], j) ==> HitBy(sts, k, n + 1, j); }
    var m := n + 1;
    if k: nat :| HitBy(sts, k, m, j) { assert k < n ==> HitBy(sts, k, n, j); }
    assert sts[n] == Kill(j) ==> HitBy(sts, n, n + 1, j);
  }

  lemma StepKilled(t: Table, a: Step, j: int)
    requires Inv(t) && Enabled(t, a) && 0 <= j < |t.procs|
    ensures |Next(t, a).procs| == |t.procs|
    ensures Next(t, a).procs[j].killed <==> a == Kill(j) || (t.procs[j].killed && !Reaps(a, j))
  {
  }

  lemma NotHit(sts: seq<Step>, j: int)
    ensures !Hit(sts, 0, j)
  {
  }

  /** killed is set exactly by the kills that hit the slot since it was last reaped, in use or not. */
  lemma {:induction false} KilledIff(ts: seq<Table>, sts: seq<Step>, n: nat, j: int)
    requires StepsOf(ts, sts) && n < |ts| && 0 <= j < |ts[0].procs|
    ensures |ts[n].procs| == |ts[0].procs| && Inv(ts[n])
    ensures ts[n].procs[j].killed <==> Hit(sts, n, j)
  {
    hide Inv, Enabled, Next, Hit, Reaps;
    if n > 0 {
      KilledIff(ts, sts, n - 1, j);
      StepKilled(ts[n-1], sts[n-1], j);
      InvNext(ts[n-1], sts[n-1]);
      HitNext(sts, n - 1, j);
    } else {
      NotHit(sts, j);
      StartOk(ts[0]);
    }
  }

  predicate WaiterOk(t: Table, i: int)
    requires 0 <= i < |t.procs| == |t.code|
  {
    t.procs[i].status == Sleeping && t.code[i] == Waiting ==> !t.procs[i].killed
  }

  /** Slot j is an embryo only while some process is forking it. */
  predicate ForkedBy(t: Table, i: int, j: int) {
    0 <= i < |t.code| && t.code[i].Forking? && t.code[i].np == j
  }

  ghost predicate EmbryoOk(t: Table, j: int)
    requires 0 <= j < |t.procs|
  {
    t.procs[j].status == Embryo ==> exists i :: ForkedBy(t, i, j)
  }

  lemma StepWaiter(t: Table, a: Step, i: int)
    requires Inv(t) && Enabled(t, a) && 0 <= i < |t.procs| && WaiterOk(t, i)
    ensures |Next(t, a).procs| == |t.procs| == |Next(t, a).code| && WaiterOk(Next(t, a), i)
  {
    assert SlotOk(t, i);
  }

  lemma StepEmbryo(t: Table, a: Step, j: int)
    requires Inv(t) && Enabled(t, a) && 0 <= j < |t.procs| && EmbryoOk(t, j)
    ensures |Next(t, a).procs| == |t.procs| && EmbryoOk(Next(t, a), j)
  {
    var u := Next(t, a);
    if t.procs[j].status == Embryo {
      var i :| ForkedBy(t, i, j);
      assert u.procs[j].status == Embryo ==> ForkedBy(u, i, j);
    } else if u.procs[j].status == Embryo {
      assert ForkedBy(u, a.p, j);
    }
  }

  lemma {:induction false} SlotsRun(ts: seq<Table>, n: nat, i: int)
    requires Run(ts) && n < |ts| && 0 <= i < |ts[0].procs|
    ensures |ts[n].procs| == |ts[n].code| == |ts[0].procs| && WaiterOk(ts[n], i) && EmbryoOk(ts[n], i)
  {
    hide Inv, Enabled, Next, WaiterOk, EmbryoOk;
    InvRun(ts, n);
    if n > 0 {
      SlotsRun(ts, n - 1, i);
      InvRun(ts, n - 1);
      assert CanStep(ts[n-1], ts[n]);
      var a :| Enabled(ts[n-1], a) && ts[n] == Next(ts[n-1], a);
      StepWaiter(ts[n-1], a, i);
      StepEmbryo(ts[n-1], a, i);
    } else {
      FirstSlots(ts[0], i);
    }
  }

  lemma FirstSlots(t: Table, i: int)
    requires Start(t) && 0 <= i < |t.procs|
    ensures WaiterOk(t, i) && EmbryoOk(t, i)
  {
  }

  /** Nobody sleeps in wait once it is killed. */
  lemma WaiterNotKilled(ts: seq<Table>, n: nat, i: int)
    requires Run(ts) && n < |ts| && 0 <= i < |ts[0].procs|
    ensures |ts[n].procs| == |ts[n].code| == |ts[0].procs|
    ensures ts[n].procs[i].status == Sleeping && ts[n].code[i] == Waiting ==> !ts[n].procs[i].killed
  {
    SlotsRun(ts, n, i);
  }

  /** No slot is lost to a failing fork: an embryo is in the hands of a process in fork. */
  lemma EmbryoInFork(ts: seq<Table>, n: nat, j: int) returns (i: int)
    requires Run(ts) && n < |ts| && 0 <= j < |ts[0].procs| == |ts[n].procs| && ts[n].procs[j].status == Embryo
    ensures 0 <= i < |ts[n].code| && ts[n].code[i].Forking? && ts[n].code[i].np == j
  {
    SlotsRun(ts, n, j);
    i :| ForkedBy(ts[n], i, j);
  }

  /** kill looks at pids only, and an unused slot has pid 0: after kill(0) the next process in
      that slot is born killed. */
  lemma BornKilled() returns (ts: seq<Table>)
    ensures Run(ts) && |ts| == 6
    ensures |ts[1].procs| == 2 && ts[1].procs[1].pid == 0 && Enabled(ts[1], Kill(1)) && ts[2] == Next(ts[1], Kill(1))
    ensures |ts[5].procs| == 2 && ts[5].procs[1] == Proc(Runnable, 2, 0, Nothing, true)
  {
    var t0 := Table([Proc(Runnable, 1, NONE, Nothing, false), Proc(Unused, 0, NONE, Nothing, false)], 0, 2,
                    [Normal, Normal], {}, {});
    var t1 := Next(t0, Schedule(0));
    var t2 := Next(t1, Kill(1));
    assert CanStep(t0, t1) && CanStep(t1, t2);
    var t3, t4, t5 := BornIn(t2);
    ts := [t0, t1, t2, t3, t4, t5];
  }

  lemma BornIn(t2: Table) returns (t3: Table, t4: Table, t5: Table)
    requires t2.procs == [Proc(Running, 1, NONE, Nothing, false), Proc(Unused, 0, NONE, Nothing, true)]
    requires t2.nextpid == 2 && t2.code == [Normal, Normal]
    ensures CanStep(t2, t3) && CanStep(t3, t4) && CanStep(t4, t5)
    ensures |t5.procs| == 2 && t5.procs[1] == Proc(Runnable, 2, 0, Nothing, true)
  {
    t3 := Next(t2, ForkAlloc(0));
    t4 := Next(t3, ForkLink(0));
    t5 := Next(t4, ForkRun(0));
  }
}
