/**
 The process table of proc.c, updated in place.

 A method is the code of one process between taking ptable.lock and releasing it (fork also
 writes to the slot it allocated without the lock).  Each is a step of the table.
 */
module Proc {
  import opened ProcSpec

  class Ptable {
    const proc: array<Proc>
    const init: int              // initproc
    var nextpid: int
    ghost var code: seq<Code>
    ghost var exited: set<int>
    ghost var reaped: set<int>

    ghost function Tab(): (r: Table)
      reads this, proc
    {
      Table(proc[..], init, nextpid, code, exited, reaped)
    }

    ghost predicate Valid()
      reads this, proc
    {
      Inv(Tab())
    }

    /** userinit: an empty table but for the first process. */
    constructor (nproc: nat)
      requires nproc > 0
      ensures Valid() && Start(Tab()) && fresh(proc) && proc.Length == nproc
    {
      proc := new Proc[nproc](i => Proc(Unused, 0, NONE, Nothing, false));
      init, nextpid, exited, reaped := 0, 2, {}, {};
      code := seq(nproc, i => Normal);
      new;
      proc[0] := Proc(Runnable, 1, NONE, Nothing, false);
      StartOk(Tab());
    }

    /** allocproc for process p, up to the release of ptable.lock. */
    method Allocproc(p: int) returns (np: int)
      requires Valid() && Enabled(Tab(), ForkAlloc(p))
      modifies this`nextpid, this`code, proc
      ensures Valid() && Tab() == Next(old(Tab()), ForkAlloc(p))
      ensures np == NONE ==> forall j :: 0 <= j < proc.Length ==> old(proc[j]).status != Unused
      ensures np != NONE ==>
                && 0 <= np < proc.Length && old(proc[np]).status == Unused
                && (forall j :: 0 <= j < np ==> old(proc[j]).status != Unused)
                && proc[..] == old(proc[..])[np := old(proc[np]).(status := Embryo, pid := old(nextpid))]
    {
      hide Inv;
      AllocOk(Tab(), p);
      ghost var t := Tab();
      np := 0;
      while np < proc.Length && proc[np].status != Unused
        invariant 0 <= np <= proc.Length && forall j :: 0 <= j < np ==> proc[j].status != Unused
      {
        np := np + 1;
      }
      if np == proc.Length { return NONE; }
      proc[np] := proc[np].(status := Embryo, pid := nextpid);
      nextpid := nextpid + 1;
      code := code[p := Forking(np, false)];
      assert Tab() == Allocated(t, p);
    }

    /** fork after allocproc: `memory` says whether the kernel stack and the address space
        could be had. */
    method Fork(p: int, np: int, memory: bool) returns (pid: int)
      requires Valid() && Enabled(Tab(), ForkFail(p)) && Tab().code[p].np == np
      modifies this`code, proc
      ensures Valid()
      ensures !memory ==> pid == -1 && Tab() == Next(old(Tab()), ForkFail(p))
      ensures 0 <= np < proc.Length
      ensures proc[..] == old(proc[..])[np := if memory then old(proc[np]).(parent := p, status := Runnable)
                                              else old(proc[np]).(status := Unused)]
      ensures memory ==> pid == old(proc[np].pid) && Enabled(Next(old(Tab()), ForkLink(p)), ForkRun(p))
                         && Tab() == Next(Next(old(Tab()), ForkLink(p)), ForkRun(p))
    {
      hide Inv;
      ghost var t := Tab();
      if !memory {
        UnallocOk(t, p);
        proc[np] := proc[np].(status := Unused);
        code := code[p := Normal];
        assert Tab() == Unallocated(t, p);
        return -1;
      }
      LinkOk(t, p);
      LinkRuns(t, p);
      proc[np] := proc[np].(parent := p);
      code := code[p := Forking(np, true)];
      ghost var u := Tab();
      assert u == Linked(t, p);
      StartedOk(u, p);
      pid := proc[np].pid;
      proc[np] := proc[np].(status := Runnable);
      code := code[p := Normal];
      assert Tab() == Started(u, p);
    }

    /** wakeup1. */
    method Wakeup1(c: Chan)
      modifies proc
      ensures proc[..] == Woken(old(proc[..]), c)
      ensures forall j :: 0 <= j < proc.Length ==>
                proc[j] == if old(proc[j]).status == Sleeping && old(proc[j]).chan == c
                           then old(proc[j]).(status := Runnable) else old(proc[j])
    {
      var i := 0;
      while i < proc.Length
        invariant 0 <= i <= proc.Length
        invariant forall j :: 0 <= j < i ==> proc[j] == WokenOne(old(proc[j]), c)
        invariant forall j :: i <= j < proc.Length ==> proc[j] == old(proc[j])
      {
        if proc[i].status == Sleeping && proc[i].chan == c {
          proc[i] := proc[i].(status := Runnable);
        }
        i := i + 1;
      }
    }

    /** wakeup on an address. */
    method Wakeup(a: int)
      requires Valid()
      modifies proc
      ensures Valid() && Tab() == Next(old(Tab()), ProcSpec.Wakeup(a))
    {
      hide Inv;
      WakeupOk(Tab(), a);
      Wakeup1(Address(a));
    }

    /** exit's loop: p's children go to init. */
    method PassChildren(p: int)
      modifies proc
      ensures proc[..] == Adopted(old(proc[..]), p, init, proc.Length)
    {
      hide Adopted, Woken, HasZombie, AdoptedOne, IsZombieChild;
      ghost var was := proc[..];
      AdoptNone(was, p, init);
      var i := 0;
      while i < proc.Length
        invariant 0 <= i <= proc.Length == |was| && proc[..] == Adopted(was, p, init, i)
      {
        AdoptNext(was, p, init, i);
        if proc[i].parent == p {
          proc[i] := proc[i].(parent := init);
          if proc[i].status == Zombie {
            Wakeup1(OnProc(init));
          }
        }
        i := i + 1;
      }
    }

    /** exit, from taking ptable.lock; the panic for init is the caller's. */
    method Exit(p: int)
      requires Valid() && Enabled(Tab(), ProcSpec.Exit(p))
      modifies this`exited, proc
      ensures Valid() && Tab() == Next(old(Tab()), ProcSpec.Exit(p))
      ensures proc[p].status == Zombie && exited == old(exited) + {proc[p].pid}
      ensures forall j :: 0 <= j < proc.Length ==>
                && proc[j].parent == (if old(proc[j]).parent == p then init else old(proc[j]).parent)
                && proc[j].pid == old(proc[j]).pid && proc[j].killed == old(proc[j]).killed
    {
      hide Inv, Woken, Adopted;
      ghost var t := Tab();
      ExitOk(t, p);
      Wakeup1(OnProc(proc[p].parent));
      PassChildren(p);
      WokenPid(t.procs, OnProc(t.procs[p].parent), p);
      exited := exited + {t.procs[p].pid};
      proc[p] := proc[p].(status := Zombie);
      assert Tab() == Exited(t, p);
    }

    /** One round of wait: the pid of a zombie child, now reaped; -1 without children or when
        killed; or p goes to sleep on itself. */
    method Wait(p: int) returns (pid: int, asleep: bool)
      requires Valid() && At(Tab(), p) && !Tab().code[p].Forking?
      modifies this`code, this`reaped, proc
      ensures Valid()
      ensures !asleep && pid != -1 ==>
                exists j :: 0 <= j < proc.Length && Enabled(old(Tab()), ProcSpec.Wait(p, j))
                            && pid == old(Tab()).procs[j].pid && Tab() == Next(old(Tab()), ProcSpec.Wait(p, j))
                            && old(proc[j]).parent == p && old(proc[j]).status == Zombie
                            && proc[j].status == Unused && proc[j].parent == NONE && !proc[j].killed && proc[j].pid == 0
      ensures asleep || pid == -1 ==> !HasZombie(old(Tab()).procs, p, proc.Length) && Tab() == Waited(old(Tab()), p)
      ensures asleep ==> proc[..] == old(proc[..])[p := old(proc[p]).(status := Sleeping, chan := OnProc(p))]
      ensures pid == -1 && !asleep ==> proc[..] == old(proc[..])
      ensures asleep <==>
                && !HasZombie(old(Tab()).procs, p, proc.Length) && HasKids(old(Tab()).procs, p, proc.Length)
                && !old(Tab()).procs[p].killed
    {
      hide Inv;
      ghost var t := Tab();
      var havekids, i := false, 0;
      while i < proc.Length
        invariant 0 <= i <= proc.Length && Tab() == t
        invariant !HasZombie(t.procs, p, i) && (havekids <==> HasKids(t.procs, p, i))
      {
        if proc[i].parent == p {
          havekids := true;
          if proc[i].status == Zombie {
            assert IsZombieChild(t.procs, p, i);
            ReapOk(t, p, i);
            ZombiePid(t, i);
            pid := proc[i].pid;
            code := code[p := Normal];
            reaped := reaped + {proc[i].pid};
            proc[i] := Cleared(proc[i]);
            assert Tab() == Reaped(t, p, i);
            assert Enabled(t, ProcSpec.Wait(p, i));
            return pid, false;
          }
        }
        assert HasKids(t.procs, p, i + 1) <==> (HasKids(t.procs, p, i) || t.procs[i].parent == p);
        i := i + 1;
      }
      WaitOk(t, p);
      pid, asleep := -1, false;
      if !havekids || proc[p].killed {
        code := code[p := Normal];
      } else {
        asleep := true;
        proc[p] := proc[p].(status := Sleeping, chan := OnProc(p));
        code := code[p := Waiting];
      }
      assert Tab() == Waited(t, p);
    }

    /** kill. */
    method Kill(pid: int) returns (ok: int)
      requires Valid()
      modifies proc
      ensures Valid()
      ensures ok == -1 ==> proc[..] == old(proc[..]) && forall j :: 0 <= j < proc.Length ==> proc[j].pid != pid
      ensures ok != -1 ==>
                && ok == 0
                && exists j :: 0 <= j < proc.Length && Matches(old(proc[..]), pid, j)
                               && Tab() == Next(old(Tab()), ProcSpec.Kill(j))
                               && var q := old(proc[j]);
                                  proc[..] == old(proc[..])[j := q.(killed := true,
                                      status := if q.status == Sleeping then Runnable else q.status)]
    {
      hide Inv;
      ghost var t := Tab();
      var i := 0;
      while i < proc.Length
        invariant 0 <= i <= proc.Length && Tab() == t
        invariant forall j :: 0 <= j < i ==> proc[j].pid != pid
      {
        if proc[i].pid == pid {
          OtherOk(t, ProcSpec.Kill(i));
          proc[i] := proc[i].(killed := true);
          if proc[i].status == Sleeping {
            proc[i] := proc[i].(status := Runnable);
          }
          assert Tab() == t.(procs := t.procs[i := Killed(t.procs[i])]);
          assert Matches(t.procs, pid, i);
          return 0;
        }
        i := i + 1;
      }
      ok := -1;
    }

    /** sleep on an address, up to sched(). */
    method Sleep(p: int, a: int)
      requires Valid() && Enabled(Tab(), ProcSpec.Sleep(p, a))
      modifies proc
      ensures Valid() && Tab() == Next(old(Tab()), ProcSpec.Sleep(p, a))
      ensures proc[..] == old(proc[..])[p := old(proc[p]).(status := Sleeping, chan := Address(a))]
    {
      hide Inv;
      ghost var t := Tab();
      OtherOk(t, ProcSpec.Sleep(p, a));
      proc[p] := proc[p].(chan := Address(a));
      proc[p] := proc[p].(status := Sleeping);
      assert Tab() == Next(t, ProcSpec.Sleep(p, a));
    }

    /** yield. */
    method Yield(p: int)
      requires Valid() && Enabled(Tab(), ProcSpec.Yield(p))
      modifies proc
      ensures Valid() && Tab() == Next(old(Tab()), ProcSpec.Yield(p))
      ensures proc[..] == old(proc[..])[p := old(proc[p]).(status := Runnable)]
    {
      hide Inv;
      ghost var t := Tab();
      OtherOk(t, ProcSpec.Yield(p));
      proc[p] := proc[p].(status := Runnable);
      assert Tab() == Next(t, ProcSpec.Yield(p));
    }

    /** The scheduler's choice from slot i on: the next runnable process runs, and clears its
        channel as it leaves sleep().  NONE when the scan finds none. */
    method Scheduler(start: nat) returns (p: int)
      requires Valid() && start <= proc.Length
      modifies proc
      ensures Valid()
      ensures p == NONE ==> Tab() == old(Tab()) && forall j :: start <= j < proc.Length ==> proc[j].status != Runnable
      ensures p != NONE ==>
                start <= p < proc.Length && Enabled(old(Tab()), Schedule(p)) && Tab() == Next(old(Tab()), Schedule(p))
                            && old(proc[p]).status == Runnable
                            && proc[..] == old(proc[..])[p := old(proc[p]).(status := Running, chan := Nothing)]
                            && forall j :: start <= j < p ==> old(proc[j].status) != Runnable
    {
      hide Inv;
      ghost var t := Tab();
      p := start;
      while p < proc.Length
        invariant start <= p <= proc.Length && Tab() == t
        invariant forall j :: start <= j < p ==> proc[j].status != Runnable
      {
        if proc[p].status == Runnable {
          OtherOk(t, Schedule(p));
          proc[p] := proc[p].(status := Running, chan := Nothing);
          assert Tab() == Next(t, Schedule(p));
          return;
        }
        p := p + 1;
      }
      p := NONE;
    }
  }

  /** The first slot with the given pid. */
  predicate Matches(procs: seq<Proc>, pid: int, j: int)
    requires 0 <= j < |procs|
  {
    procs[j].pid == pid && forall i :: 0 <= i < j ==> procs[i].pid != pid
  }

  lemma LinkRuns(t: Table, p: int)
    requires Inv(t) && Enabled(t, ForkLink(p))
    ensures Enabled(Linked(t, p), ForkRun(p)) && Linked(t, p).procs[t.code[p].np].pid == t.procs[t.code[p].np].pid
    ensures t.code[p].np != p
  {
    assert SlotOk(t, p);
  }

  lemma WokenPid(procs: seq<Proc>, c: Chan, p: int)
    requires 0 <= p < |procs|
    ensures Woken(procs, c)[p].pid == procs[p].pid
  {
  }

  lemma ZombiePid(t: Table, i: int)
    requires Inv(t) && 0 <= i < |t.procs| && t.procs[i].status == Zombie
    ensures t.procs[i].pid > 0
  {
    assert SlotOk(t, i);
  }

  lemma AdoptNone(was: seq<Proc>, p: int, init: int)
    ensures Adopted(was, p, init, 0) == was
  {
  }

  lemma AdoptNext(was: seq<Proc>, p: int, init: int, i: nat)
    requires i < |was|
    ensures var now := Adopted(was, p, init, i);
            && now[i].parent == was[i].parent && (now[i].status == Zombie <==> was[i].status == Zombie)
            && (was[i].parent != p ==> Adopted(was, p, init, i + 1) == now)
            && (was[i].parent == p && was[i].status != Zombie ==>
                Adopted(was, p, init, i + 1) == now[i := now[i].(parent := init)])
            && (was[i].parent == p && was[i].status == Zombie ==>
                  Adopted(was, p, init, i + 1) == Woken(now[i := now[i].(parent := init)], OnProc(init)))
  {
    var now, nxt := Adopted(was, p, init, i), Adopted(was, p, init, i + 1);
    assert HasZombie(was, p, i + 1) <==> HasZombie(was, p, i) || IsZombieChild(was, p, i);
    if was[i].parent != p {
      assert nxt == now;
    } else if was[i].status != Zombie {
      assert nxt == now[i := now[i].(parent := init)];
    } else {
      assert nxt == Woken(now[i := now[i].(parent := init)], OnProc(init));
    }
  }
}
