/**
 Who holds a sleep lock, and which operations of the log are open, over whole runs of their
 code: a process counts from its return from acquiresleep or begin_op until it enters
 releasesleep or end_op.
 */
module Holders {
  import opened Monitor
  import opened Sleepers
  import opened Common
  import LogOps

  /** A state of the machine, the processes whose last call takes something, and those that
      have returned from it and not given it back. */
  datatype Tracked<G, O> = Tracked(s: State<G, O>, taking: set<nat>, held: set<nat>)

  /** Which operations take and give back. */
  datatype Kind = Takes | Gives | Other

  function Follow<G, O(==)>(pr: Program<G, O>, kind: O -> Kind, x: Tracked<G, O>, a: Step<G, O>): (y: Tracked<G, O>)
    requires Enabled(pr, x.s, a)
  {
    var t := Next(pr, x.s, a);
    match a
    case Enter(p, o) =>
      Tracked(t, if kind(o) == Takes then x.taking + {p} else x.taking - {p},
              if kind(o) == Gives then x.held - {p} else x.held)
    case Exit(p) => Tracked(t, x.taking - {p}, if p in x.taking then x.held + {p} else x.held)
    case _ => x.(s := t)
  }

  /** p has what it took: it has returned, or is about to. */
  predicate Has<G, O>(x: Tracked<G, O>, p: nat) {
    p < |x.s.procs| && (p in x.held || (p in x.taking && x.s.procs[p].Inside? && x.s.procs[p].end.Leave?))
  }

  // ---- sleeplock.c ----

  function LockKind(o: LockOp): (k: Kind) {
    if o.Acquire? then Takes else Gives
  }

  /** Processes call acquiresleep under their own pids, and only a holder calls releasesleep. */
  predicate FairLock(pids: seq<int>, x: Tracked<SleepLock, LockOp>, a: Step<SleepLock, LockOp>) {
    a.Enter? ==> match a.o
      case Acquire(pid) => a.p < |pids| && pid == pids[a.p]
      case Release => a.p in x.held
  }

  ghost predicate LockStep(pids: seq<int>, x: Tracked<SleepLock, LockOp>, y: Tracked<SleepLock, LockOp>) {
    exists a :: Enabled(LockProgram(), x.s, a) && FairLock(pids, x, a) && y == Follow(LockProgram(), LockKind, x, a)
  }

  ghost predicate LockRun(pids: seq<int>, xs: seq<Tracked<SleepLock, LockOp>>) {
    && |xs| > 0 && Init(xs[0].s) && xs[0].s.data == SleepLock(false, 0) && xs[0].taking == xs[0].held == {}
    && |pids| == |xs[0].s.procs|
    && forall i :: 0 <= i < |xs| - 1 ==> LockStep(pids, xs[i], xs[i+1])
  }

  /** At most one process has the lock; it is locked, under that process's pid, exactly then. */
  ghost predicate LockInv(pids: seq<int>, x: Tracked<SleepLock, LockOp>) {
    && Inv(LockProgram(), x.s) && |pids| == |x.s.procs|
    && (forall p :: p in x.held ==> p < |pids|)
    && (forall p: nat :: Has(x, p) ==> x.s.data == SleepLock(true, pids[p]))
    && (forall p: nat, q: nat :: Has(x, p) && Has(x, q) ==> p == q)
    && (x.s.data.locked ==> exists p: nat :: Has(x, p))
    && (!x.s.data.locked ==> x.s.data.pid == 0)
  }

  lemma LockDisciplined()
    ensures Disciplined(LockProgram())
  {
    var pr := LockProgram();
    forall o, k, g | pr.pre(o, k, g)
      ensures Covers(pr, o, k, g)
    {
    }
  }

  lemma LockInvNext(pids: seq<int>, x: Tracked<SleepLock, LockOp>, a: Step<SleepLock, LockOp>)
    requires LockInv(pids, x) && Enabled(LockProgram(), x.s, a) && FairLock(pids, x, a)
    ensures LockInv(pids, Follow(LockProgram(), LockKind, x, a))
  {
    var y := Follow(LockProgram(), LockKind, x, a);
    LockDisciplined();
    InvNext(LockProgram(), x.s, a);
    assert a.Enter? && a.o.Release? ==> Has(x, a.p);
    forall p: nat | Has(y, p)
      ensures Has(x, p) || (a == Enter(p, Acquire(pids[p])) && !x.s.data.locked)
      ensures y.s.data == SleepLock(true, pids[p])
    {
      assert ProcOk(LockProgram(), x.s, p);
    }
    if y.s.data.locked && !(a.Enter? && Has(y, a.p)) {
      var p: nat :| Has(x, p);
      assert Has(y, p);
    }
  }

  lemma {:induction false} LockInvRun(pids: seq<int>, xs: seq<Tracked<SleepLock, LockOp>>, i: nat)
    requires LockRun(pids, xs) && i < |xs|
    ensures LockInv(pids, xs[i])
  {
    if i > 0 {
      LockInvRun(pids, xs, i - 1);
      assert LockStep(pids, xs[i-1], xs[i]);
      var a :| Enabled(LockProgram(), xs[i-1].s, a) && FairLock(pids, xs[i-1], a)
               && xs[i] == Follow(LockProgram(), LockKind, xs[i-1], a);
      LockInvNext(pids, xs[i-1], a);
    }
  }

  /** Mutual exclusion: at most one process is between its return from acquiresleep and its
      releasesleep, and meanwhile the lock is locked under its pid. */
  lemma LockExcludes(pids: seq<int>, xs: seq<Tracked<SleepLock, LockOp>>, i: nat, p: nat, q: nat)
    requires LockRun(pids, xs) && i < |xs| && p in xs[i].held
    ensures p < |pids| && xs[i].s.data == SleepLock(true, pids[p])
    ensures q in xs[i].held ==> p == q
  {
    LockInvRun(pids, xs, i);
    assert Has(xs[i], p);
    if q in xs[i].held { assert Has(xs[i], q); }
  }

  /** holdingsleep: whenever the spinlock is free, the lock is locked under a process's pid
      exactly while that process has it. */
  lemma HoldingSleep(pids: seq<int>, xs: seq<Tracked<SleepLock, LockOp>>, i: nat, p: nat)
    requires LockRun(pids, xs) && i < |xs| && xs[i].s.lk == FREE && p < |pids|
    requires forall r, q :: 0 <= r < q < |pids| ==> pids[r] != pids[q]
    ensures xs[i].s.data.locked && xs[i].s.data.pid == pids[p] <==> p in xs[i].held
  {
    LockInvRun(pids, xs, i);
    assert ProcOk(LockProgram(), xs[i].s, p);
    if p in xs[i].held { assert Has(xs[i], p); }
    if xs[i].s.data.locked {
      var q: nat :| Has(xs[i], q);
      assert ProcOk(LockProgram(), xs[i].s, q);
    }
  }

  /** Whoever sleeps in acquiresleep waits for a process that has the lock. */
  lemma SleeperAwaitsHolder(pids: seq<int>, xs: seq<Tracked<SleepLock, LockOp>>, i: nat, p: nat) returns (q: nat)
    requires LockRun(pids, xs) && i < |xs| && xs[i].s.lk == FREE
    requires p < |xs[i].s.procs| && xs[i].s.procs[p].Asleep?
    ensures q in xs[i].held
  {
    LockInvRun(pids, xs, i);
    assert ProcOk(LockProgram(), xs[i].s, p);
    q :| Has(xs[i], q);
    assert ProcOk(LockProgram(), xs[i].s, q);
  }

  // ---- log.c ----

  /** `logged` counts the blocks that log_write has added since the last commit. */
  datatype Logging = Logging(t: Tracked<LogOps.Ctl, LogOp>, logged: nat)

  function LogKind(o: LogOp): (k: Kind) {
    if o.BeginOp? then Takes else if o.EndOp? then Gives else Other
  }

  /** Processes log and end only within their operations and begin only outside, and a commit is
      done when the log is empty. */
  predicate FairLog(x: Tracked<LogOps.Ctl, LogOp>, a: Step<LogOps.Ctl, LogOp>) {
    a.Enter? ==> match a.o
      case BeginOp => a.p !in x.held
      case LogWrite(_) => a.p in x.held
      case EndOp => a.p in x.held
      case CommitDone => x.s.data.n == 0
  }

  function FollowLog(x: Logging, a: Step<LogOps.Ctl, LogOp>): (y: Logging)
    requires Enabled(LogProgram(), x.t.s, a)
  {
    Logging(Follow(LogProgram(), LogKind, x.t, a),
            match a
            case Enter(_, o) => if o == LogWrite(false) then x.logged + 1 else x.logged
            case Quiet(_) => 0
            case _ => x.logged)
  }

  ghost predicate LogStep(x: Logging, y: Logging) {
    exists a :: Enabled(LogProgram(), x.t.s, a) && FairLog(x.t, a) && y == FollowLog(x, a)
  }

  ghost predicate LogRun(xs: seq<Logging>) {
    && |xs| > 0 && Init(xs[0].t.s) && xs[0].t.s.data == LogOps.Ctl(0, 0, false)
    && xs[0].t.taking == xs[0].t.held == {} && xs[0].logged == 0
    && forall i :: 0 <= i < |xs| - 1 ==> LogStep(xs[i], xs[i+1])
  }

  /** The operations under way. */
  function Open(x: Tracked<LogOps.Ctl, LogOp>): (ps: set<nat>) {
    set p | p in x.held + x.taking && Has(x, p)
  }

  /** outstanding counts the operations under way, none of them during a commit, and what has
      been logged is committed before it is forgotten. */
  ghost predicate LogInv(x: Logging) {
    var g := x.t.s.data;
    && Inv(LogProgram(), x.t.s)
    && (forall p :: p in x.t.held ==> p < |x.t.s.procs|)
    && |Open(x.t)| == g.outstanding
    && (g.committing ==> g.outstanding == 0)
    && g.n == x.logged && (g.outstanding == 0 && !g.committing ==> g.n == 0)
  }

  lemma HasNext(x: Logging, a: Step<LogOps.Ctl, LogOp>, p: nat)
    requires Inv(LogProgram(), x.t.s) && Enabled(LogProgram(), x.t.s, a) && FairLog(x.t, a) && p < |x.t.s.procs|
    ensures Has(Follow(LogProgram(), LogKind, x.t, a), p) <==>
              if a.Enter? && a.p == p && a.o.BeginOp? then LogOps.CanBegin(x.t.s.data)
              else Has(x.t, p) && !(a.Enter? && a.p == p && a.o.EndOp?)
    ensures a.Enter? && a.p == p ==> (Has(x.t, p) <==> !a.o.BeginOp? && p in x.t.held)
  {
    assert ProcOk(LogProgram(), x.t.s, p);
  }

  lemma OpenNext(x: Logging, a: Step<LogOps.Ctl, LogOp>)
    requires LogInv(x) && Enabled(LogProgram(), x.t.s, a) && FairLog(x.t, a)
    ensures Open(Follow(LogProgram(), LogKind, x.t, a)) ==
            if a.Enter? && a.o.BeginOp? && LogOps.CanBegin(x.t.s.data) then Open(x.t) + {a.p}
            else if a.Enter? && a.o.EndOp? then Open(x.t) - {a.p} else Open(x.t)
    ensures a.Enter? && a.o.BeginOp? ==> a.p !in Open(x.t)
    ensures a.Enter? && (a.o.EndOp? || a.o.LogWrite?) ==> a.p in Open(x.t)
  {
    hide Follow, Has, Inv;
    var y := Follow(LogProgram(), LogKind, x.t, a);
    assert |y.s.procs| == |x.t.s.procs| by { SameProcs(x, a); }
    forall p: nat | p < |x.t.s.procs|
      ensures Has(y, p) <==>
                if a.Enter? && a.p == p && a.o.BeginOp? then LogOps.CanBegin(x.t.s.data)
                else Has(x.t, p) && !(a.Enter? && a.p == p && a.o.EndOp?)
      ensures a.Enter? && a.p == p ==> (Has(x.t, p) <==> !a.o.BeginOp? && p in x.t.held)
    {
      HasNext(x, a, p);
    }
    HasOpen(x.t);
    HasOpen(y);
  }

  lemma SameProcs(x: Logging, a: Step<LogOps.Ctl, LogOp>)
    requires Enabled(LogProgram(), x.t.s, a)
    ensures |Follow(LogProgram(), LogKind, x.t, a).s.procs| == |x.t.s.procs|
  {
  }

  lemma HasOpen(x: Tracked<LogOps.Ctl, LogOp>)
    ensures forall p: nat :: p in Open(x) <==> Has(x, p)
    ensures forall p: nat :: Has(x, p) ==> p < |x.s.procs|
  {
  }

  lemma LogInvNext(x: Logging, a: Step<LogOps.Ctl, LogOp>)
    requires LogInv(x) && Enabled(LogProgram(), x.t.s, a) && FairLog(x.t, a)
    ensures LogInv(FollowLog(x, a))
  {
    LogDisciplined();
    InvNext(LogProgram(), x.t.s, a);
    OpenNext(x, a);
  }

  lemma {:induction false} LogInvRun(xs: seq<Logging>, i: nat)
    requires LogRun(xs) && i < |xs|
    ensures LogInv(xs[i])
  {
    if i > 0 {
      LogInvRun(xs, i - 1);
      assert LogStep(xs[i-1], xs[i]);
      var a :| Enabled(LogProgram(), xs[i-1].t.s, a) && FairLog(xs[i-1].t, a) && xs[i] == FollowLog(xs[i-1], a);
      LogInvNext(xs[i-1], a);
    }
  }

  /** Whenever log.lock is free, outstanding is the number of processes between begin_op and
      end_op, a commit runs only without any, and n counts what they have logged. */
  lemma OutstandingCounts(xs: seq<Logging>, i: nat)
    requires LogRun(xs) && i < |xs| && xs[i].t.s.lk == FREE
    ensures var g := xs[i].t.s.data;
            && g.outstanding == |xs[i].t.held| && g.n == xs[i].logged
            && (g.committing ==> xs[i].t.held == {})
            && (xs[i].t.held == {} && !g.committing ==> g.n == 0)
  {
    LogInvRun(xs, i);
    var x := xs[i].t;
    forall p | p in Open(x)
      ensures p in x.held
    {
      assert ProcOk(LogProgram(), x.s, p);
    }
    assert Open(x) == x.held;
  }
}
