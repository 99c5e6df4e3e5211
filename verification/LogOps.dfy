/**
 Group commit: begin_op, log_write and end_op of log.c as interleaved atomic steps.

 `quota` is the number of distinct blocks one operation may log.  Results: no operation is
 open while a transaction commits, every commit holds exactly what was logged since the one
 before, reservations never exceed the log, and the panic "too big a transaction" is
 unreachable exactly when the quota is below MAXOPBLOCKS.
 */
module LogOps {
  import opened Common

  const NLOG: nat := LOGSIZE   // log.size: the log area with its header block

  /** The fields of struct log that begin_op and end_op decide on; n is lh.n. */
  datatype Ctl = Ctl(n: nat, outstanding: nat, committing: bool)

  /** begin_op returns; otherwise it sleeps on &log. */
  predicate CanBegin(c: Ctl) {
    !c.committing && c.n + (c.outstanding + 1) * MAXOPBLOCKS <= LOGSIZE
  }

  function Begin(c: Ctl): (r: Ctl) {
    c.(outstanding := c.outstanding + 1)
  }

  /** The last end_op of a transaction starts the commit. */
  function End(c: Ctl): (r: Ctl)
    requires c.outstanding > 0
  {
    c.(outstanding := c.outstanding - 1, committing := c.committing || c.outstanding == 1)
  }

  /** The guard of log_write that panics. */
  predicate TooBig(c: Ctl) {
    c.n >= LOGSIZE || c.n >= NLOG - 1
  }

  /** A process is outside any operation, or in one that has logged `used`. */
  datatype Op = Idle | Active(used: set<nat>)

  datatype Event = Began(p: nat) | Wrote(p: nat, b: nat) | Ended(p: nat) | Committed(blocks: set<nat>)

  datatype State = State(ctl: Ctl, lh: set<nat>, ops: seq<Op>, hist: seq<Event>)

  predicate Init(s: State) {
    && s.ctl == Ctl(0, 0, false) && s.lh == {} && s.hist == []
    && forall p :: 0 <= p < |s.ops| ==> s.ops[p] == Idle
  }

  datatype Step = BeginStep(p: nat) | WriteStep(p: nat, b: nat) | EndStep(p: nat) | CommitStep | DoneStep

  /** Process p may log block b within its quota. */
  predicate WantsWrite(s: State, quota: nat, p: nat, b: nat) {
    p < |s.ops| && s.ops[p].Active? && |s.ops[p].used + {b}| <= quota
  }

  predicate Enabled(s: State, quota: nat, a: Step) {
    match a
    case BeginStep(p) => p < |s.ops| && s.ops[p] == Idle && CanBegin(s.ctl)
    case WriteStep(p, b) => WantsWrite(s, quota, p, b) && !TooBig(s.ctl)
    case EndStep(p) => p < |s.ops| && s.ops[p].Active? && s.ctl.outstanding > 0
    case CommitStep => s.ctl.committing
    case DoneStep => s.ctl.committing && s.lh == {}
  }

  function Next(s: State, quota: nat, a: Step): (r: State)
    requires Enabled(s, quota, a)
  {
    match a
    case BeginStep(p) =>
      s.(ctl := Begin(s.ctl), ops := s.ops[p := Active({})], hist := s.hist + [Began(p)])
    case WriteStep(p, b) =>
      s.(ctl := s.ctl.(n := |s.lh + {b}|), lh := s.lh + {b},
         ops := s.ops[p := Active(s.ops[p].used + {b})], hist := s.hist + [Wrote(p, b)])
    case EndStep(p) =>
      s.(ctl := End(s.ctl), ops := s.ops[p := Idle], hist := s.hist + [Ended(p)])
    case CommitStep =>
      s.(ctl := s.ctl.(n := 0), lh := {}, hist := if s.lh == {} then s.hist else s.hist + [Committed(s.lh)])
    case DoneStep =>
      s.(ctl := s.ctl.(committing := false))
  }

  ghost predicate Run(ss: seq<State>, quota: nat) {
    && |ss| > 0 && Init(ss[0])
    && forall i :: 0 <= i < |ss| - 1 ==> CanStep(ss[i], quota, ss[i+1])
  }

  ghost predicate CanStep(s: State, quota: nat, t: State) {
    exists a :: Enabled(s, quota, a) && t == Next(s, quota, a)
  }

  // ---- counting over the processes ----

  /** Each operation in progress weighs `per` less what it has logged. */
  function Unused(ops: seq<Op>, per: int): (r: int) {
    if ops == [] then 0 else Left(ops[|ops|-1], per) + Unused(ops[..|ops|-1], per)
  }

  function Left(o: Op, per: int): (r: int) {
    if o.Active? then per - |o.used| else 0
  }

  function Running(ops: seq<Op>): (r: nat) {
    if ops == [] then 0 else (if ops[|ops|-1].Active? then 1 else 0) + Running(ops[..|ops|-1])
  }

  lemma {:induction false} UnusedUpdate(ops: seq<Op>, per: int, p: nat, o: Op)
    requires p < |ops|
    ensures Unused(ops[p := o], per) == Unused(ops, per) - Left(ops[p], per) + Left(o, per)
  {
    var l := |ops| - 1;
    if p < l {
      assert ops[p := o][..l] == ops[..l][p := o];
      UnusedUpdate(ops[..l], per, p, o);
    } else {
      assert ops[p := o][..l] == ops[..l];
    }
  }

  lemma {:induction false} RunningUpdate(ops: seq<Op>, p: nat, o: Op)
    requires p < |ops|
    ensures Running(ops[p := o]) == Running(ops) - (if ops[p].Active? then 1 else 0) + (if o.Active? then 1 else 0)
  {
    var l := |ops| - 1;
    if p < l {
      assert ops[p := o][..l] == ops[..l][p := o];
      RunningUpdate(ops[..l], p, o);
    } else {
      assert ops[p := o][..l] == ops[..l];
    }
  }

  lemma {:induction false} NoneRunning(ops: seq<Op>, per: int)
    ensures Running(ops) == 0 <==> forall p :: 0 <= p < |ops| ==> ops[p] == Idle
    ensures Running(ops) == 0 ==> Unused(ops, per) == 0
    ensures Unused(ops, per) <= per * Running(ops)
    ensures (forall p :: 0 <= p < |ops| && ops[p].Active? ==> |ops[p].used| <= per) ==> Unused(ops, per) >= 0
  {
    if ops != [] {
      NoneRunning(ops[..|ops|-1], per);
    }
  }

  // ---- the transactions in a history ----

  /** The operations that have begun and not ended. */
  function Open(h: seq<Event>): (r: set<nat>) {
    if h == [] then {} else
      var o := Open(h[..|h|-1]);
      match h[|h|-1]
      case Began(p) => o + {p}
      case Ended(p) => o - {p}
      case _ => o
  }

  /** The blocks logged since the last commit. */
  function Since(h: seq<Event>): (r: set<nat>) {
    if h == [] then {} else
      match h[|h|-1]
      case Wrote(_, b) => Since(h[..|h|-1]) + {b}
      case Committed(_) => {}
      case _ => Since(h[..|h|-1])
  }

  /** Event i begins an operation of p that has not ended. */
  predicate UnderWay(h: seq<Event>, i: int, p: nat) {
    0 <= i < |h| && h[i] == Began(p) && forall k :: i < k < |h| ==> h[k] != Ended(p)
  }

  /** Event i logs block b, and no commit follows. */
  predicate Uncommitted(h: seq<Event>, i: int, b: nat) {
    0 <= i < |h| && h[i].Wrote? && h[i].b == b && forall k :: i < k < |h| ==> !h[k].Committed?
  }

  /** What Open and Since collect. */
  lemma {:induction false} HistoryMeans(h: seq<Event>, p: nat, b: nat)
    ensures p in Open(h) <==> exists i :: UnderWay(h, i, p)
    ensures b in Since(h) <==> exists i :: Uncommitted(h, i, b)
  {
    if h != [] {
      var g, l := h[..|h|-1], |h| - 1;
      HistoryMeans(g, p, b);
      if i :| UnderWay(g, i, p) { assert h[l] != Ended(p) ==> UnderWay(h, i, p); }
      if i :| UnderWay(h, i, p) { assert i < l ==> UnderWay(g, i, p); }
      if h[l] == Began(p) { assert UnderWay(h, l, p); }
      if i :| Uncommitted(g, i, b) { assert !h[l].Committed? ==> Uncommitted(h, i, b); }
      if i :| Uncommitted(h, i, b) { assert i < l ==> Uncommitted(g, i, b); }
      if h[l].Wrote? && h[l].b == b { assert Uncommitted(h, l, b); }
    }
  }

  predicate InOrder(h: seq<Event>, i: nat)
    requires i < |h|
  {
    Fits(h[..i], h[i])
  }

  /** Event e is in order after h: only open operations write and end, and a commit happens when
      no operation is open and holds exactly the blocks logged since the last one. */
  predicate Fits(h: seq<Event>, e: Event) {
    match e
    case Began(p) => p !in Open(h)
    case Wrote(p, _) => p in Open(h)
    case Ended(p) => p in Open(h)
    case Committed(bs) => Open(h) == {} && bs == Since(h)
  }

  predicate Grouped(h: seq<Event>) {
    forall i :: 0 <= i < |h| ==> InOrder(h, i)
  }

  lemma GroupedAppend(h: seq<Event>, e: Event)
    requires Grouped(h) && Fits(h, e)
    ensures Grouped(h + [e]) && |h + [e]| == |h| + 1
    ensures (h + [e])[..|h|] == h && (h + [e])[|h|] == e
  {
    var g := h + [e];
    assert g[..|h|] == h && g[|h|] == e;
    forall i | 0 <= i < |g|
      ensures InOrder(g, i)
    {
      if i < |h| {
        assert InOrder(h, i) && g[..i] == h[..i];
      }
    }
  }

  /** All of an operation's writes fall in one transaction: between its begin and its end
      no commit happens. */
  lemma {:induction false} OneTransaction(h: seq<Event>, i: nat, j: nat, p: nat)
    requires Grouped(h) && i < j <= |h| && h[i] == Began(p)
    requires forall k :: i < k < j ==> h[k] != Ended(p)
    ensures p in Open(h[..j])
    ensures forall k :: i <= k < j ==> !h[k].Committed?
  {
    assert h[..j][..j-1] == h[..j-1];
    assert InOrder(h, j - 1);
    if j - 1 > i {
      OneTransaction(h, i, j - 1, p);
    }
  }

  // ---- the invariant ----

  /** What holds however many blocks an operation logs. */
  ghost predicate Inv(s: State) {
    && s.ctl.n == |s.lh|
    && s.ctl.outstanding == Running(s.ops)
    && (s.ctl.committing ==> Running(s.ops) == 0)
    && (!s.ctl.committing && Running(s.ops) == 0 ==> s.lh == {})
    && Grouped(s.hist) && Since(s.hist) == s.lh
    && Open(s.hist) == OpenOps(s.ops)
  }

  /** The reservations, for operations that keep to theirs. */
  ghost predicate Reserved(s: State, quota: nat) {
    && s.ctl.n == |s.lh|
    && s.ctl.outstanding == Running(s.ops)
    && (forall p :: 0 <= p < |s.ops| ==> OpOk(s, quota, p))
    && |s.lh| + Unused(s.ops, MAXOPBLOCKS) <= LOGSIZE
    && (quota < MAXOPBLOCKS ==> |s.lh| + Unused(s.ops, MAXOPBLOCKS - 1) <= NLOG - 2)
  }

  ghost predicate OpOk(s: State, quota: nat, p: nat)
    requires p < |s.ops|
  {
    s.ops[p].Active? ==> s.ops[p].used <= s.lh && |s.ops[p].used| <= quota
  }

  ghost function OpenOps(ops: seq<Op>): (r: set<nat>) {
    set p | 0 <= p < |ops| && ops[p].Active?
  }

  lemma InvInit(s: State, quota: nat)
    requires Init(s)
    ensures Inv(s) && Reserved(s, quota)
  {
    NoneRunning(s.ops, MAXOPBLOCKS);
    NoneRunning(s.ops, MAXOPBLOCKS - 1);
  }

  // ---- transactions ----

  lemma InvBegin(s: State, quota: nat, p: nat)
    requires Inv(s) && Enabled(s, quota, BeginStep(p))
    ensures Inv(Next(s, quota, BeginStep(p)))
  {
    RunningUpdate(s.ops, p, Active({}));
    assert p !in OpenOps(s.ops);
    assert OpenOps(s.ops[p := Active({})]) == OpenOps(s.ops) + {p};
    GroupedAppend(s.hist, Began(p));
  }

  lemma InvWrite(s: State, quota: nat, p: nat, b: nat)
    requires Inv(s) && Enabled(s, quota, WriteStep(p, b))
    ensures Inv(Next(s, quota, WriteStep(p, b)))
  {
    var o := Active(s.ops[p].used + {b});
    RunningUpdate(s.ops, p, o);
    NoneRunning(s.ops, MAXOPBLOCKS);
    assert p in OpenOps(s.ops) && OpenOps(s.ops[p := o]) == OpenOps(s.ops);
    GroupedAppend(s.hist, Wrote(p, b));
  }

  lemma InvEnd(s: State, quota: nat, p: nat)
    requires Inv(s) && Enabled(s, quota, EndStep(p))
    ensures Inv(Next(s, quota, EndStep(p)))
  {
    RunningUpdate(s.ops, p, Idle);
    assert p in OpenOps(s.ops) && OpenOps(s.ops[p := Idle]) == OpenOps(s.ops) - {p};
    GroupedAppend(s.hist, Ended(p));
  }

  lemma InvCommit(s: State, quota: nat)
    requires Inv(s) && Enabled(s, quota, CommitStep)
    ensures Inv(Next(s, quota, CommitStep))
  {
    NoneRunning(s.ops, MAXOPBLOCKS);
    if s.lh != {} {
      assert OpenOps(s.ops) == {};
      GroupedAppend(s.hist, Committed(s.lh));
    }
  }

  lemma InvNext(s: State, quota: nat, a: Step)
    requires Inv(s) && Enabled(s, quota, a)
    ensures Inv(Next(s, quota, a))
  {
    match a
    case BeginStep(p) => InvBegin(s, quota, p);
    case WriteStep(p, b) => InvWrite(s, quota, p, b);
    case EndStep(p) => InvEnd(s, quota, p);
    case CommitStep => InvCommit(s, quota);
    case DoneStep =>
  }

  lemma {:induction false} InvRun(ss: seq<State>, quota: nat, i: nat)
    requires Run(ss, quota) && i < |ss|
    ensures Inv(ss[i])
  {
    if i == 0 {
      InvInit(ss[0], quota);
    } else {
      InvRun(ss, quota, i - 1);
      assert CanStep(ss[i-1], quota, ss[i]);
      var a :| Enabled(ss[i-1], quota, a) && ss[i] == Next(ss[i-1], quota, a);
      InvNext(ss[i-1], quota, a);
    }
  }

  // ---- reservations ----

  lemma ReservedBegin(s: State, quota: nat, p: nat)
    requires Inv(s) && Reserved(s, quota) && Enabled(s, quota, BeginStep(p))
    ensures Reserved(Next(s, quota, BeginStep(p)), quota)
  {
    var t := Next(s, quota, BeginStep(p));
    UnusedUpdate(s.ops, MAXOPBLOCKS, p, Active({}));
    UnusedUpdate(s.ops, MAXOPBLOCKS - 1, p, Active({}));
    RunningUpdate(s.ops, p, Active({}));
    NoneRunning(s.ops, MAXOPBLOCKS);
    NoneRunning(s.ops, MAXOPBLOCKS - 1);
    forall q | 0 <= q < |t.ops|
      ensures OpOk(t, quota, q)
    {
      assert OpOk(s, quota, q);
    }
  }

  lemma ReservedWrite(s: State, quota: nat, p: nat, b: nat)
    requires Reserved(s, quota) && Enabled(s, quota, WriteStep(p, b)) && quota <= MAXOPBLOCKS
    ensures Reserved(Next(s, quota, WriteStep(p, b)), quota)
  {
    var t := Next(s, quota, WriteStep(p, b));
    var o := Active(s.ops[p].used + {b});
    UnusedUpdate(s.ops, MAXOPBLOCKS, p, o);
    UnusedUpdate(s.ops, MAXOPBLOCKS - 1, p, o);
    RunningUpdate(s.ops, p, o);
    assert OpOk(s, quota, p);
    OneMore(s.ops[p].used, s.lh, b);
    forall q | 0 <= q < |t.ops|
      ensures OpOk(t, quota, q)
    {
      assert OpOk(s, quota, q);
    }
  }

  /** A block new to the log is new to the operation. */
  lemma OneMore(used: set<nat>, lh: set<nat>, b: nat)
    requires used <= lh
    ensures |lh + {b}| - |lh| <= |used + {b}| - |used|
  {
    if b in lh { assert lh + {b} == lh; }
    if b in used { assert used + {b} == used; }
  }

  lemma ReservedEnd(s: State, quota: nat, p: nat)
    requires Reserved(s, quota) && Enabled(s, quota, EndStep(p)) && quota <= MAXOPBLOCKS
    ensures Reserved(Next(s, quota, EndStep(p)), quota)
  {
    var t := Next(s, quota, EndStep(p));
    UnusedUpdate(s.ops, MAXOPBLOCKS, p, Idle);
    UnusedUpdate(s.ops, MAXOPBLOCKS - 1, p, Idle);
    RunningUpdate(s.ops, p, Idle);
    assert OpOk(s, quota, p);
    forall q | 0 <= q < |t.ops|
      ensures OpOk(t, quota, q)
    {
      assert OpOk(s, quota, q);
    }
  }

  lemma ReservedCommit(s: State, quota: nat)
    requires Inv(s) && Reserved(s, quota) && Enabled(s, quota, CommitStep)
    ensures Reserved(Next(s, quota, CommitStep), quota)
  {
    NoneRunning(s.ops, MAXOPBLOCKS);
    NoneRunning(s.ops, MAXOPBLOCKS - 1);
  }

  lemma {:induction false} ReservedRun(ss: seq<State>, quota: nat, i: nat)
    requires Run(ss, quota) && i < |ss| && quota <= MAXOPBLOCKS
    ensures Reserved(ss[i], quota)
  {
    if i == 0 {
      InvInit(ss[0], quota);
    } else {
      ReservedRun(ss, quota, i - 1);
      InvRun(ss, quota, i - 1);
      assert CanStep(ss[i-1], quota, ss[i]);
      var a :| Enabled(ss[i-1], quota, a) && ss[i] == Next(ss[i-1], quota, a);
      ReservedNext(ss[i-1], quota, a);
    }
  }

  lemma ReservedNext(s: State, quota: nat, a: Step)
    requires Inv(s) && Reserved(s, quota) && Enabled(s, quota, a) && quota <= MAXOPBLOCKS
    ensures Reserved(Next(s, quota, a), quota)
  {
    hide Reserved;
    match a
    case BeginStep(p) => ReservedBegin(s, quota, p);
    case WriteStep(p, b) => ReservedWrite(s, quota, p, b);
    case EndStep(p) => ReservedEnd(s, quota, p);
    case CommitStep => ReservedCommit(s, quota);
    case DoneStep => ReservedDone(s, quota);
  }

  lemma ReservedDone(s: State, quota: nat)
    requires Reserved(s, quota) && Enabled(s, quota, DoneStep)
    ensures Reserved(Next(s, quota, DoneStep), quota)
  {
    forall q | 0 <= q < |s.ops|
      ensures OpOk(Next(s, quota, DoneStep), quota, q)
    {
      assert OpOk(s, quota, q);
    }
  }

  /** A run whose operations keep to one quota is a run for any larger one. */
  lemma LargerQuota(ss: seq<State>, quota: nat, larger: nat)
    requires Run(ss, quota) && quota <= larger
    ensures Run(ss, larger)
  {
    forall i | 0 <= i < |ss| - 1
      ensures CanStep(ss[i], larger, ss[i+1])
    {
      assert CanStep(ss[i], quota, ss[i+1]);
      var a :| Enabled(ss[i], quota, a) && ss[i+1] == Next(ss[i], quota, a);
      assert Enabled(ss[i], larger, a) && ss[i+1] == Next(ss[i], larger, a);
    }
  }

  // ---- the results, over every run ----

  /** While an operation is open no commit runs, so the panic of end_op is unreachable. */
  lemma NoCommitWhileOpen(ss: seq<State>, quota: nat, i: nat, p: nat)
    requires Run(ss, quota) && i < |ss|
    requires p < |ss[i].ops| && ss[i].ops[p].Active?
    ensures !ss[i].ctl.committing && ss[i].ctl.outstanding > 0
  {
    InvRun(ss, quota, i);
    NoneRunning(ss[i].ops, 0);
  }

  /** A commit holds exactly the blocks logged since the last one, and no operation that
      logged them is still open. */
  lemma GroupCommit(ss: seq<State>, quota: nat, i: nat)
    requires Run(ss, quota) && i < |ss|
    ensures Grouped(ss[i].hist) && Since(ss[i].hist) == ss[i].lh && ss[i].ctl.n == |ss[i].lh|
  {
    InvRun(ss, quota, i);
  }

  /** The blocks logged and the unused reservations of the open operations fit the log. */
  lemma ReservationsFit(ss: seq<State>, quota: nat, i: nat)
    requires Run(ss, quota) && i < |ss| && quota <= MAXOPBLOCKS
    ensures |ss[i].lh| + Unused(ss[i].ops, MAXOPBLOCKS) <= LOGSIZE
    ensures quota < MAXOPBLOCKS ==> |ss[i].lh| + Unused(ss[i].ops, MAXOPBLOCKS - 1) <= NLOG - 2
  {
    ReservedRun(ss, quota, i);
  }

  /** With no operation and no commit running, the log is empty and begin_op does not wait. */
  lemma IdleLogAdmits(ss: seq<State>, quota: nat, i: nat)
    requires Run(ss, quota) && i < |ss|
    requires ss[i].ctl.outstanding == 0 && !ss[i].ctl.committing
    ensures ss[i].lh == {} && CanBegin(ss[i].ctl)
  {
    InvRun(ss, quota, i);
  }

  /** No operation within its quota ever meets the panic "too big a transaction". */
  ghost predicate NeverTooBig(quota: nat) {
    forall ss: seq<State>, i, p, b ::
      Run(ss, quota) && 0 <= i < |ss| && WantsWrite(ss[i], quota, p, b) ==> !TooBig(ss[i].ctl)
  }

  /** How many of the first k blocks operation p logged when the operations take ten each. */
  function Share(p: nat, k: nat): (r: nat) {
    if k <= p * 10 then 0 else if k < p * 10 + 10 then k - p * 10 else 10
  }

  ghost predicate Filling(s: State, k: nat) {
    && s.ctl == Ctl(k, 3, false) && |s.lh| == k && |s.ops| == 3
    && (forall b :: b in s.lh ==> b < k)
    && (forall p :: 0 <= p < 3 ==> s.ops[p].Active? && s.ops[p].used <= s.lh && |s.ops[p].used| == Share(p, k))
  }

  /** Three operations, and k blocks logged, the first ten by the first operation and so on. */
  lemma {:induction false} FillingRun(k: nat) returns (ss: seq<State>)
    requires k < NLOG
    ensures Run(ss, MAXOPBLOCKS) && Filling(ss[|ss|-1], k)
  {
    if k == 0 {
      var s0 := State(Ctl(0, 0, false), {}, [Idle, Idle, Idle], []);
      var s1 := Next(s0, MAXOPBLOCKS, BeginStep(0));
      var s2 := Next(s1, MAXOPBLOCKS, BeginStep(1));
      var s3 := Next(s2, MAXOPBLOCKS, BeginStep(2));
      ss := [s0, s1, s2, s3];
      assert CanStep(s0, MAXOPBLOCKS, s1) && CanStep(s1, MAXOPBLOCKS, s2) && CanStep(s2, MAXOPBLOCKS, s3);
    } else {
      var rs := FillingRun(k - 1);
      var t := FillOne(rs[|rs|-1], k - 1);
      ss := rs + [t];
      forall i | 0 <= i < |ss| - 1
        ensures CanStep(ss[i], MAXOPBLOCKS, ss[i+1])
      {
        if i < |rs| - 1 { assert CanStep(rs[i], MAXOPBLOCKS, rs[i+1]); }
      }
    }
  }

  lemma FillOne(s: State, k: nat) returns (t: State)
    requires Filling(s, k) && k < NLOG - 1
    ensures CanStep(s, MAXOPBLOCKS, t) && Filling(t, k + 1)
  {
    var p := k / 10;
    assert k !in s.ops[p].used && k !in s.lh;
    t := Next(s, MAXOPBLOCKS, WriteStep(p, k));
  }

  /** The log area holds its header too, so a full quota of MAXOPBLOCKS is one block too
      many; any smaller quota is safe. */
  lemma GuardUnreachableIff(quota: nat)
    ensures NeverTooBig(quota) <==> quota < MAXOPBLOCKS
  {
    if quota < MAXOPBLOCKS {
      forall ss: seq<State>, i, p, b | Run(ss, quota) && 0 <= i < |ss| && WantsWrite(ss[i], quota, p, b)
        ensures !TooBig(ss[i].ctl)
      {
        GuardHolds(ss, quota, i);
      }
    } else {
      var ss := FillingRun(NLOG - 1);
      LargerQuota(ss, MAXOPBLOCKS, quota);
      var i := |ss| - 1;
      assert WantsWrite(ss[i], quota, 2, 29) && TooBig(ss[i].ctl);
    }
  }

  lemma GuardHolds(ss: seq<State>, quota: nat, i: nat)
    requires Run(ss, quota) && i < |ss| && quota < MAXOPBLOCKS
    ensures !TooBig(ss[i].ctl)
  {
    ReservedRun(ss, quota, i);
    forall p | 0 <= p < |ss[i].ops| && ss[i].ops[p].Active?
      ensures |ss[i].ops[p].used| <= MAXOPBLOCKS - 1
    {
      assert OpOk(ss[i], quota, p);
    }
    NoneRunning(ss[i].ops, MAXOPBLOCKS - 1);
  }
}
