/**
 Sleep and wakeup of proc.c, as interleaved steps of processes that share data under a
 spinlock `lk`, with ptable.lock as the second lock.

 A process that takes `lk` changes the data, calls wakeup on some channels, and then either
 releases the lock or goes to sleep in the three steps of sleep(): take ptable.lock, release
 `lk`, change state.  Other processes run between any two of these.  The result: if every
 change that ends a reason to wait on a channel is followed by a wakeup on that channel
 before the lock is given up, then whenever the lock is free nobody sleeps without a reason.
 */
module Monitor {

  type Chan = int

  datatype End<O> = Leave | Sleep(chan: Chan, resume: O)

  /** What a process does from taking the lock to giving it up: the new data, the channels it
      wakes in order, and whether it then goes to sleep. */
  datatype Move<G, O> = Move(data: G, wakes: seq<Chan>, end: End<O>)

  /** The code around one lock.  `code` is what an operation (or the rest of one, after a
      sleep) does with the data it finds, given whether its process has been killed; `pre` is
      what callers guarantee; `waits` is the reason to sleep on a channel; `quiet` relates the
      data before and after a change made without the lock. */
  datatype Program<!G, !O> = Program(
    pre: (O, bool, G) -> bool,
    code: (O, bool, G) -> Move<G, O>,
    waits: (Chan, G) -> bool,
    quiet: (G, G) -> bool)

  /** One operation wakes every channel whose reason it ends, and sleeps only with a reason. */
  ghost predicate Covers<G(!new), O(!new)>(pr: Program<G, O>, o: O, killed: bool, g: G) {
    var m := pr.code(o, killed, g);
    && (forall c :: pr.waits(c, g) && !pr.waits(c, m.data) ==> c in m.wakes)
    && (m.end.Sleep? ==> pr.waits(m.end.chan, m.data))
  }

  ghost predicate Disciplined<G(!new), O(!new)>(pr: Program<G, O>) {
    && (forall o, k, g :: pr.pre(o, k, g) ==> Covers(pr, o, k, g))
    && (forall g, h, c :: pr.quiet(g, h) && pr.waits(c, g) ==> pr.waits(c, h))
  }

  // ---- the machine ----

  datatype Proc<O> =
    | Out                                              // not in an operation
    | Inside(wakes: seq<Chan>, end: End<O>)            // holds lk
    | Dozing(chan: Chan, resume: O, locked: bool)      // in sleep(): holds ptable.lock, and lk if locked
    | Asleep(chan: Chan, resume: O)                    // SLEEPING
    | Ready(resume: O)                                 // woken, or in the loop before the lock

  const FREE: int := -1

  datatype State<G, O> = State(data: G, lk: int, pt: int, procs: seq<Proc<O>>, killed: seq<bool>)

  datatype Step<G, O> =
    | Enter(p: nat, o: O) | Wakeup(p: nat) | Exit(p: nat)
    | TakePtable(p: nat) | ReleaseLk(p: nat) | FallAsleep(p: nat) | Kill(p: nat) | Quiet(g: G)

  ghost predicate Init<G, O>(s: State<G, O>) {
    s.lk == FREE && s.pt == FREE && |s.procs| == |s.killed| && forall p :: 0 <= p < |s.procs| ==> s.procs[p] == Out
  }

  predicate Enabled<G, O(==)>(pr: Program<G, O>, s: State<G, O>, a: Step<G, O>) {
    |s.procs| == |s.killed| &&
    match a
    case Enter(p, o) => p < |s.procs| && (s.procs[p] == Out || s.procs[p] == Ready(o)) && s.lk == FREE
        && pr.pre(o, s.killed[p], s.data)
    case Wakeup(p) => p < |s.procs| && s.procs[p].Inside? && s.procs[p].wakes != [] && s.pt == FREE
    case Exit(p) => p < |s.procs| && s.procs[p] == Inside([], Leave)
    case TakePtable(p) => p < |s.procs| && s.procs[p].Inside? && s.procs[p].wakes == [] && s.procs[p].end.Sleep?
        && s.pt == FREE
    case ReleaseLk(p) => p < |s.procs| && s.procs[p].Dozing? && s.procs[p].locked
    case FallAsleep(p) => p < |s.procs| && s.procs[p].Dozing? && !s.procs[p].locked
    case Kill(p) => p < |s.procs| && s.pt == FREE
    case Quiet(g) => pr.quiet(s.data, g)
  }

  /** wakeup1: every process asleep on c becomes runnable. */
  function Woken<O>(procs: seq<Proc<O>>, c: Chan): (r: seq<Proc<O>>)
    ensures |r| == |procs|
    ensures forall q :: 0 <= q < |procs| ==>
              r[q] == if procs[q].Asleep? && procs[q].chan == c then Ready(procs[q].resume) else procs[q]
  {
    seq(|procs|, q requires 0 <= q < |procs| =>
      if procs[q].Asleep? && procs[q].chan == c then Ready(procs[q].resume) else procs[q])
  }

  function Next<G, O(==)>(pr: Program<G, O>, s: State<G, O>, a: Step<G, O>): (r: State<G, O>)
    requires Enabled(pr, s, a)
  {
    match a
    case Enter(p, o) =>
      var m := pr.code(o, s.killed[p], s.data);
      s.(data := m.data, lk := p, procs := s.procs[p := Inside(m.wakes, m.end)])
    case Wakeup(p) =>
      var w := s.procs[p].wakes;
      s.(procs := Woken(s.procs, w[0])[p := Inside(w[1..], s.procs[p].end)])
    case Exit(p) =>
      s.(lk := FREE, procs := s.procs[p := Out])
    case TakePtable(p) =>
      s.(pt := p, procs := s.procs[p := Dozing(s.procs[p].end.chan, s.procs[p].end.resume, true)])
    case ReleaseLk(p) =>
      s.(lk := FREE, procs := s.procs[p := Dozing(s.procs[p].chan, s.procs[p].resume, false)])
    case FallAsleep(p) =>
      s.(pt := FREE, procs := s.procs[p := Asleep(s.procs[p].chan, s.procs[p].resume)])
    case Kill(p) =>
      s.(killed := s.killed[p := true],
         procs := if s.procs[p].Asleep? then s.procs[p := Ready(s.procs[p].resume)] else s.procs)
    case Quiet(g) =>
      s.(data := g)
  }

  ghost predicate CanStep<G(!new), O(!new)>(pr: Program<G, O>, s: State<G, O>, t: State<G, O>) {
    exists a :: Enabled(pr, s, a) && t == Next(pr, s, a)
  }

  ghost predicate Run<G(!new), O(!new)>(pr: Program<G, O>, ss: seq<State<G, O>>) {
    |ss| > 0 && Init(ss[0]) && forall i :: 0 <= i < |ss| - 1 ==> CanStep(pr, ss[i], ss[i+1])
  }

  // ---- the invariant ----

  /** The holder of the lock is still going to wake c. */
  predicate WillWake<G, O>(s: State<G, O>, c: Chan) {
    0 <= s.lk < |s.procs| && s.procs[s.lk].Inside? && c in s.procs[s.lk].wakes
  }

  /** Which locks process p holds, and that it sleeps or is about to with a reason or with a
      wakeup coming. */
  predicate ProcOk<G, O>(pr: Program<G, O>, s: State<G, O>, p: nat)
    requires p < |s.procs|
  {
    match s.procs[p]
    case Inside(_, end) => s.lk == p && s.pt != p && (end.Sleep? ==> pr.waits(end.chan, s.data))
    case Dozing(c, _, locked) =>
      && s.pt == p && (s.lk == p <==> locked)
      && (pr.waits(c, s.data) || (!locked && WillWake(s, c)))
    case Asleep(c, _) => s.lk != p && s.pt != p && (pr.waits(c, s.data) || WillWake(s, c))
    case _ => s.lk != p && s.pt != p
  }

  ghost predicate Inv<G, O>(pr: Program<G, O>, s: State<G, O>) {
    && |s.procs| == |s.killed|
    && (s.lk == FREE || 0 <= s.lk < |s.procs|)
    && (s.pt == FREE || 0 <= s.pt < |s.procs|)
    && forall p :: 0 <= p < |s.procs| ==> ProcOk(pr, s, p)
  }

  lemma InvNext<G(!new), O(!new)>(pr: Program<G, O>, s: State<G, O>, a: Step<G, O>)
    requires Disciplined(pr) && Inv(pr, s) && Enabled(pr, s, a)
    ensures Inv(pr, Next(pr, s, a))
  {
    var t := Next(pr, s, a);
    if a.Enter? { assert Covers(pr, a.o, s.killed[a.p], s.data); }
    forall q | 0 <= q < |t.procs|
      ensures ProcOk(pr, t, q)
    {
      assert ProcOk(pr, s, q);
      match a
      case Enter(p, o) => assert ProcOk(pr, s, p);
      case Wakeup(p) => assert ProcOk(pr, s, p);
      case Exit(p) => assert ProcOk(pr, s, p);
      case TakePtable(p) => assert ProcOk(pr, s, p);
      case ReleaseLk(p) => assert ProcOk(pr, s, p);
      case FallAsleep(p) => assert ProcOk(pr, s, p);
      case Kill(p) => assert ProcOk(pr, s, p);
      case Quiet(g) =>
    }
  }

  lemma {:induction false} InvRun<G(!new), O(!new)>(pr: Program<G, O>, ss: seq<State<G, O>>, i: nat)
    requires Disciplined(pr) && Run(pr, ss) && i < |ss|
    ensures Inv(pr, ss[i])
  {
    if i > 0 {
      InvRun(pr, ss, i - 1);
      assert CanStep(pr, ss[i-1], ss[i]);
      var a :| Enabled(pr, ss[i-1], a) && ss[i] == Next(pr, ss[i-1], a);
      InvNext(pr, ss[i-1], a);
    }
  }

  /** No lost wakeup: in every run, whenever the lock is free, whoever sleeps has a reason to. */
  lemma NoLostWakeup<G(!new), O(!new)>(pr: Program<G, O>, ss: seq<State<G, O>>, i: nat, p: nat)
    requires Disciplined(pr) && Run(pr, ss) && i < |ss| && ss[i].lk == FREE
    requires p < |ss[i].procs| && ss[i].procs[p].Asleep?
    ensures pr.waits(ss[i].procs[p].chan, ss[i].data)
  {
    InvRun(pr, ss, i);
    assert ProcOk(pr, ss[i], p);
  }

  /** Only one process is inside, and nobody is inside while the lock is free. */
  lemma MutualExclusion<G(!new), O(!new)>(pr: Program<G, O>, ss: seq<State<G, O>>, i: nat, p: nat, q: nat)
    requires Disciplined(pr) && Run(pr, ss) && i < |ss|
    requires p < |ss[i].procs| && q < |ss[i].procs| && ss[i].procs[p].Inside? && ss[i].procs[q].Inside?
    ensures p == q && ss[i].lk == p
  {
    InvRun(pr, ss, i);
    assert ProcOk(pr, ss[i], p) && ProcOk(pr, ss[i], q);
  }

  /** kill() wakes its victim: a process asleep when it is killed goes on with its operation. */
  lemma KilledAwake<G(!new), O(!new)>(pr: Program<G, O>, ss: seq<State<G, O>>, i: nat, p: nat)
    requires Disciplined(pr) && Run(pr, ss) && i + 1 < |ss| && p < |ss[i].procs|
    ensures |ss[i].procs| == |ss[i].killed| && |ss[i+1].procs| == |ss[i+1].killed| == |ss[i].procs|
    ensures ss[i].killed[p] ==> ss[i+1].killed[p]
    ensures !ss[i].killed[p] && ss[i+1].killed[p] ==> !ss[i+1].procs[p].Asleep?
    ensures !ss[i].killed[p] && ss[i+1].killed[p] && ss[i].procs[p].Asleep? ==>
              ss[i+1].procs[p] == Ready(ss[i].procs[p].resume)
  {
    InvRun(pr, ss, i);
    InvRun(pr, ss, i + 1);
    assert CanStep(pr, ss[i], ss[i+1]);
  }

  /** The two locks never deadlock: while either is held, its holder can go on. */
  lemma HolderProgresses<G(!new), O(!new)>(pr: Program<G, O>, ss: seq<State<G, O>>, i: nat) returns (a: Step<G, O>)
    requires Disciplined(pr) && Run(pr, ss) && i < |ss|
    requires ss[i].lk != FREE || ss[i].pt != FREE
    ensures Enabled(pr, ss[i], a) && !a.Enter? && !a.Kill? && !a.Quiet?
  {
    InvRun(pr, ss, i);
    var s := ss[i];
    var p := if s.pt != FREE then s.pt else s.lk;
    assert ProcOk(pr, s, p);
    if s.procs[p].Inside? {
      a := if s.procs[p].wakes != [] then Wakeup(p) else if s.procs[p].end.Leave? then Exit(p) else TakePtable(p);
    } else {
      a := if s.procs[p].locked then ReleaseLk(p) else FallAsleep(p);
    }
  }
}
