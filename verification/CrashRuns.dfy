/**
 Operations, group commit, crashes and recovery over whole runs.

 `hist` is what operations have done since the disk was made, cut back by each crash to what
 recovery brings back; `durable` is how much of it the disk already holds.  A commit and a
 recovery go write by write, and a crash can come at any point.
 */
module CrashRuns {
  import opened Common
  import opened Bio
  import opened LogSpec

  datatype Event = Began(p: nat) | Wrote(p: nat, b: nat, x: Block) | Ended(p: nat)

  /** The operations that have begun and not ended. */
  function Open(h: seq<Event>): (ps: set<nat>) {
    if h == [] then {}
    else
      var o := Open(h[..|h|-1]);
      match h[|h|-1]
      case Began(p) => o + {p}
      case Ended(p) => o - {p}
      case Wrote(_, _, _) => o
  }

  /** The disk's blocks after the writes of h, had each gone there at once. */
  ghost function Apply(d: Image, h: seq<Event>): (r: Image)
    ensures |r| == |d|
  {
    if h == [] then d
    else
      var r := Apply(d, h[..|h|-1]);
      match h[|h|-1]
      case Wrote(_, b, x) => if b < |r| then r[b := x] else r
      case _ => r
  }

  /** The blocks that h writes, each once: what lh lists. */
  function Touched(h: seq<Event>): (bs: seq<nat>) {
    if h == [] then []
    else
      var bs := Touched(h[..|h|-1]);
      match h[|h|-1]
      case Wrote(_, b, _) => Recorded(bs, b)
      case _ => bs
  }

  /** Up: operations run on the cache's view.  A commit has made k of its writes, from the disk
      `base`; a recovery likewise. */
  datatype Phase = Up | Committing(base: Image, bs: seq<nat>, k: nat) | Down | Recovering(base: Image, k: nat)

  datatype State = State(hist: seq<Event>, durable: nat, disk: Image, view: Image, phase: Phase)

  datatype Step =
    | Begin(p: nat) | Write(p: nat, b: nat, x: Block) | End(p: nat)
    | CommitStart | CommitWrite | CommitDone
    | Crash | RecoverStart | RecoverWrite | RecoverDone

  ghost predicate Enabled(s: State, start: nat, size: nat, a: Step) {
    match a
    case Begin(p) => s.phase == Up && p !in Open(s.hist)
    case Write(p, b, _) =>
      && s.phase == Up && p in Open(s.hist) && b < |s.view| && !(start <= b < start + size)
      && s.durable <= |s.hist| && |Touched(s.hist[s.durable..])| < size - 1
    case End(p) => s.phase == Up && p in Open(s.hist)
    case CommitStart => s.phase == Up && Open(s.hist) == {} && s.durable <= |s.hist|
        && Touched(s.hist[s.durable..]) != []
    case CommitWrite =>
      && s.phase.Committing? && |s.phase.base| == |s.view| && Loggable(|s.view|, start, size, s.phase.bs)
      && s.phase.k < |CommitTrace(s.phase.base, s.view, start, size, s.phase.bs)|
    case CommitDone => s.phase.Committing? && s.phase.k == CommitWrites(s.phase.bs)
    case Crash => s.durable <= |s.hist|
    case RecoverStart => s.phase == Down
    case RecoverWrite =>
      s.phase.Recovering? && Recoverable(s.phase.base, start, size)
          && s.phase.k < |RecoverTrace(s.phase.base, start, size)|
    case RecoverDone =>
      s.phase.Recovering? && Recoverable(s.phase.base, start, size)
          && s.phase.k == |RecoverTrace(s.phase.base, start, size)|
  }

  ghost function Next(s: State, start: nat, size: nat, a: Step): (t: State)
    requires Enabled(s, start, size, a)
  {
    match a
    case Begin(p) => s.(hist := s.hist + [Began(p)])
    case Write(p, b, x) => s.(hist := s.hist + [Wrote(p, b, x)], view := s.view[b := x])
    case End(p) => s.(hist := s.hist + [Ended(p)])
    case CommitStart => s.(phase := Committing(s.disk, Touched(s.hist[s.durable..]), 0))
    case CommitWrite =>
      var Committing(base, bs, k) := s.phase;
      State(s.hist, if k == |bs| then |s.hist| else s.durable, CommitTrace(base, s.view, start, size, bs)[k], s.view,
            Committing(base, bs, k + 1))
    case CommitDone => s.(view := s.disk, phase := Up)
    case Crash => State(s.hist[..s.durable], s.durable, s.disk, s.disk, Down)
    case RecoverStart => s.(phase := Recovering(s.disk, 0))
    case RecoverWrite =>
      var Recovering(base, k) := s.phase;
      s.(disk := RecoverTrace(base, start, size)[k], phase := Recovering(base, k + 1))
    case RecoverDone => s.(view := s.disk, phase := Up)
  }

  /** A made disk with an empty log, just started. */
  ghost predicate Init(s: State, d: Image, start: nat, size: nat) {
    s == State([], 0, d, d, Up) && Loggable(|d|, start, size, []) && d[start][0] == 0
  }

  ghost predicate CanStep(s: State, t: State, start: nat, size: nat) {
    exists a :: Enabled(s, start, size, a) && t == Next(s, start, size, a)
  }

  ghost predicate Run(ss: seq<State>, d: Image, start: nat, size: nat) {
    |ss| > 0 && Init(ss[0], d, start, size) && forall i :: 0 <= i < |ss| - 1 ==> CanStep(ss[i], ss[i+1], start, size)
  }

  // ---- the invariant ----

  /** What recovery would bring back now is what the durable part of the history has done, and
      that part ends between operations. */
  ghost predicate Safe(s: State, d: Image, start: nat, size: nat) {
    && s.durable <= |s.hist| && Open(s.hist[..s.durable]) == {}
    && Recoverable(s.disk, start, size) && |s.disk| == |d|
    && SameHome(Recovered(s.disk, start, size), Apply(d, s.hist[..s.durable]), start, size)
  }

  /** The cache shows the whole history, and departs from `base` in the blocks bs only. */
  ghost predicate Cached(s: State, d: Image, start: nat, size: nat, base: Image, bs: seq<nat>) {
    && |s.view| == |d| && Pending(base, s.view, start, size, bs)
    && SameHome(s.view, Apply(d, s.hist), start, size)
  }

  ghost predicate PhaseOk(s: State, d: Image, start: nat, size: nat) {
    match s.phase
    case Up => s.durable <= |s.hist| && Cached(s, d, start, size, s.disk, Touched(s.hist[s.durable..]))
    case Committing(base, bs, k) =>
      && Cached(s, d, start, size, base, bs) && Open(s.hist) == {} && k <= CommitWrites(bs) && bs != []
      && s.disk == After(base, CommitTrace(base, s.view, start, size, bs), k)
      && (k > |bs| ==> s.durable == |s.hist|)
      && (k <= |bs| ==> s.durable <= |s.hist| && SameHome(base, Apply(d, s.hist[..s.durable]), start, size))
    case Down => s.durable == |s.hist|
    case Recovering(base, k) =>
      && s.durable == |s.hist| && Recoverable(base, start, size) && |base| == |d|
      && k <= |RecoverTrace(base, start, size)| && s.disk == After(base, RecoverTrace(base, start, size), k)
      && SameHome(Recovered(base, start, size), Apply(d, s.hist), start, size)
  }

  ghost predicate Inv(s: State, d: Image, start: nat, size: nat) {
    Safe(s, d, start, size) && PhaseOk(s, d, start, size)
  }

  // ---- small facts ----

  lemma SameHomeTrans(a: Image, b: Image, c: Image, start: nat, size: nat)
    requires SameHome(a, b, start, size) && SameHome(b, c, start, size)
    ensures SameHome(a, c, start, size) && SameHome(b, a, start, size)
  {
  }

  /** One more event at the end. */
  lemma Appended(h: seq<Event>, e: Event, n: nat)
    requires n <= |h|
    ensures (h + [e])[..|h|] == h && (h + [e])[|h|] == e && (h + [e])[..n] == h[..n]
    ensures (h + [e])[n..] == h[n..] + [e] && (h[n..] + [e])[..|h| - n] == h[n..]
  {
  }

  lemma WholePrefix(h: seq<Event>)
    ensures h[..|h|] == h && h[|h|..] == []
  {
  }

  /** A disk with an empty header recovers to itself. */
  lemma EmptyLog(d: Image, start: nat, size: nat)
    requires Loggable(|d|, start, size, []) && d[start][0] == 0
    ensures Recoverable(d, start, size) && SameHome(Recovered(d, start, size), d, start, size)
  {
    RecoveredAt(d, start, size);
  }

  // ---- every step keeps it ----

  lemma InitOk(s: State, d: Image, start: nat, size: nat)
    requires Init(s, d, start, size)
    ensures Inv(s, d, start, size)
  {
    EmptyLog(d, start, size);
  }

  /** Begin and End. */
  lemma MarkOk(s: State, d: Image, start: nat, size: nat, e: Event)
    requires Inv(s, d, start, size) && s.phase == Up && !e.Wrote?
    ensures Inv(s.(hist := s.hist + [e]), d, start, size)
  {
    Appended(s.hist, e, s.durable);
  }

  /** What one more write does to the history's meaning. */
  lemma WriteMeans(d: Image, h: seq<Event>, n: nat, p: nat, b: nat, x: Block)
    requires n <= |h| && b < |d|
    ensures var g := h + [Wrote(p, b, x)];
            && Apply(d, g) == Apply(d, h)[b := x] && g[..n] == h[..n]
            && Touched(g[n..]) == Recorded(Touched(h[n..]), b)
  {
    Appended(h, Wrote(p, b, x), n);
  }

  lemma StillPending(disk: Image, view: Image, start: nat, size: nat, bs: seq<nat>, b: nat, x: Block)
    requires Pending(disk, view, start, size, bs) && b < |view| && |bs| < size - 1 && !(start <= b < start + size)
    ensures Pending(disk, view[b := x], start, size, Recorded(bs, b))
  {
    LoggableMore(|view|, start, size, bs, b);
    var r := Recorded(bs, b);
    assert b in r by { if b !in bs { assert r[|bs|] == b; } }
    assert forall k :: k in bs ==> k in r;
  }

  lemma WriteOk(s: State, d: Image, start: nat, size: nat, p: nat, b: nat, x: Block)
    requires Inv(s, d, start, size) && Enabled(s, start, size, Write(p, b, x))
    ensures Inv(Next(s, start, size, Write(p, b, x)), d, start, size)
  {
    hide Apply, Touched, Open, Pending, Loggable, Recoverable, Recovered, Recorded;
    StillPending(s.disk, s.view, start, size, Touched(s.hist[s.durable..]), b, x);
    WriteMeans(d, s.hist, s.durable, p, b, x);
  }

  lemma StartOk(s: State, d: Image, start: nat, size: nat)
    requires Inv(s, d, start, size) && Enabled(s, start, size, CommitStart)
    ensures Inv(Next(s, start, size, CommitStart), d, start, size)
  {
    EmptyLog(s.disk, start, size);
    SameHomeTrans(s.disk, Recovered(s.disk, start, size), Apply(d, s.hist[..s.durable]), start, size);
  }

  lemma CommitWriteOk(s: State, d: Image, start: nat, size: nat)
    requires Inv(s, d, start, size) && Enabled(s, start, size, CommitWrite)
    ensures Inv(Next(s, start, size, CommitWrite), d, start, size)
  {
    CommitWriteSafe(s, d, start, size);
    CommitWritePhase(s, d, start, size);
    hide Safe, PhaseOk, Next, Enabled;
  }

  lemma CommitWriteSafe(s: State, d: Image, start: nat, size: nat)
    requires Inv(s, d, start, size) && Enabled(s, start, size, CommitWrite)
    ensures Safe(Next(s, start, size, CommitWrite), d, start, size)
  {
    var t := Next(s, start, size, CommitWrite);
    var Committing(base, bs, k) := s.phase;
    WholePrefix(s.hist);
    NextWrite(base, s.view, start, size, bs, k);
    hide Pending, Loggable, CommitTrace, Recovered, Recoverable, SameHome, After, Apply, Open;
    if k + 1 <= |bs| {
      SameHomeTrans(Recovered(t.disk, start, size), base, Apply(d, t.hist[..t.durable]), start, size);
    } else {
      SameHomeTrans(Recovered(t.disk, start, size), s.view, Apply(d, t.hist), start, size);
    }
  }

  lemma CommitWritePhase(s: State, d: Image, start: nat, size: nat)
    requires Inv(s, d, start, size) && Enabled(s, start, size, CommitWrite)
    ensures PhaseOk(Next(s, start, size, CommitWrite), d, start, size)
  {
    hide Safe, Loggable, CommitTrace, Recovered, Recoverable, SameHome, After, Apply, Open, Touched;
    var Committing(base, bs, k) := s.phase;
    NextWrite(base, s.view, start, size, bs, k);
    hide Pending;
  }

  /** The disk after one more write of a commit. */
  lemma NextWrite(base: Image, view: Image, start: nat, size: nat, bs: seq<nat>, k: nat)
    requires Pending(base, view, start, size, bs) && |base| == |view| && Loggable(|base|, start, size, bs)
    requires k < CommitWrites(bs) && bs != []
    ensures |CommitTrace(base, view, start, size, bs)| == CommitWrites(bs)
    ensures var r := CommitTrace(base, view, start, size, bs)[k];
            && r == After(base, CommitTrace(base, view, start, size, bs), k + 1) && |r| == |base|
            && Recoverable(r, start, size)
            && SameHome(Recovered(r, start, size), if k + 1 <= |bs| then base else view, start, size)
  {
    CommitAtomic(base, view, start, size, bs, k + 1);
    TraceSize(base, view, start, size, bs, k);
  }

  lemma TraceSize(d: Image, view: Image, start: nat, size: nat, bs: seq<nat>, k: nat)
    requires |d| == |view| && Loggable(|d|, start, size, bs)
    ensures |CommitTrace(d, view, start, size, bs)| == CommitWrites(bs)
    ensures k < CommitWrites(bs) ==> |CommitTrace(d, view, start, size, bs)[k]| == |d|
  {
    hide Logged, Installed, Sealed, Erased, Header;
    if k < CommitWrites(bs) {
      var s := Sealed(d, view, start, size, bs);
      var l, t := LogTrace(d, view, start, bs), CommitTrace(d, view, start, size, bs);
      assert t[k] == if k < |bs| then l[k] else if k == |bs| then s else InstallTrace(s, start, bs)[k - |bs| - 1];
      ErasedSize(s, start, bs);
    }
  }

  lemma ErasedSize(s: Image, start: nat, bs: seq<nat>)
    requires start + |bs| < |s| && forall i :: 0 <= i < |bs| ==> bs[i] < |s|
    ensures |Erased(Installed(s, start, bs, |bs|), start)| == |s|
  {
  }

  lemma CommitDoneOk(s: State, d: Image, start: nat, size: nat)
    requires Inv(s, d, start, size) && Enabled(s, start, size, CommitDone)
    ensures Inv(Next(s, start, size, CommitDone), d, start, size)
  {
    var Committing(base, bs, k) := s.phase;
    var t := Next(s, start, size, CommitDone);
    WholePrefix(s.hist);
    CommitCompletes(base, s.view, start, size, bs);
    TraceSize(base, s.view, start, size, bs, k - 1);
    SameHomeTrans(s.disk, s.view, Apply(d, s.hist), start, size);
    assert Touched(t.hist[t.durable..]) == [];
  }

  lemma CrashOk(s: State, d: Image, start: nat, size: nat)
    requires Inv(s, d, start, size)
    ensures Enabled(s, start, size, Crash) && Inv(Next(s, start, size, Crash), d, start, size)
  {
    WholePrefix(s.hist[..s.durable]);
  }

  lemma RecoverStartOk(s: State, d: Image, start: nat, size: nat)
    requires Inv(s, d, start, size) && Enabled(s, start, size, RecoverStart)
    ensures Inv(Next(s, start, size, RecoverStart), d, start, size)
  {
    WholePrefix(s.hist);
  }

  lemma RecoverWriteOk(s: State, d: Image, start: nat, size: nat)
    requires Inv(s, d, start, size) && Enabled(s, start, size, RecoverWrite)
    ensures Inv(Next(s, start, size, RecoverWrite), d, start, size)
  {
    var t := Next(s, start, size, RecoverWrite);
    var Recovering(base, k) := s.phase;
    WholePrefix(s.hist);
    RecoveryRestartable(base, start, size, k);
    SameHomeTrans(Recovered(t.disk, start, size), Recovered(base, start, size), Apply(d, s.hist), start, size);
  }

  lemma RecoverDoneOk(s: State, d: Image, start: nat, size: nat)
    requires Inv(s, d, start, size) && Enabled(s, start, size, RecoverDone)
    ensures Inv(Next(s, start, size, RecoverDone), d, start, size)
  {
    var Recovering(base, k) := s.phase;
    WholePrefix(s.hist);
    RecoveredAt(base, start, size);
    assert s.disk == Recovered(base, start, size);
  }

  lemma InvNext(s: State, d: Image, start: nat, size: nat, a: Step)
    requires Inv(s, d, start, size) && Enabled(s, start, size, a)
    ensures Inv(Next(s, start, size, a), d, start, size)
  {
    hide Inv;
    match a
    case Begin(p) => MarkOk(s, d, start, size, Began(p));
    case Write(p, b, x) => WriteOk(s, d, start, size, p, b, x);
    case End(p) => MarkOk(s, d, start, size, Ended(p));
    case CommitStart => StartOk(s, d, start, size);
    case CommitWrite => CommitWriteOk(s, d, start, size);
    case CommitDone => CommitDoneOk(s, d, start, size);
    case Crash => CrashOk(s, d, start, size);
    case RecoverStart => RecoverStartOk(s, d, start, size);
    case RecoverWrite => RecoverWriteOk(s, d, start, size);
    case RecoverDone => RecoverDoneOk(s, d, start, size);
  }

  lemma {:induction false} InvRun(ss: seq<State>, d: Image, start: nat, size: nat, i: nat)
    requires Run(ss, d, start, size) && i < |ss|
    ensures Inv(ss[i], d, start, size)
  {
    if i == 0 {
      InitOk(ss[0], d, start, size);
    } else {
      InvRun(ss, d, start, size, i - 1);
      assert CanStep(ss[i-1], ss[i], start, size);
      var a :| Enabled(ss[i-1], start, size, a) && ss[i] == Next(ss[i-1], start, size, a);
      InvNext(ss[i-1], d, start, size, a);
    }
  }

  // ---- what the history means ----

  /** Event i begins an operation of p that has not ended. */
  predicate UnderWay(h: seq<Event>, i: int, p: nat) {
    0 <= i < |h| && h[i] == Began(p) && forall k :: i < k < |h| ==> h[k] != Ended(p)
  }

  lemma {:induction false} OpenIff(h: seq<Event>, p: nat)
    ensures p in Open(h) <==> exists i :: UnderWay(h, i, p)
  {
    if h != [] {
      var g, l := h[..|h|-1], |h| - 1;
      OpenIff(g, p);
      if i :| UnderWay(g, i, p) { assert h[l] != Ended(p) ==> UnderWay(h, i, p); }
      if i :| UnderWay(h, i, p) { assert i < l ==> UnderWay(g, i, p); }
      if h[l] == Began(p) { assert UnderWay(h, l, p); }
    }
  }

  /** Event i is the last write of block b. */
  predicate LastWrite(h: seq<Event>, i: int, b: nat) {
    0 <= i < |h| && h[i].Wrote? && h[i].b == b && forall k :: i < k < |h| ==> !(h[k].Wrote? && h[k].b == b)
  }

  /** A block holds what was written to it last. */
  lemma {:induction false} AppliedBlock(d: Image, h: seq<Event>, b: nat)
    requires b < |d|
    ensures forall i :: LastWrite(h, i, b) ==> Apply(d, h)[b] == h[i].x
    ensures (forall i :: 0 <= i < |h| ==> !(h[i].Wrote? && h[i].b == b)) ==> Apply(d, h)[b] == d[b]
  {
    if h != [] {
      var g, l := h[..|h|-1], |h| - 1;
      AppliedBlock(d, g, b);
      forall i | LastWrite(h, i, b)
        ensures Apply(d, h)[b] == h[i].x
      {
        if i < l { assert LastWrite(g, i, b); }
      }
      if forall i :: 0 <= i < |h| ==> !(h[i].Wrote? && h[i].b == b) {
        assert forall i :: 0 <= i < |g| ==> g[i] == h[i];
      }
    }
  }

  // ---- the results, over every run ----

  /** At every moment, what recovery would bring back are the home blocks after a part of the
      history that ends between operations: all writes of its operations and no others. */
  lemma RecoversPrefix(ss: seq<State>, d: Image, start: nat, size: nat, i: nat)
    requires Run(ss, d, start, size) && i < |ss|
    ensures var s := ss[i];
            && s.durable <= |s.hist| && Open(s.hist[..s.durable]) == {}
            && Recoverable(s.disk, start, size) && |s.disk| == |d|
            && SameHome(Recovered(s.disk, start, size), Apply(d, s.hist[..s.durable]), start, size)
  {
    InvRun(ss, d, start, size, i);
  }

  /** What runs after a recovery is what recovery promised: the cache shows the history. */
  lemma ViewShowsHistory(ss: seq<State>, d: Image, start: nat, size: nat, i: nat)
    requires Run(ss, d, start, size) && i < |ss| && ss[i].phase == Up
    ensures SameHome(ss[i].view, Apply(d, ss[i].hist), start, size)
  {
    InvRun(ss, d, start, size, i);
  }

  /** A finished commit has made everything before it durable. */
  lemma CommitIsDurable(ss: seq<State>, d: Image, start: nat, size: nat, i: nat)
    requires Run(ss, d, start, size) && i < |ss| && ss[i].phase.Committing? && ss[i].phase.k > |ss[i].phase.bs|
    ensures ss[i].durable == |ss[i].hist|
  {
    InvRun(ss, d, start, size, i);
  }

  ghost predicate Kept(s: State, t: State, n: nat) {
    n <= s.durable <= |s.hist| && n <= t.durable <= |t.hist| && t.hist[..n] == s.hist[..n]
  }

  lemma KeptTrans(s: State, t: State, u: State, n: nat)
    requires Kept(s, t, n) && Kept(t, u, n)
    ensures Kept(s, u, n)
  {
  }

  lemma StepKeeps(s: State, d: Image, start: nat, size: nat, a: Step, n: nat)
    requires Inv(s, d, start, size) && Enabled(s, start, size, a) && n <= s.durable
    ensures Kept(s, Next(s, start, size, a), n)
  {
    InvNext(s, d, start, size, a);
    if a.Crash? { assert s.hist[..s.durable][..n] == s.hist[..n]; }
  }

  /** What was durable once stays so, whatever crashes follow. */
  lemma {:induction false} DurableForever(ss: seq<State>, d: Image, start: nat, size: nat, i: nat, j: nat)
    requires Run(ss, d, start, size) && i <= j < |ss|
    ensures ss[i].durable <= |ss[i].hist| && ss[i].durable <= ss[j].durable <= |ss[j].hist|
    ensures ss[j].hist[..ss[i].durable] == ss[i].hist[..ss[i].durable]
    decreases j - i
  {
    hide Inv, Enabled, Next;
    if i < j {
      DurableForever(ss, d, start, size, i, j - 1);
      InvRun(ss, d, start, size, j - 1);
      assert CanStep(ss[j-1], ss[j], start, size);
      var a :| Enabled(ss[j-1], start, size, a) && ss[j] == Next(ss[j-1], start, size, a);
      StepKeeps(ss[j-1], d, start, size, a, ss[i].durable);
      KeptTrans(ss[i], ss[j-1], ss[j], ss[i].durable);
    } else {
      RecoversPrefix(ss, d, start, size, i);
    }
  }
}
