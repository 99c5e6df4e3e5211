/**
 The code that sleeps: sleeplock.c, begin_op and end_op of log.c, and pipe.c, as programs of
 the monitor.
 */
module Sleepers {
  import opened Monitor
  import opened Common
  import LogOps

  // ---- sleeplock.c ----

  /** pid is 0 unless the lock is held. */
  datatype SleepLock = SleepLock(locked: bool, pid: int)

  datatype LockOp = Acquire(pid: int) | Release

  function LockCode(o: LockOp, killed: bool, g: SleepLock): (r: Move<SleepLock, LockOp>) {
    match o
    case Acquire(pid) => if g.locked then Move(g, [], Sleep(0, o)) else Move(SleepLock(true, pid), [], Leave)
    case Release => Move(SleepLock(false, 0), [0], Leave)
  }

  function LockProgram(): (r: Program<SleepLock, LockOp>) {
    Program((o, k, g) => true, LockCode, (c: Chan, g: SleepLock) => c == 0 && g.locked, (g, h) => false)
  }

  /** Whoever sleeps on a sleeplock, it is held. */
  lemma AsleepOnHeldLock(ss: seq<State<SleepLock, LockOp>>, i: nat, p: nat)
    requires Run(LockProgram(), ss) && i < |ss| && ss[i].lk == FREE && p < |ss[i].procs| && ss[i].procs[p].Asleep?
    ensures ss[i].procs[p].chan == 0 && ss[i].data.locked
  {
    var pr := LockProgram();
    forall o, k, g | pr.pre(o, k, g)
      ensures Covers(pr, o, k, g)
    {
    }
    NoLostWakeup(pr, ss, i, p);
  }

  // ---- log.c ----

  datatype LogOp = BeginOp | LogWrite(absorbed: bool) | EndOp | CommitDone

  function LogCode(o: LogOp, killed: bool, g: LogOps.Ctl): (r: Move<LogOps.Ctl, LogOp>) {
    match o
    case BeginOp => if LogOps.CanBegin(g) then Move(LogOps.Begin(g), [], Leave) else Move(g, [], Sleep(0, BeginOp))
    case LogWrite(absorbed) => Move(if absorbed then g else g.(n := g.n + 1), [], Leave)
    case EndOp =>
      if g.outstanding == 0 then Move(g, [], Leave)   // no caller gets here: see pre
      else if g.outstanding == 1 then Move(LogOps.End(g), [], Leave)
      else Move(LogOps.End(g), [0], Leave)
    case CommitDone => Move(g.(committing := false), [0], Leave)
  }

  /** end_op follows a begin_op, and only the committer ends the commit; commit() itself
      resets lh.n without log.lock. */
  function LogProgram(): (r: Program<LogOps.Ctl, LogOp>) {
    Program(
      (o: LogOp, k: bool, g: LogOps.Ctl) =>
        (o.EndOp? ==> g.outstanding > 0 && !g.committing) && (o.CommitDone? ==> g.committing),
      LogCode,
      (c: Chan, g: LogOps.Ctl) => c == 0 && !LogOps.CanBegin(g),
      (g: LogOps.Ctl, h: LogOps.Ctl) => g.committing && h == g.(n := 0))
  }

  lemma LogDisciplined()
    ensures Disciplined(LogProgram())
  {
    var pr := LogProgram();
    forall o, k, g | pr.pre(o, k, g)
      ensures Covers(pr, o, k, g)
    {
    }
  }

  /** Whoever sleeps in begin_op, a commit is running or the reservation is full. */
  lemma AsleepOnFullLog(ss: seq<State<LogOps.Ctl, LogOp>>, i: nat, p: nat)
    requires Run(LogProgram(), ss) && i < |ss| && ss[i].lk == FREE && p < |ss[i].procs| && ss[i].procs[p].Asleep?
    ensures var g := ss[i].data;
            g.committing || g.n + (g.outstanding + 1) * MAXOPBLOCKS > LOGSIZE
  {
    LogDisciplined();
    NoLostWakeup(LogProgram(), ss, i, p);
  }

  // ---- pipe.c ----

  const PIPESIZE: nat := 512
  const NREAD: Chan := 1      // &p->nread
  const NWRITE: Chan := 2     // &p->nwrite

  type Used = n: nat | n <= PIPESIZE

  datatype PipeCtl = PipeCtl(used: Used, readopen: bool, writeopen: bool)

  /** What is left to write or read, or the end to close. */
  datatype PipeOp = Write(n: nat) | Read(n: nat) | Close(writable: bool)

  function PipeCode(o: PipeOp, killed: bool, g: PipeCtl): (r: Move<PipeCtl, PipeOp>) {
    match o
    case Write(n) =>
      if g.used + n <= PIPESIZE then Move(g.(used := g.used + n), [NREAD], Leave)
      else
        var full := g.(used := PIPESIZE);
        if !g.readopen || killed then Move(full, [], Leave)
        else Move(full, [NREAD], Sleep(NWRITE, Write(n - (PIPESIZE - g.used))))
    case Read(n) =>
      if g.used == 0 && g.writeopen then
        if killed then Move(g, [], Leave) else Move(g, [], Sleep(NREAD, o))
      else
        Move(g.(used := if n < g.used then g.used - n else 0), [NWRITE], Leave)
    case Close(writable) =>
      if writable then Move(g.(writeopen := false), [NREAD], Leave)
      else Move(g.(readopen := false), [NWRITE], Leave)
  }

  /** The reasons to sleep, as far as the pipe's own state tells: that a reader's open file
      keeps the read end open is the subject of FileRun. */
  predicate PipeWaits(c: Chan, g: PipeCtl) {
    || (c == NWRITE && g.used == PIPESIZE && g.readopen)
    || (c == NREAD && (!g.readopen || (g.used == 0 && g.writeopen)))
  }

  /** A killed writer that fills an empty pipe returns without waking the readers. */
  predicate Strands(o: PipeOp, killed: bool, g: PipeCtl) {
    o.Write? && killed && o.n > PIPESIZE && g.used == 0 && g.readopen && g.writeopen
  }

  function PipeProgram(): (r: Program<PipeCtl, PipeOp>) {
    Program((o, k, g) => true, PipeCode, PipeWaits, (g, h) => false)
  }

  /** The same code, with runs in which no killed writer fills an empty pipe. */
  function CarefulPipe(): (r: Program<PipeCtl, PipeOp>) {
    PipeProgram().(pre := (o, k, g) => !Strands(o, k, g))
  }

  /** pipe.c wakes everyone it must, except in exactly that case. */
  lemma PipeCoversIff(o: PipeOp, killed: bool, g: PipeCtl)
    ensures Covers(PipeProgram(), o, killed, g) <==> !Strands(o, killed, g)
  {
    if Strands(o, killed, g) {
      assert PipeWaits(NREAD, g) && !PipeWaits(NREAD, PipeCode(o, killed, g).data);
    }
  }

  // ---- open files ----

  /** The process is in a read that has not returned. */
  predicate Reading(q: Proc<PipeOp>) {
    match q
    case Out => false
    case Inside(_, end) => end.Sleep? && end.resume.Read?
    case Dozing(_, o, _) => o.Read?
    case Asleep(_, o) => o.Read?
    case Ready(o) => o.Read?
  }

  predicate NoneReading(procs: seq<Proc<PipeOp>>) {
    forall q :: 0 <= q < |procs| ==> !Reading(procs[q])
  }

  /** A read begins with the read end open, and pipeclose of that end waits for the last open
      file, which a process in a read still has. */
  predicate ByFile(s: State<PipeCtl, PipeOp>, a: Step<PipeCtl, PipeOp>) {
    a.Enter? && a.p < |s.procs| ==>
      && (a.o == Close(false) ==> NoneReading(s.procs))
      && (a.o.Read? && s.procs[a.p] == Out ==> s.data.readopen)
  }

  ghost predicate FileStep(pr: Program<PipeCtl, PipeOp>, s: State<PipeCtl, PipeOp>, t: State<PipeCtl, PipeOp>) {
    exists a :: Enabled(pr, s, a) && ByFile(s, a) && t == Next(pr, s, a)
  }

  /** A run in which the ends of the pipe are used through open files. */
  ghost predicate FileRun(pr: Program<PipeCtl, PipeOp>, ss: seq<State<PipeCtl, PipeOp>>) {
    |ss| > 0 && Init(ss[0]) && forall i :: 0 <= i < |ss| - 1 ==> FileStep(pr, ss[i], ss[i+1])
  }

  lemma FileRunIsRun(pr: Program<PipeCtl, PipeOp>, ss: seq<State<PipeCtl, PipeOp>>)
    requires FileRun(pr, ss)
    ensures Run(pr, ss)
  {
    forall i | 0 <= i < |ss| - 1
      ensures CanStep(pr, ss[i], ss[i+1])
    {
      assert FileStep(pr, ss[i], ss[i+1]);
    }
  }

  /** Readers sleep on nread and writers on nwrite. */
  predicate OwnChannel(c: Chan, o: PipeOp) {
    (o.Read? && c == NREAD) || (o.Write? && c == NWRITE)
  }

  predicate ReaderOk(s: State<PipeCtl, PipeOp>, q: nat)
    requires q < |s.procs|
  {
    && (Reading(s.procs[q]) ==> s.data.readopen)
    && match s.procs[q]
       case Inside(_, end) => end.Sleep? ==> OwnChannel(end.chan, end.resume)
       case Dozing(c, o, _) => OwnChannel(c, o)
       case Asleep(c, o) => OwnChannel(c, o)
       case _ => true
  }

  ghost predicate ReadersOk(s: State<PipeCtl, PipeOp>) {
    forall q :: 0 <= q < |s.procs| ==> ReaderOk(s, q)
  }

  lemma ReadersNext(s: State<PipeCtl, PipeOp>, a: Step<PipeCtl, PipeOp>)
    requires ReadersOk(s) && Enabled(CarefulPipe(), s, a) && ByFile(s, a)
    ensures ReadersOk(Next(CarefulPipe(), s, a))
  {
    var t := Next(CarefulPipe(), s, a);
    forall q | 0 <= q < |t.procs|
      ensures ReaderOk(t, q)
    {
      assert ReaderOk(s, q);
      if a.Enter? { assert ReaderOk(s, a.p); }
    }
  }

  lemma {:induction false} ReadersRun(ss: seq<State<PipeCtl, PipeOp>>, i: nat)
    requires FileRun(CarefulPipe(), ss) && i < |ss|
    ensures ReadersOk(ss[i])
  {
    if i > 0 {
      ReadersRun(ss, i - 1);
      assert FileStep(CarefulPipe(), ss[i-1], ss[i]);
      var a :| Enabled(CarefulPipe(), ss[i-1], a) && ByFile(ss[i-1], a) && ss[i] == Next(CarefulPipe(), ss[i-1], a);
      ReadersNext(ss[i-1], a);
    } else {
      forall q | 0 <= q < |ss[0].procs|
        ensures ReaderOk(ss[0], q)
      {
        assert ss[0].procs[q] == Out;
      }
    }
  }

  /** Whoever sleeps on nwrite, the pipe is full and the read end open; whoever sleeps on
      nread, the pipe is empty and both ends are open. */
  lemma AsleepOnPipe(ss: seq<State<PipeCtl, PipeOp>>, i: nat, p: nat)
    requires FileRun(CarefulPipe(), ss) && i < |ss| && ss[i].lk == FREE
    requires p < |ss[i].procs| && ss[i].procs[p].Asleep?
    ensures var c, g := ss[i].procs[p].chan, ss[i].data;
            || (c == NWRITE && g.used == PIPESIZE && g.readopen)
            || (c == NREAD && g.used == 0 && g.writeopen && g.readopen)
  {
    CarefulDisciplined();
    FileRunIsRun(CarefulPipe(), ss);
    NoLostWakeup(CarefulPipe(), ss, i, p);
    ReadersRun(ss, i);
    assert ReaderOk(ss[i], p);
  }

  lemma CarefulDisciplined()
    ensures Disciplined(CarefulPipe())
  {
    var pr := CarefulPipe();
    forall o, k, g | pr.pre(o, k, g)
      ensures Covers(pr, o, k, g)
    {
      PipeCoversIff(o, k, g);
      assert Covers(PipeProgram(), o, k, g);
    }
  }

  /** A reader of an empty pipe goes to sleep. */
  lemma SleepingReader() returns (ss: seq<State<PipeCtl, PipeOp>>)
    ensures FileRun(PipeProgram(), ss)
    ensures ss[|ss|-1] == State(PipeCtl(0, true, true), FREE, FREE, [Asleep(NREAD, Read(1)), Out], [false, false])
  {
    var pr := PipeProgram();
    var s0: State<PipeCtl, PipeOp> := State(PipeCtl(0, true, true), FREE, FREE, [Out, Out], [false, false]);
    var s1 := Next(pr, s0, Enter(0, Read(1)));
    var s2 := Next(pr, s1, TakePtable(0));
    var s3 := Next(pr, s2, ReleaseLk(0));
    var s4 := Next(pr, s3, FallAsleep(0));
    ss := [s0, s1, s2, s3, s4];
    assert ByFile(s0, Enter(0, Read(1))) && ByFile(s1, TakePtable(0)) && ByFile(s2, ReleaseLk(0))
        && ByFile(s3, FallAsleep(0));
    assert FileStep(pr, s0, s1) && FileStep(pr, s1, s2) && FileStep(pr, s2, s3) && FileStep(pr, s3, s4);
  }

  /** A killed writer comes and goes. */
  lemma KilledWriter(s4: State<PipeCtl, PipeOp>)
    returns (s5: State<PipeCtl, PipeOp>, s6: State<PipeCtl, PipeOp>, s7: State<PipeCtl, PipeOp>)
    requires s4 == State(PipeCtl(0, true, true), FREE, FREE, [Asleep(NREAD, Read(1)), Out], [false, false])
    ensures FileStep(PipeProgram(), s4, s5) && FileStep(PipeProgram(), s5, s6) && FileStep(PipeProgram(), s6, s7)
    ensures s7 == State(PipeCtl(PIPESIZE, true, true), FREE, FREE, [Asleep(NREAD, Read(1)), Out], [false, true])
  {
    var pr := PipeProgram();
    s5 := Next(pr, s4, Kill(1));
    s6 := Next(pr, s5, Enter(1, Write(600)));
    s7 := Next(pr, s6, Exit(1));
    assert ByFile(s4, Kill(1)) && ByFile(s5, Enter(1, Write(600))) && ByFile(s6, Exit(1));
  }

  /** The case is real: with a killed writer, a reader can be left asleep on a full pipe. */
  lemma StrandedReader() returns (ss: seq<State<PipeCtl, PipeOp>>)
    ensures FileRun(PipeProgram(), ss)
    ensures ss[|ss|-1] == State(PipeCtl(PIPESIZE, true, true), FREE, FREE, [Asleep(NREAD, Read(1)), Out], [false, true])
  {
    var rs := SleepingReader();
    var s5, s6, s7 := KilledWriter(rs[|rs|-1]);
    ss := rs + [s5, s6, s7];
    forall i | 0 <= i < |ss| - 1
      ensures FileStep(PipeProgram(), ss[i], ss[i+1])
    {
      if i < |rs| - 1 { assert FileStep(PipeProgram(), rs[i], rs[i+1]); }
    }
  }
}
