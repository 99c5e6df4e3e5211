/**
 What the write-ahead log of log.c does to the disk, write by write, and why a crash
 between any two writes is harmless.

 `CommitTrace` and `RecoverTrace` list the disk after each block write of commit() and of
 recover_from_log(); module Log proves that the code performs exactly these writes.
 */
module LogSpec {
  import opened Common
  import opened Bio

  type Image = seq<Block>

  /** Block numbers that fit in a log of `size` blocks at `start`: distinct, on the disk,
      and outside the log area. */
  ghost predicate Loggable(nblocks: nat, start: nat, size: nat, bs: seq<nat>) {
    && 1 <= size <= LOGSIZE && start + size <= nblocks < UINT
    && |bs| < size
    && (forall i :: 0 <= i < |bs| ==> bs[i] < nblocks && !(start <= bs[i] < start + size))
    && (forall i, j :: 0 <= i < j < |bs| ==> bs[i] != bs[j])
  }

  ghost function SetOf(bs: seq<nat>): (r: set<nat>) {
    set k | k in bs
  }

  lemma {:induction false} SetOfSize(bs: seq<nat>)
    ensures |SetOf(bs)| <= |bs|
  {
    if bs != [] {
      SetOfSize(bs[1..]);
      assert bs == [bs[0]] + bs[1..];
      assert SetOf(bs) == {bs[0]} + SetOf(bs[1..]);
    }
  }

  /** The list with block k in it, once. */
  function Recorded(bs: seq<nat>, k: nat): (r: seq<nat>) {
    if k in bs then bs else bs + [k]
  }

  lemma LoggableMore(nblocks: nat, start: nat, size: nat, bs: seq<nat>, k: nat)
    requires Loggable(nblocks, start, size, bs) && |bs| < size - 1 && k < nblocks
    ensures Loggable(nblocks, start, size, Recorded(bs, k)) <==> !(start <= k < start + size)
    ensures SetOf(Recorded(bs, k)) == SetOf(bs) + {k}
  {
    var r := Recorded(bs, k);
    if k !in bs { assert r[|bs|] == k; }
    if Loggable(nblocks, start, size, r) {
      var i :| 0 <= i < |r| && r[i] == k;
    }
  }

  /** The block numbers a header block lists. */
  function Listed(h: Block): (bs: seq<nat>)
    requires h[0] <= LOGSIZE
    ensures |bs| == h[0]
  {
    h[1..h[0] + 1]
  }

  /** A header block after write_head: words past the list keep what they held. */
  function Header(h: Block, bs: seq<nat>): (r: Block)
    requires |bs| <= LOGSIZE && forall i :: 0 <= i < |bs| ==> bs[i] < UINT
    ensures r[0] <= LOGSIZE && Listed(r) == bs
  {
    var ws: seq<Word> := seq(|bs|, i requires 0 <= i < |bs| => bs[i]);
    [|bs|] + ws + h[|bs| + 1..]
  }

  /** The disk lists a loggable transaction in its header. */
  ghost predicate Recoverable(d: Image, start: nat, size: nat) {
    start < |d| && d[start][0] <= LOGSIZE && Loggable(|d|, start, size, Listed(d[start]))
  }

  /** The disk after copying the first k blocks of the view into the log. */
  ghost function Logged(d: Image, view: Image, start: nat, bs: seq<nat>, k: nat): (r: Image)
    requires k <= |bs| && start + |bs| < |d| == |view| && forall i :: 0 <= i < |bs| ==> bs[i] < |d|
    ensures |r| == |d|
  {
    if k == 0 then d else Logged(d, view, start, bs, k - 1)[start + k := view[bs[k - 1]]]
  }

  /** The disk after copying the first k logged blocks home. */
  ghost function Installed(d: Image, start: nat, bs: seq<nat>, k: nat): (r: Image)
    requires k <= |bs| && start + |bs| < |d| && forall i :: 0 <= i < |bs| ==> bs[i] < |d|
    ensures |r| == |d|
  {
    if k == 0 then d else
      var p := Installed(d, start, bs, k - 1);
      p[bs[k - 1] := p[start + k]]
  }

  ghost function Erased(d: Image, start: nat): (r: Image)
    requires start < |d|
  {
    d[start := Header(d[start], [])]
  }

  /** The disk after each write of install_trans() and of the write_head() that follows it. */
  ghost function InstallTrace(d: Image, start: nat, bs: seq<nat>): (t: seq<Image>)
    requires start + |bs| < |d| && forall i :: 0 <= i < |bs| ==> bs[i] < |d|
    ensures |t| == |bs| + 1 && t[|bs|] == Erased(Installed(d, start, bs, |bs|), start)
    ensures forall i :: 0 <= i < |bs| ==> t[i] == Installed(d, start, bs, i + 1)
  {
    seq(|bs|, i requires 0 <= i < |bs| => Installed(d, start, bs, i + 1))
    + [Erased(Installed(d, start, bs, |bs|), start)]
  }

  /** What a completed recovery makes of a disk. */
  ghost function Recovered(d: Image, start: nat, size: nat): (r: Image)
    requires Recoverable(d, start, size)
    ensures |r| == |d|
  {
    var bs := Listed(d[start]);
    Erased(Installed(d, start, bs, |bs|), start)
  }

  /** The disk after each write of recover_from_log(). */
  ghost function RecoverTrace(d: Image, start: nat, size: nat): (t: seq<Image>)
    requires Recoverable(d, start, size)
  {
    InstallTrace(d, start, Listed(d[start]))
  }

  /** The commit point: the log is complete and the header lists it. */
  ghost function Sealed(d: Image, view: Image, start: nat, size: nat, bs: seq<nat>): (r: Image)
    requires |d| == |view| && Loggable(|d|, start, size, bs)
    ensures |r| == |d|
  {
    var l := Logged(d, view, start, bs, |bs|);
    l[start := Header(l[start], bs)]
  }

  /** The disk after each write of write_log(). */
  ghost function LogTrace(d: Image, view: Image, start: nat, bs: seq<nat>): (t: seq<Image>)
    requires start + |bs| < |d| == |view| && forall i :: 0 <= i < |bs| ==> bs[i] < |d|
    ensures |t| == |bs| && forall i :: 0 <= i < |bs| ==> t[i] == Logged(d, view, start, bs, i + 1)
  {
    seq(|bs|, i requires 0 <= i < |bs| => Logged(d, view, start, bs, i + 1))
  }

  /** How many block writes commit() makes. */
  function CommitWrites(bs: seq<nat>): (r: nat) {
    if bs == [] then 0 else 2 * |bs| + 2
  }

  /** The disk after each write of commit(). */
  ghost function CommitTrace(d: Image, view: Image, start: nat, size: nat, bs: seq<nat>): (t: seq<Image>)
    requires |d| == |view| && Loggable(|d|, start, size, bs)
    ensures |t| == CommitWrites(bs)
  {
    if bs == [] then [] else
      var s := Sealed(d, view, start, size, bs);
      LogTrace(d, view, start, bs) + [s] + InstallTrace(s, start, bs)
  }

  /** Equal outside the log area: the blocks a file system sees. */
  ghost predicate SameHome(a: Image, b: Image, start: nat, size: nat) {
    |a| == |b| && forall k :: 0 <= k < |a| && !(start <= k < start + size) ==> a[k] == b[k]
  }

  // ---- what the copying loops achieve ----

  lemma {:induction false} LoggedAt(d: Image, view: Image, start: nat, size: nat, bs: seq<nat>, k: nat)
    requires |d| == |view| && Loggable(|d|, start, size, bs) && k <= |bs|
    ensures var r := Logged(d, view, start, bs, k);
            && (forall i :: 0 <= i < |d| && !(start < i <= start + k) ==> r[i] == d[i])
            && (forall i :: 0 <= i < k ==> r[start + 1 + i] == view[bs[i]])
  {
    if k > 0 {
      LoggedAt(d, view, start, size, bs, k - 1);
    }
  }

  lemma {:induction false} InstalledElse(d: Image, start: nat, size: nat, bs: seq<nat>, k: nat, i: nat)
    requires Loggable(|d|, start, size, bs) && k <= |bs| && i < |d| && i !in bs[..k]
    ensures Installed(d, start, bs, k)[i] == d[i]
  {
    if k > 0 {
      assert bs[k - 1] == bs[..k][k - 1] && i !in bs[..k - 1];
      InstalledElse(d, start, size, bs, k - 1, i);
    }
  }

  lemma {:induction false} InstalledHit(d: Image, start: nat, size: nat, bs: seq<nat>, k: nat, i: nat)
    requires Loggable(|d|, start, size, bs) && i < k <= |bs|
    ensures Installed(d, start, bs, k)[bs[i]] == d[start + 1 + i]
  {
    if i < k - 1 {
      InstalledHit(d, start, size, bs, k - 1, i);
    } else {
      InstalledElse(d, start, size, bs, i, start + 1 + i);
    }
  }

  lemma InstalledAt(d: Image, start: nat, size: nat, bs: seq<nat>, k: nat)
    requires Loggable(|d|, start, size, bs) && k <= |bs|
    ensures var r := Installed(d, start, bs, k);
            && (forall i :: 0 <= i < |d| && i !in bs[..k] ==> r[i] == d[i])
            && (forall i :: 0 <= i < k ==> r[bs[i]] == d[start + 1 + i])
  {
    forall i: nat | i < |d| && i !in bs[..k]
      ensures Installed(d, start, bs, k)[i] == d[i]
    {
      InstalledElse(d, start, size, bs, k, i);
    }
    forall i: nat | i < k
      ensures Installed(d, start, bs, k)[bs[i]] == d[start + 1 + i]
    {
      InstalledHit(d, start, size, bs, k, i);
    }
  }

  // ---- crashes ----

  /** Recovery gives each listed block its logged contents and leaves the rest. */
  lemma RecoveredAt(d: Image, start: nat, size: nat)
    requires Recoverable(d, start, size)
    ensures var r, bs := Recovered(d, start, size), Listed(d[start]);
            && r[start][0] == 0
            && (forall i :: 0 <= i < |d| && i != start && i !in bs ==> r[i] == d[i])
            && (forall i :: 0 <= i < |bs| ==> r[bs[i]] == d[start + 1 + i])
  {
    var bs := Listed(d[start]);
    InstalledAt(d, start, size, bs, |bs|);
    assert bs[..|bs|] == bs;
  }

  /** Two disks with the same header, the same logged contents, and the same unlisted home
      blocks recover to the same home blocks. */
  lemma RecoverSame(a: Image, b: Image, start: nat, size: nat)
    requires Recoverable(a, start, size) && Recoverable(b, start, size) && |a| == |b|
    requires Listed(a[start]) == Listed(b[start])
    requires forall i :: start < i <= start + |Listed(a[start])| ==> a[i] == b[i]
    requires forall i :: 0 <= i < |a| && !(start <= i < start + size) && i !in Listed(a[start]) ==> a[i] == b[i]
    ensures SameHome(Recovered(a, start, size), Recovered(b, start, size), start, size)
  {
    RecoveredAt(a, start, size);
    RecoveredAt(b, start, size);
    var bs, ra, rb := Listed(a[start]), Recovered(a, start, size), Recovered(b, start, size);
    forall k | 0 <= k < |a| && !(start <= k < start + size)
      ensures ra[k] == rb[k]
    {
      if k in bs {
        var i :| 0 <= i < |bs| && bs[i] == k;
        assert ra[bs[i]] == a[start + 1 + i] == b[start + 1 + i] == rb[bs[i]];
      }
    }
  }

  lemma PartlyInstalled(d: Image, start: nat, size: nat, k: nat)
    requires Recoverable(d, start, size) && k <= |Listed(d[start])|
    ensures var r := Installed(d, start, Listed(d[start]), k);
            && Recoverable(r, start, size)
            && SameHome(Recovered(r, start, size), Recovered(d, start, size), start, size)
  {
    var bs := Listed(d[start]);
    var r := Installed(d, start, bs, k);
    InstalledAt(d, start, size, bs, k);
    assert forall i :: start <= i < start + size ==> i !in bs[..k];
    assert r[start] == d[start];
    RecoverSame(r, d, start, size);
  }

  /** A second crash during recovery changes nothing: whatever part of recovery ran,
      recovering again ends in the same home blocks. */
  lemma RecoveryRestartable(d: Image, start: nat, size: nat, k: nat)
    requires Recoverable(d, start, size) && k < |RecoverTrace(d, start, size)|
    ensures var r := RecoverTrace(d, start, size)[k];
            && Recoverable(r, start, size) && |r| == |d|
            && SameHome(Recovered(r, start, size), Recovered(d, start, size), start, size)
  {
    var r := RecoverTrace(d, start, size)[k];
    if k < |Listed(d[start])| {
      PartlyInstalled(d, start, size, k + 1);
    } else {
      RecoveredAt(d, start, size);
      RecoveredAt(r, start, size);
    }
  }

  /** The disk when commit() has made its first k writes. */
  ghost function After(d: Image, t: seq<Image>, k: nat): (r: Image)
    requires k <= |t|
  {
    if k == 0 then d else t[k - 1]
  }

  /** The view departs from the disk only in the blocks being committed. */
  ghost predicate Pending(d: Image, view: Image, start: nat, size: nat, bs: seq<nat>) {
    && |d| == |view| && Loggable(|d|, start, size, bs)
    && d[start][0] == 0
    && forall k :: 0 <= k < |d| && view[k] != d[k] ==> k in bs
  }

  lemma BeforeSeal(d: Image, view: Image, start: nat, size: nat, bs: seq<nat>, k: nat)
    requires Pending(d, view, start, size, bs) && k <= |bs|
    ensures var r := Logged(d, view, start, bs, k);
            Recoverable(r, start, size) && SameHome(Recovered(r, start, size), d, start, size)
  {
    var r := Logged(d, view, start, bs, k);
    LoggedAt(d, view, start, size, bs, k);
    assert r[start] == d[start];
    RecoveredAt(r, start, size);
  }

  lemma AfterSeal(d: Image, view: Image, start: nat, size: nat, bs: seq<nat>)
    requires Pending(d, view, start, size, bs)
    ensures var s := Sealed(d, view, start, size, bs);
            && Recoverable(s, start, size) && Listed(s[start]) == bs
            && SameHome(Recovered(s, start, size), view, start, size)
  {
    var s := Sealed(d, view, start, size, bs);
    LoggedAt(d, view, start, size, bs, |bs|);
    RecoveredAt(s, start, size);
    var r := Recovered(s, start, size);
    forall k | 0 <= k < |d| && !(start <= k < start + size)
      ensures r[k] == view[k]
    {
      if k in bs {
        var i :| 0 <= i < |bs| && bs[i] == k;
        assert r[bs[i]] == s[start + 1 + i] == view[bs[i]];
      }
    }
  }

  /** A crash after the seal: what commit() still had to do is what recovery does. */
  lemma SealedAtomic(d: Image, view: Image, start: nat, size: nat, bs: seq<nat>, i: nat)
    requires Pending(d, view, start, size, bs) && i <= |bs| + 1
    ensures var s := Sealed(d, view, start, size, bs);
            var r := After(s, InstallTrace(s, start, bs), i);
            Recoverable(r, start, size) && SameHome(Recovered(r, start, size), view, start, size)
  {
    AfterSeal(d, view, start, size, bs);
    if i > 0 {
      RecoveryRestartable(Sealed(d, view, start, size, bs), start, size, i - 1);
    }
  }

  lemma CommitTraceAt(d: Image, view: Image, start: nat, size: nat, bs: seq<nat>, k: nat)
    requires |d| == |view| && Loggable(|d|, start, size, bs) && k <= CommitWrites(bs)
    ensures var s := Sealed(d, view, start, size, bs);
            After(d, CommitTrace(d, view, start, size, bs), k)
            == if k <= |bs| then Logged(d, view, start, bs, k) else After(s, InstallTrace(s, start, bs), k - |bs| - 1)
  {
  }

  /** One crash: after any number of commit()'s writes, recovery restores the old home blocks
      when the header has not been written, and the new ones when it has. */
  lemma CommitAtomic(d: Image, view: Image, start: nat, size: nat, bs: seq<nat>, k: nat)
    requires Pending(d, view, start, size, bs)
    requires k <= CommitWrites(bs)
    ensures var r := After(d, CommitTrace(d, view, start, size, bs), k);
            && Recoverable(r, start, size)
            && SameHome(Recovered(r, start, size), if k <= |bs| then d else view, start, size)
  {
    CommitTraceAt(d, view, start, size, bs, k);
    hide *;
    if k <= |bs| {
      BeforeSeal(d, view, start, size, bs, k);
    } else {
      SealedAtomic(d, view, start, size, bs, k - |bs| - 1);
    }
  }

  /** b is a disk that a crash during (or before) recovery from a can leave behind. */
  ghost predicate CrashInRecovery(a: Image, b: Image, start: nat, size: nat) {
    Recoverable(a, start, size) ==> b == a || b in RecoverTrace(a, start, size)
  }

  lemma {:induction false} ManyCrashes(ds: seq<Image>, start: nat, size: nat)
    requires |ds| > 0 && Recoverable(ds[0], start, size)
    requires forall i :: 0 <= i < |ds| - 1 ==> CrashInRecovery(ds[i], ds[i+1], start, size)
    ensures var l := ds[|ds|-1];
            && Recoverable(l, start, size) && |l| == |ds[0]|
            && SameHome(Recovered(l, start, size), Recovered(ds[0], start, size), start, size)
  {
    if |ds| > 1 {
      var p := ds[..|ds|-1];
      ManyCrashes(p, start, size);
      var a, b := ds[|ds|-2], ds[|ds|-1];
      assert CrashInRecovery(a, b, start, size);
      if b != a {
        var k :| 0 <= k < |RecoverTrace(a, start, size)| && RecoverTrace(a, start, size)[k] == b;
        RecoveryRestartable(a, start, size, k);
      }
    }
  }

  /** Crash atomicity.  commit() crashes after its first k writes; recovery then crashes any
      number of times, at any of its own writes; the recovery that completes leaves an empty
      header and the home blocks all old (header not yet written) or all new. */
  lemma CrashAtomicity(d: Image, view: Image, start: nat, size: nat, bs: seq<nat>, k: nat, ds: seq<Image>)
    requires Pending(d, view, start, size, bs)
    requires k <= CommitWrites(bs)
    requires |ds| > 0 && ds[0] == After(d, CommitTrace(d, view, start, size, bs), k)
    requires forall i :: 0 <= i < |ds| - 1 ==> CrashInRecovery(ds[i], ds[i+1], start, size)
    ensures var l := ds[|ds|-1];
            && Recoverable(l, start, size)
            && Recovered(l, start, size)[start][0] == 0
            && SameHome(Recovered(l, start, size), if k <= |bs| then d else view, start, size)
  {
    CommitAtomic(d, view, start, size, bs, k);
    ManyCrashes(ds, start, size);
    RecoveredAt(ds[|ds|-1], start, size);
  }

  /** A commit that is not interrupted ends with the new home blocks and an empty header. */
  lemma CommitCompletes(d: Image, view: Image, start: nat, size: nat, bs: seq<nat>)
    requires Pending(d, view, start, size, bs)
    ensures var t := CommitTrace(d, view, start, size, bs);
            var r := After(d, t, |t|);
            SameHome(r, view, start, size) && r[start][0] == 0
  {
    if bs != [] {
      var s := Sealed(d, view, start, size, bs);
      AfterSeal(d, view, start, size, bs);
      RecoveredAt(s, start, size);
      var t := CommitTrace(d, view, start, size, bs);
      assert After(d, t, |t|) == Recovered(s, start, size);
    }
  }
}
