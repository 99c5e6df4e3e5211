/**
 The parser of sh.c: a cursor moves over the line in place, words are kept as their start and
 end, and at the end a NUL is written after every word.
 */
module Sh {
  import opened Common
  import opened ShSpec

  /** A word as argv and eargv, or file and efile, hold it. */
  datatype Span = Span(q: nat, eq: nat)

  datatype Outcome = Parsed(cmd: Cmd<Span>) | Failed(error: Error)

  // ---- commands over a buffer ----

  /** A whole word lies at the span, with something else after it. */
  predicate Placed(b: string, w: Span) {
    w.q < w.eq < |b| && (forall i :: w.q <= i < w.eq ==> WordChar(b[i])) && !WordChar(b[w.eq])
  }

  predicate AllPlaced(b: string, c: Cmd<Span>) {
    match c
    case Exec(argv) => forall i :: 0 <= i < |argv| ==> Placed(b, argv[i])
    case Redir(d, f, _, _) => AllPlaced(b, d) && Placed(b, f)
    case Pipe(l, r) => AllPlaced(b, l) && AllPlaced(b, r)
    case List(l, r) => AllPlaced(b, l) && AllPlaced(b, r)
    case Back(d) => AllPlaced(b, d)
  }

  function Slice(b: string, w: Span): (r: string) {
    if w.q <= w.eq <= |b| then b[w.q..w.eq] else ""
  }

  /** The command with its words cut out of the buffer. */
  function Read(b: string, c: Cmd<Span>): (r: Cmd<string>) {
    match c
    case Exec(argv) => Exec(seq(|argv|, i requires 0 <= i < |argv| => Slice(b, argv[i])))
    case Redir(d, f, m, fd) => Redir(Read(b, d), Slice(b, f), m, fd)
    case Pipe(l, r) => Pipe(Read(b, l), Read(b, r))
    case List(l, r) => List(Read(b, l), Read(b, r))
    case Back(d) => Back(Read(b, d))
  }

  /** The C string at q. */
  function CString(b: string, q: nat): (s: string)
    decreases |b| - q
  {
    if q >= |b| || b[q] == NUL then "" else [b[q]] + CString(b, q + 1)
  }

  /** The command with its words read as C strings. */
  function Strings(b: string, c: Cmd<Span>): (r: Cmd<string>) {
    match c
    case Exec(argv) => Exec(seq(|argv|, i requires 0 <= i < |argv| => CString(b, argv[i].q)))
    case Redir(d, f, m, fd) => Redir(Strings(b, d), CString(b, f.q), m, fd)
    case Pipe(l, r) => Pipe(Strings(b, l), Strings(b, r))
    case List(l, r) => List(Strings(b, l), Strings(b, r))
    case Back(d) => Back(Strings(b, d))
  }

  /** Where nulterminate writes. */
  function Ends(c: Cmd<Span>): (r: set<nat>) {
    match c
    case Exec(argv) => set w | w in argv :: w.eq
    case Redir(d, f, _, _) => Ends(d) + {f.eq}
    case Pipe(l, r) => Ends(l) + Ends(r)
    case List(l, r) => Ends(l) + Ends(r)
    case Back(d) => Ends(d)
  }

  /** b with NULs at the given places. */
  predicate Cut(b: string, b': string, ends: set<nat>) {
    |b'| == |b| && forall i :: 0 <= i < |b| ==> b'[i] == if i in ends then NUL else b[i]
  }

  lemma {:induction false} ReadWithArg(b: string, c: Cmd<Span>, w: Span)
    requires AllPlaced(b, c) && Placed(b, w)
    ensures AllPlaced(b, WithArg(c, w)) && Read(b, WithArg(c, w)) == WithArg(Read(b, c), Slice(b, w))
  {
    match c
    case Redir(d, _, _, _) => ReadWithArg(b, d, w);
    case _ =>
  }

  /** No end of one word lies inside another. */
  lemma {:induction false} EndsOutside(b: string, c: Cmd<Span>, e: nat)
    requires AllPlaced(b, c) && e in Ends(c)
    ensures e < |b| && !WordChar(b[e])
  {
    match c
    case Exec(argv) =>
      var w :| w in argv && w.eq == e;
      var i :| 0 <= i < |argv| && argv[i] == w;
      assert Placed(b, argv[i]);
    case Redir(d, f, _, _) => if e in Ends(d) { EndsOutside(b, d, e); }
    case Pipe(l, r) => if e in Ends(l) { EndsOutside(b, l, e); } else { EndsOutside(b, r, e); }
    case List(l, r) => if e in Ends(l) { EndsOutside(b, l, e); } else { EndsOutside(b, r, e); }
    case Back(d) => EndsOutside(b, d, e);
  }

  lemma {:induction false} CStringIs(b: string, q: nat, eq: nat)
    requires q <= eq < |b| && b[eq] == NUL && forall i :: q <= i < eq ==> b[i] != NUL
    ensures CString(b, q) == b[q..eq]
    decreases eq - q
  {
    if q < eq {
      CStringIs(b, q + 1, eq);
      assert b[q..eq] == [b[q]] + b[q+1..eq];
    }
  }

  /** A word whose end is cut, while no other cut falls inside, is its own C string. */
  lemma WordCut(b: string, b': string, ends: set<nat>, w: Span)
    requires Placed(b, w) && Cut(b, b', ends) && w.eq in ends
    requires forall e :: e in ends ==> e < |b| && !WordChar(b[e])
    ensures CString(b', w.q) == Slice(b, w)
  {
    forall i | w.q <= i < w.eq
      ensures b'[i] == b[i] && b'[i] != NUL
    {
      assert i !in ends;
    }
    CStringIs(b', w.q, w.eq);
    assert b'[w.q..w.eq] == b[w.q..w.eq];
  }

  lemma {:induction false} AllCut(b: string, b': string, ends: set<nat>, c: Cmd<Span>)
    requires AllPlaced(b, c) && Cut(b, b', ends) && Ends(c) <= ends
    requires forall e :: e in ends ==> e < |b| && !WordChar(b[e])
    ensures Strings(b', c) == Read(b, c)
  {
    match c
    case Exec(argv) =>
      forall i | 0 <= i < |argv|
        ensures CString(b', argv[i].q) == Slice(b, argv[i])
      {
        assert argv[i] in argv;
        WordCut(b, b', ends, argv[i]);
      }
    case Redir(d, f, _, _) =>
      AllCut(b, b', ends, d);
      WordCut(b, b', ends, f);
    case Pipe(l, r) => AllCut(b, b', ends, l); AllCut(b, b', ends, r);
    case List(l, r) => AllCut(b, b', ends, l); AllCut(b, b', ends, r);
    case Back(d) => AllCut(b, b', ends, d);
  }

  /** After nulterminate every word of the command is exactly its token. */
  lemma Nulterminated(b: string, b': string, c: Cmd<Span>)
    requires AllPlaced(b, c) && Cut(b, b', Ends(c))
    ensures Strings(b', c) == Read(b, c)
  {
    forall e | e in Ends(c)
      ensures e < |b| && !WordChar(b[e])
    {
      EndsOutside(b, c, e);
    }
    AllCut(b, b', Ends(c), c);
  }
}
