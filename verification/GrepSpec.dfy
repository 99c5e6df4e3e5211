/**
 What grep.c's patterns mean and which lines grep is to print.

 A pattern denotes a set of strings: `c` matches itself, `.` any character, `c*` any number
 of matches of `c`, `$` at the end of the pattern the end of the text, and a leading `^` the
 start.  `*` is taken literally where nothing precedes it.
 */
module GrepSpec {
  import opened Common

  // ---- patterns ----

  datatype Piece = One(c: char) | Many(c: char) | End

  /** The pieces of a pattern without its leading `^`. */
  function Pieces(re: string): (ps: seq<Piece>)
    ensures |ps| <= |re|
  {
    if re == "" then []
    else if |re| > 1 && re[1] == '*' then [Many(re[0])] + Pieces(re[2..])
    else if re == "$" then [End]
    else [One(re[0])] + Pieces(re[1..])
  }

  predicate Fits(c: char, x: char) {
    c == '.' || c == x
  }

  predicate AllFit(c: char, w: string) {
    forall i :: 0 <= i < |w| ==> Fits(c, w[i])
  }

  /** u is in the language of the pieces; an End adds no characters. */
  ghost predicate Denotes(ps: seq<Piece>, u: string) {
    if ps == [] then u == ""
    else match ps[0]
      case One(c) => u != "" && Fits(c, u[0]) && Denotes(ps[1..], u[1..])
      case Many(c) => exists j :: 0 <= j <= |u| && AllFit(c, u[..j]) && Denotes(ps[1..], u[j..])
      case End => Denotes(ps[1..], u)
  }

  predicate Anchored(ps: seq<Piece>) {
    exists i :: 0 <= i < |ps| && ps[i] == End
  }

  /** The first k characters of the text are a match. */
  ghost predicate MatchesTo(ps: seq<Piece>, text: string, k: nat)
    requires k <= |text|
  {
    Denotes(ps, text[..k]) && (Anchored(ps) ==> k == |text|)
  }

  /** Some string of the language starts the text; all of it is the text if the pattern ends
      with `$`. */
  ghost predicate StartsWith(ps: seq<Piece>, text: string) {
    exists k :: 0 <= k <= |text| && MatchesTo(ps, text, k)
  }

  /** The pattern matches somewhere in the text, or at its start after `^`. */
  ghost predicate Accepts(re: string, text: string) {
    if re != "" && re[0] == '^' then StartsWith(Pieces(re[1..]), text)
    else exists i :: 0 <= i <= |text| && StartsWith(Pieces(re), text[i..])
  }

  // ---- taking the first piece off ----

  lemma NoPieces(text: string)
    ensures StartsWith([], text)
  {
    assert MatchesTo([], text, 0);
  }

  lemma EndPiece(text: string)
    ensures StartsWith([End], text) <==> text == ""
  {
    var ps := [End];
    assert ps[0] == End;
    assert forall k :: 0 <= k <= |text| && MatchesTo(ps, text, k) ==> k == |text|;
    if text == "" {
      assert Denotes(ps, text[..0]);
      assert MatchesTo(ps, text, 0);
    } else {
      assert Denotes(ps, text) ==> Denotes(ps[1..], text);
      assert text[..|text|] == text;
    }
  }

  lemma AnchoredRest(p: Piece, ps: seq<Piece>)
    requires p != End
    ensures Anchored([p] + ps) <==> Anchored(ps)
  {
    var qs := [p] + ps;
    if i :| 0 <= i < |ps| && ps[i] == End { assert qs[i+1] == End; }
    if i :| 0 <= i < |qs| && qs[i] == End { assert ps[i-1] == End; }
  }

  lemma OnePiece(c: char, ps: seq<Piece>, text: string)
    ensures StartsWith([One(c)] + ps, text) <==> text != "" && Fits(c, text[0]) && StartsWith(ps, text[1..])
  {
    var qs := [One(c)] + ps;
    assert qs[1..] == ps;
    AnchoredRest(One(c), ps);
    if k :| 0 <= k <= |text| && MatchesTo(qs, text, k) {
      assert text[..k][1..] == text[1..][..k-1];
      assert MatchesTo(ps, text[1..], k - 1);
    }
    if text != "" && Fits(c, text[0]) && StartsWith(ps, text[1..]) {
      var k :| 0 <= k <= |text[1..]| && MatchesTo(ps, text[1..], k);
      assert text[..k+1][1..] == text[1..][..k];
      assert MatchesTo(qs, text, k + 1);
    }
  }

  ghost predicate StarTo(c: char, ps: seq<Piece>, text: string, j: nat)
    requires j <= |text|
  {
    AllFit(c, text[..j]) && StartsWith(ps, text[j..])
  }

  lemma ManyPiece(c: char, ps: seq<Piece>, text: string)
    ensures StartsWith([Many(c)] + ps, text) <==> exists j :: 0 <= j <= |text| && StarTo(c, ps, text, j)
  {
    var qs := [Many(c)] + ps;
    assert qs[1..] == ps;
    AnchoredRest(Many(c), ps);
    if k :| 0 <= k <= |text| && MatchesTo(qs, text, k) {
      var u := text[..k];
      var j :| 0 <= j <= |u| && AllFit(c, u[..j]) && Denotes(ps, u[j..]);
      assert u[..j] == text[..j] && u[j..] == text[j..][..k-j];
      assert MatchesTo(ps, text[j..], k - j);
      assert StarTo(c, ps, text, j);
    }
    if j :| 0 <= j <= |text| && StarTo(c, ps, text, j) {
      var k :| 0 <= k <= |text[j..]| && MatchesTo(ps, text[j..], k);
      var u := text[..j+k];
      assert u[..j] == text[..j] && u[j..] == text[j..][..k];
      assert Denotes(qs, u);
      assert MatchesTo(qs, text, j + k);
    }
  }

  // ---- lines ----

  predicate Plain(c: char) {
    c != '\n' && c != NUL
  }

  /** The place of the newline that strchr finds, or the length: a NUL ends the search. */
  function Newline(s: string): (q: nat)
    ensures q <= |s| && (q < |s| ==> s[q] == '\n' && forall i :: 0 <= i < q ==> Plain(s[i]))
  {
    if s == "" || s[0] == '\n' then 0 else if s[0] == NUL then |s| else 1 + Newline(s[1..])
  }

  lemma {:induction false} NewlineIs(s: string, q: nat)
    requires q <= |s| && forall i :: 0 <= i < q ==> Plain(s[i])
    ensures q < |s| && s[q] == '\n' ==> Newline(s) == q
    ensures q == |s| || s[q] == NUL ==> Newline(s) == |s|
  {
    if q > 0 { NewlineIs(s[1..], q - 1); }
  }

  /** Without a NUL, no newline found means that there is none. */
  lemma {:induction false} AllPlain(s: string)
    requires NulFree(s) && Newline(s) == |s|
    ensures forall i :: 0 <= i < |s| ==> Plain(s[i])
  {
    if s != "" { AllPlain(s[1..]); }
  }

  /** The newline-terminated lines that match, in order. */
  ghost function Selected(re: string, s: string): (r: string)
    decreases |s|
  {
    var q := Newline(s);
    if q == |s| then "" else (if Accepts(re, s[..q]) then s[..q+1] else "") + Selected(re, s[q+1..])
  }

  /** What follows the last newline. */
  function Tail(s: string): (t: string)
    ensures |t| <= |s| && Newline(t) == |t| && (Newline(s) < |s| ==> |t| < |s|)
    decreases |s|
  {
    if Newline(s) == |s| then s else Tail(s[Newline(s)+1..])
  }

  lemma NewlineAppend(s: string, t: string)
    ensures Newline(s) < |s| ==> Newline(s + t) == Newline(s)
  {
    if Newline(s) < |s| { NewlineIs(s + t, Newline(s)); }
  }

  lemma NoLines(re: string, s: string)
    requires Newline(s) == |s|
    ensures Selected(re, s) == "" && Tail(s) == s
  {
  }

  /** What grep prints for a line, newline included. */
  ghost function Line(re: string, l: string): (r: string)
    requires l != ""
  {
    if Accepts(re, l[..|l|-1]) then l else ""
  }

  lemma FirstLine(re: string, s: string)
    requires Newline(s) < |s|
    ensures Selected(re, s) == Line(re, s[..Newline(s)+1]) + Selected(re, s[Newline(s)+1..])
    ensures Tail(s) == Tail(s[Newline(s)+1..])
  {
    hide Accepts;
    var q := Newline(s);
    var l := s[..q+1];
    assert l[..q] == s[..q] && |l| == q + 1;
  }

  lemma LineAppend(s: string, t: string)
    requires Newline(s) < |s|
    ensures Newline(s + t) == Newline(s)
    ensures (s + t)[..Newline(s)+1] == s[..Newline(s)+1] && (s + t)[Newline(s)+1..] == s[Newline(s)+1..] + t
  {
    NewlineAppend(s, t);
  }

  /** The lines of s, and then those of what follows. */
  lemma {:induction false} SelectedAppend(re: string, s: string, t: string)
    ensures Selected(re, s + t) == Selected(re, s) + Selected(re, Tail(s) + t)
    ensures Tail(s + t) == Tail(Tail(s) + t)
    decreases |s|
  {
    hide Selected, Tail, Line;
    var q := Newline(s);
    if q < |s| {
      LineAppend(s, t);
      FirstLine(re, s);
      FirstLine(re, s + t);
      SelectedAppend(re, s[q+1..], t);
    } else {
      NoLines(re, s);
    }
  }

  // ---- reading ----

  const ROOM: nat := 1023       // sizeof(buf) - 1

  type Pos = n: nat | n > 0 witness 1

  /** What read returns when asked for `count` bytes: as many as there are, or fewer when the
      next limit says so. */
  function ReadSize(count: nat, left: nat, limits: seq<Pos>): (n: nat)
    ensures n <= count && n <= left && (count > 0 && left > 0 ==> n > 0)
  {
    var most := if limits == [] then count else limits[0];
    if most <= count && most <= left then most else if count <= left then count else left
  }

  function Rest(limits: seq<Pos>): (r: seq<Pos>) {
    if limits == [] then [] else limits[1..]
  }

  /** What grep keeps in its buffer: nothing if it found no newline. */
  function Kept(data: string): (k: string)
    ensures |data| <= ROOM ==> |k| < ROOM
  {
    if Newline(data) == |data| then "" else Tail(data)
  }

  /** What grep prints, with `kept` in the buffer and `input` still to read. */
  ghost function Printed(re: string, input: string, kept: string, limits: seq<Pos>): (r: string)
    requires |kept| < ROOM
    decreases |input|
  {
    var n := ReadSize(ROOM - |kept|, |input|, limits);
    if n == 0 then ""
    else
      var data := kept + input[..n];
      Selected(re, data) + Printed(re, input[n..], Kept(data), Rest(limits))
  }

  /** No round empties the buffer of a line whose newline is still to come. */
  predicate Lossless(input: string, kept: string, limits: seq<Pos>)
    requires |kept| < ROOM
    decreases |input|
  {
    var n := ReadSize(ROOM - |kept|, |input|, limits);
    n == 0 ||
      (var data := kept + input[..n];
       (Newline(data) < |data| || Newline(input[n..]) == |input[n..]|)
           && Lossless(input[n..], Kept(data), Rest(limits)))
  }

  lemma {:induction false} NoNewlineAppend(s: string, t: string)
    requires Newline(s) == |s| && Newline(t) == |t|
    ensures Newline(s + t) == |s + t|
  {
    if s == "" {
      assert s + t == t;
    } else if s[0] != NUL {
      assert (s + t)[1..] == s[1..] + t;
      NoNewlineAppend(s[1..], t);
    }
  }

  lemma NoNewlineParts(s: string, n: nat)
    requires NulFree(s) && Newline(s) == |s| && n <= |s|
    ensures Newline(s[n..]) == |s[n..]| && Newline(s[..n]) == n && NulFree(s[n..])
  {
    AllPlain(s);
    NewlineIs(s[n..], |s| - n);
    NewlineIs(s[..n], n);
  }

  /** Without a newline to come, nothing more is printed. */
  lemma {:induction false} NothingLeft(re: string, input: string, kept: string, limits: seq<Pos>)
    requires |kept| < ROOM && Newline(kept) == |kept| && Newline(input) == |input| && NulFree(input)
    ensures Printed(re, input, kept, limits) == "" && Lossless(input, kept, limits)
    decreases |input|
  {
    var n := ReadSize(ROOM - |kept|, |input|, limits);
    if n > 0 {
      NoNewlineParts(input, n);
      NoNewlineAppend(kept, input[..n]);
      NothingLeft(re, input[n..], "", Rest(limits));
    }
  }

  /** Without loss, grep prints exactly the matching lines, in order. */
  lemma {:induction false} PrintsSelected(re: string, input: string, kept: string, limits: seq<Pos>)
    requires |kept| < ROOM && Newline(kept) == |kept| && Lossless(input, kept, limits) && NulFree(input)
    ensures Printed(re, input, kept, limits) == Selected(re, kept + input)
    decreases |input|
  {
    hide Accepts, Tail, Selected;
    var n := ReadSize(ROOM - |kept|, |input|, limits);
    if n == 0 {
      assert input == "" && kept + input == kept;
      NoLines(re, kept);
    } else {
      var data, rest := kept + input[..n], input[n..];
      assert kept + input == data + rest;
      SelectedAppend(re, data, rest);
      if Newline(data) < |data| {
        PrintsSelected(re, rest, Tail(data), Rest(limits));
      } else {
        NothingLeft(re, rest, "", Rest(limits));
        NoNewlineAppend(data, rest);
        NoLines(re, data);
        NoLines(re, data + rest);
      }
    }
  }

  // ---- the empty pattern counts what is printed ----

  lemma EmptyAccepts(text: string)
    ensures Accepts("", text)
  {
    NoPieces(text);
    assert text[0..] == text;
    assert StartsWith(Pieces(""), text[0..]);
  }

  lemma {:induction false} AllLines(s: string)
    ensures |Selected("", s)| + |Tail(s)| == |s|
    decreases |s|
  {
    hide Selected, Tail;
    var q := Newline(s);
    if q < |s| {
      EmptyAccepts(s[..q+1][..q]);
      FirstLine("", s);
      AllLines(s[q+1..]);
    } else {
      NoLines("", s);
    }
  }

  lemma {:induction false} TailDrops(s: string, t: string)
    requires Newline(t) < |t| && NulFree(s)
    ensures Tail(s + t) == Tail(t)
    decreases |s|
  {
    hide Selected, Tail, Line;
    var q := Newline(s);
    if q < |s| {
      LineAppend(s, t);
      FirstLine("", s + t);
      TailDrops(s[q+1..], t);
    } else {
      AllPlain(s);
      NewlineIs(s + t, |s| + Newline(t));
      assert (s + t)[|s| + Newline(t) + 1..] == t[Newline(t)+1..];
      FirstLine("", s + t);
      FirstLine("", t);
    }
  }

  lemma {:induction false} KeptNulFree(s: string)
    requires NulFree(s)
    ensures NulFree(Tail(s)) && NulFree(Kept(s))
    decreases |s|
  {
    if Newline(s) < |s| { KeptNulFree(s[Newline(s)+1..]); }
  }

  /** With the empty pattern, grep prints at most the terminated lines, and strictly less if a
      round loses something. */
  lemma {:induction false} PrintsLess(input: string, kept: string, limits: seq<Pos>)
    requires |kept| < ROOM && Newline(kept) == |kept| && NulFree(kept) && NulFree(input)
    ensures |Printed("", input, kept, limits)| <= |Selected("", kept + input)|
    ensures !Lossless(input, kept, limits) ==> |Printed("", input, kept, limits)| < |Selected("", kept + input)|
    decreases |input|
  {
    var n := ReadSize(ROOM - |kept|, |input|, limits);
    if n > 0 {
      var data, rest := kept + input[..n], input[n..];
      assert kept + input == data + rest;
      SelectedAppend("", data, rest);
      KeptNulFree(data);
      PrintsLess(rest, Kept(data), Rest(limits));
      if Newline(data) == |data| {
        assert "" + rest == rest;
        AllLines(rest);
        AllLines(data + rest);
        if Newline(rest) < |rest| {
          TailDrops(data, rest);
        } else {
          NothingLeft("", rest, "", Rest(limits));
        }
      }
    }
  }

  /** The exact condition: grep prints the matching lines, for every pattern, if and only if
      no round loses part of a line. */
  lemma PrintsIff(input: string, limits: seq<Pos>)
    requires NulFree(input)
    ensures (forall re :: Printed(re, input, "", limits) == Selected(re, input)) <==> Lossless(input, "", limits)
  {
    assert "" + input == input;
    if Lossless(input, "", limits) {
      forall re
        ensures Printed(re, input, "", limits) == Selected(re, input)
      {
        PrintsSelected(re, input, "", limits);
      }
    } else {
      PrintsLess(input, "", limits);
      assert Printed("", input, "", limits) != Selected("", input);
    }
  }

  // ---- full reads of short lines lose nothing ----

  /** Every newline-terminated line of s has at most `room` bytes with its newline. */
  predicate ShortLines(s: string, room: nat)
    decreases |s|
  {
    Newline(s) == |s| || (Newline(s) < room && ShortLines(s[Newline(s)+1..], room))
  }

  lemma ShortFirst(s: string, room: nat)
    requires Newline(s) < |s|
    ensures ShortLines(s, room) <==> Newline(s) < room && ShortLines(s[Newline(s)+1..], room)
  {
  }

  lemma {:induction false} ShortTail(s: string, t: string, room: nat)
    requires ShortLines(s + t, room)
    ensures ShortLines(Tail(s) + t, room)
    decreases |s|
  {
    hide ShortLines, Tail, Newline;
    if Newline(s) < |s| {
      LineAppend(s, t);
      ShortFirst(s + t, room);
      FirstLine("", s);
      ShortTail(s[Newline(s)+1..], t, room);
    } else {
      NoLines("", s);
    }
  }

  lemma {:induction false} FullReadsLossless(input: string, kept: string)
    requires |kept| < ROOM && Newline(kept) == |kept| && ShortLines(kept + input, ROOM) && NulFree(kept)
    requires NulFree(input)
    ensures Lossless(input, kept, [])
    decreases |input|
  {
    var n := ReadSize(ROOM - |kept|, |input|, []);
    if n > 0 {
      var data, rest := kept + input[..n], input[n..];
      assert kept + input == data + rest;
      if Newline(data) < |data| {
        ShortTail(data, rest, ROOM);
        KeptNulFree(data);
        FullReadsLossless(rest, Tail(data));
      } else {
        AllPlain(data);
        if Newline(rest) < |rest| { NewlineIs(data + rest, |data| + Newline(rest)); }
        NothingLeft("", rest, "", []);
      }
    }
  }

  /** grep on full reads of short lines. */
  lemma FullReads(re: string, input: string)
    requires ShortLines(input, ROOM) && NulFree(input)
    ensures Printed(re, input, "", []) == Selected(re, input)
  {
    assert "" + input == input;
    FullReadsLossless(input, "");
    PrintsSelected(re, input, "", []);
  }

  /** A short read can lose the start of a line. */
  lemma ShortReadLoses()
    ensures ShortLines("ab\n", ROOM) && !Lossless("ab\n", "", [1])
  {
    assert Newline("ab\n") == 2 by { NewlineIs("ab\n", 2); }
    assert "" + "ab\n"[..1] == "a" && Newline("a") == 1 by { NewlineIs("a", 1); }
    assert "ab\n"[1..] == "b\n" && Newline("b\n") == 1 by { NewlineIs("b\n", 1); }
    assert ReadSize(ROOM, 3, [1]) == 1;
    assert "ab\n"[3..] == "";
  }
}
