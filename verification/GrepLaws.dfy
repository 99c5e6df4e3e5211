/**
 What grep's patterns come to in common cases: words, anchored words, `.` and `.*`, and the
 empty pattern, which prints every whole line.
 */
module GrepLaws {
  import opened Common
  import opened GrepSpec

  /** A pattern without operators. */
  predicate Literal(re: string) {
    forall i :: 0 <= i < |re| ==> re[i] != '.' && re[i] != '*' && re[i] != '$' && re[i] != '^'
  }

  /** A `$` behind it or nothing. */
  predicate Ending(end: string) {
    end == "" || end == "$"
  }

  lemma FirstPiece(re: string, end: string)
    requires Literal(re) && Ending(end)
    ensures re != "" ==> Pieces(re + end) == [One(re[0])] + Pieces(re[1..] + end)
    ensures re == "" ==> Pieces(re + end) == if end == "" then [] else [End]
  {
    if re != "" {
      assert (re + end)[1..] == re[1..] + end;
    } else {
      assert re + end == end;
      assert end == "$" ==> end[1..] == "" && Pieces("") == [];
    }
  }

  /** Its language is the one word, with or without a `$` behind it. */
  lemma {:induction false} LiteralPieces(re: string, end: string, u: string)
    requires Literal(re) && Ending(end)
    ensures Denotes(Pieces(re + end), u) <==> u == re
    ensures Anchored(Pieces(re + end)) <==> end == "$"
    decreases |re|
  {
    FirstPiece(re, end);
    hide Pieces;
    var ps := Pieces(re + end);
    if re == "" {
      assert end == "$" ==> ps[0] == End && ps[1..] == [];
    } else {
      var tail := Pieces(re[1..] + end);
      assert ps[1..] == tail;
      AnchoredRest(One(re[0]), tail);
      hide Anchored;
      LiteralPieces(re[1..], end, if u == "" then "" else u[1..]);
      if u != "" { assert u == [u[0]] + u[1..] && re == [re[0]] + re[1..]; }
    }
  }

  lemma LiteralStarts(re: string, end: string, text: string)
    requires Literal(re) && Ending(end)
    ensures StartsWith(Pieces(re + end), text) <==> if end == "" then re <= text else re == text
  {
    var ps := Pieces(re + end);
    forall k | 0 <= k <= |text|
      ensures MatchesTo(ps, text, k) <==> text[..k] == re && (end == "$" ==> k == |text|)
    {
      LiteralPieces(re, end, text[..k]);
    }
    if |re| <= |text| { assert MatchesTo(ps, text, |re|) || text[..|re|] != re || end == "$"; }
    assert text[..|text|] == text;
  }

  lemma NoCaret(re: string, end: string)
    requires Literal(re) && Ending(end)
    ensures re + end != "" ==> (re + end)[0] != '^'
    ensures ("^" + re + end)[0] == '^' && ("^" + re + end)[1..] == re + end
  {
  }

  /** A word matches the lines that contain it. */
  lemma WordOccurs(re: string, text: string)
    requires Literal(re)
    ensures Accepts(re, text) <==> exists i :: 0 <= i <= |text| && re <= text[i..]
  {
    hide StartsWith, Pieces;
    assert re + "" == re;
    NoCaret(re, "");
    forall i | 0 <= i <= |text|
      ensures StartsWith(Pieces(re), text[i..]) <==> re <= text[i..]
    {
      LiteralStarts(re, "", text[i..]);
    }
  }

  /** With `^` those that begin with it, with `$` those that end with it, with both the word. */
  lemma WordAnchored(re: string, text: string)
    requires Literal(re)
    ensures Accepts("^" + re, text) <==> re <= text
    ensures Accepts("^" + re + "$", text) <==> text == re
    ensures Accepts(re + "$", text) <==> |re| <= |text| && text[|text| - |re|..] == re
  {
    hide StartsWith, Pieces;
    assert re + "" == re && "^" + re + "" == "^" + re;
    NoCaret(re, "");
    NoCaret(re, "$");
    LiteralStarts(re, "", text);
    LiteralStarts(re, "$", text);
    forall i | 0 <= i <= |text|
      ensures StartsWith(Pieces(re + "$"), text[i..]) <==> text[i..] == re
    {
      LiteralStarts(re, "$", text[i..]);
    }
  }

  /** `.` is any one character, and any line has a match of `.*` and of nothing. */
  lemma DotMeans(text: string)
    ensures Accepts(".", text) <==> text != ""
    ensures Accepts(".*", text) && Accepts("", text)
  {
    assert text[0..] == text;
    assert Pieces("") == [] && Pieces(".") == [One('.')] + [] && Pieces(".*") == [Many('.')] + [];
    NoPieces(text);
    OnePiece('.', [], text);
    if text != "" { NoPieces(text[1..]); }
    assert StarTo('.', [], text, 0);
    ManyPiece('.', [], text);
    forall i | 0 <= i <= |text|
      ensures StartsWith(Pieces("."), text[i..]) ==> text != ""
    {
      OnePiece('.', [], text[i..]);
    }
  }

  /** With the empty pattern every line is printed as it is, and the rest is kept. */
  lemma {:induction false} EverythingPrinted(s: string)
    ensures Selected("", s) + Tail(s) == s
    decreases |s|
  {
    hide Selected, Tail, Accepts;
    if Newline(s) < |s| {
      var q := Newline(s);
      var l, more := s[..q+1], s[q+1..];
      FirstLine("", s);
      DotMeans(l[..q]);
      EverythingPrinted(more);
      assert l + (Selected("", more) + Tail(more)) == l + Selected("", more) + Tail(more);
      assert s == l + more;
    } else {
      NoLines("", s);
    }
  }
}
