/**
 grep.c: the matcher, and the loop that reads, prints matching lines and keeps the rest.

 A C string is a sequence without its terminating NUL; the line buffer has the NUL in it.
 */
module Grep {
  import opened Common
  import opened GrepSpec

  const SIZE: nat := 1024     // sizeof(buf)

  // ---- the matcher ----

  method Match(re: string, text: string) returns (r: bool)
    ensures r <==> Accepts(re, text)
  {
    if re != "" && re[0] == '^' {
      r := Matchhere(re[1..], text);
      return;
    }
    var t := 0;
    while true
      invariant 0 <= t <= |text|
      invariant forall i :: 0 <= i < t ==> !StartsWith(Pieces(re), text[i..])
      decreases |text| - t
    {
      r := Matchhere(re, text[t..]);
      if r { return; }
      if t == |text| { break; }
      t := t + 1;
    }
    r := false;
  }

  method Matchhere(re: string, text: string) returns (r: bool)
    ensures r <==> StartsWith(Pieces(re), text)
    decreases |re|, 0
  {
    if re == "" { NoPieces(text); return true; }
    if |re| > 1 && re[1] == '*' {
      ManyPiece(re[0], Pieces(re[2..]), text);
      assert Pieces(re) == [Many(re[0])] + Pieces(re[2..]);
      r := Matchstar(re[0], re[2..], text);
      return;
    }
    if re[0] == '$' && |re| == 1 {
      assert re == "$";
      EndPiece(text);
      return text == "";
    }
    OnePiece(re[0], Pieces(re[1..]), text);
    if text != "" && (re[0] == '.' || re[0] == text[0]) {
      r := Matchhere(re[1..], text[1..]);
      return;
    }
    r := false;
  }

  method Matchstar(c: char, re: string, text: string) returns (r: bool)
    ensures r <==> exists j :: 0 <= j <= |text| && StarTo(c, Pieces(re), text, j)
    decreases |re|, 1
  {
    var t := 0;
    while true
      invariant 0 <= t <= |text| && AllFit(c, text[..t])
      invariant forall j :: 0 <= j < t ==> !StarTo(c, Pieces(re), text, j)
      decreases |text| - t
    {
      r := Matchhere(re, text[t..]);
      assert r <==> StarTo(c, Pieces(re), text, t);
      if r { return; }
      if t == |text| || !(text[t] == c || c == '.') {
        StarStops(c, Pieces(re), text, t);
        break;
      }
      t := t + 1;
    }
    r := false;
  }

  lemma StarStops(c: char, ps: seq<Piece>, text: string, t: nat)
    requires t <= |text| && (t < |text| ==> !Fits(c, text[t]))
    ensures forall j :: t < j <= |text| ==> !StarTo(c, ps, text, j)
  {
    forall j | t < j <= |text|
      ensures !StarTo(c, ps, text, j)
    {
      assert text[..j][t] == text[t];
    }
  }

  // ---- the line buffer ----

  /** strchr(buf + p, '\n') in a buffer whose text ends at m: SIZE when there is none. */
  method Strchr(buf: array<char>, p: nat, m: nat) returns (q: nat)
    requires p <= m < buf.Length == SIZE && buf[m] == NUL
    ensures Newline(buf[p..m]) == m - p ==> q == SIZE
    ensures Newline(buf[p..m]) < m - p ==> q == p + Newline(buf[p..m]) && buf[q] == '\n'
  {
    q := p;
    ghost var s := buf[p..m];
    while buf[q] != '\n' && buf[q] != NUL
      invariant p <= q <= m && s == buf[p..m] && forall i :: 0 <= i < q - p ==> Plain(s[i])
      invariant q < m ==> s[q-p] == buf[q]
      decreases m - q
    {
      q := q + 1;
    }
    NewlineIs(s, q - p);
    if buf[q] == NUL { q := SIZE; }
  }

  /** read(fd, buf + m, count). */
  method Read(buf: array<char>, m: nat, count: nat, input: string, pos: nat, limits: seq<Pos>) returns (n: nat)
    requires m + count <= buf.Length && pos <= |input|
    modifies buf
    ensures n == ReadSize(count, |input| - pos, limits)
    ensures buf[..m] == old(buf[..m]) && buf[m..m+n] == input[pos..pos+n]
  {
    n := ReadSize(count, |input| - pos, limits);
    var i := 0;
    while i < n
      invariant 0 <= i <= n && buf[..m] == old(buf[..m]) && buf[m..m+i] == input[pos..pos+i]
    {
      buf[m+i] := input[pos+i];
      i := i + 1;
    }
  }

  /** One line at p, whose newline is at q: it is made a C string and, if it matches, written
        out with its newline back in place. */
  method PrintLine(re: string, buf: array<char>, p: nat, q: nat, m: nat, ghost rest: string) returns (out: string)
    requires p <= q < m < buf.Length && buf[q] == '\n' && buf[p..m] == rest
    modifies buf
    ensures out == Line(re, rest[..q-p+1]) && buf[q+1..m] == rest[q-p+1..] && buf[m] == old(buf[m])
  {
    hide Accepts;
    ghost var l := rest[..q-p+1];
    assert l == buf[p..q+1] && l[..|l|-1] == buf[p..q];
    buf[q] := NUL;
    var ok := Match(re, buf[p..q]);
    out := "";
    if ok {
      buf[q] := '\n';
      out := buf[p..q+1];
    }
  }

  /** The inner loop: prints the matching lines of the m bytes in the buffer, and returns the
      place after the last newline. */
  method PrintLines(re: string, buf: array<char>, m: nat) returns (p: nat, out: string)
    requires 0 < m < buf.Length == SIZE && buf[m] == NUL
    modifies buf
    ensures p <= m && out == Selected(re, old(buf[..m])) && buf[p..m] == Tail(old(buf[..m]))
    ensures p == 0 <==> Newline(old(buf[..m])) == m
  {
    hide Selected, Tail, Accepts, Line, Newline;
    ghost var data, rest := buf[..m], buf[..m];
    p, out := 0, "";
    var q := Strchr(buf, p, m);
    while q < SIZE
      invariant 0 <= p <= m && buf[m] == NUL && buf[p..m] == rest
      invariant out + Selected(re, rest) == Selected(re, data) && Tail(rest) == Tail(data)
      invariant p == 0 ==> rest == data
      invariant p > 0 ==> Newline(data) < m
      invariant q == if Newline(rest) == m - p then SIZE else p + Newline(rest)
      invariant q < SIZE ==> p <= q < m && buf[q] == '\n'
      decreases m - p
    {
      FirstLine(re, rest);
      var line := PrintLine(re, buf, p, q, m, rest);
      out := out + line;
      p, rest := q + 1, rest[q-p+1..];
      q := Strchr(buf, p, m);
    }
    NoLines(re, rest);
  }

  /** One round of grep's loop, on the m bytes now in the buffer: prints the matching lines and
      moves what follows the last newline to the front. */
  method Round(re: string, buf: array<char>, m: nat) returns (m': nat, out: string)
    requires 0 < m < buf.Length == SIZE
    modifies buf
    ensures m' < ROOM && out == Selected(re, old(buf[..m])) && buf[..m'] == Kept(old(buf[..m]))
  {
    hide Selected, Tail;
    ghost var data := buf[..m];
    buf[m] := NUL;
    assert buf[..m] == data;
    var p;
    p, out := PrintLines(re, buf, m);
    m' := if p == 0 then 0 else m;
    if m' > 0 {
      m' := m' - p;
      Memmove(buf, p, m');
    }
    assert buf[..m'] == Kept(data);
  }

  /** grep on a file with the given contents; `limits` are the sizes of the short reads, after
      which reads are full. */
  method Grep(re: string, input: string, limits: seq<Pos>) returns (out: string)
    ensures out == Printed(re, input, "", limits)
  {
    hide Printed, Selected, Tail, Kept, ReadSize, Newline, Rest;
    var buf := new char[SIZE];
    var m, pos, rest := 0, 0, limits;
    out := "";
    WholeInput(input);
    ghost var left := input;
    while true
      invariant 0 <= m < ROOM && pos <= |input| && left == input[pos..]
      invariant out + Printed(re, left, buf[..m], rest) == Printed(re, input, "", limits)
      decreases |input| - pos
    {
      NextRound(re, out, left, buf[..m], rest);
      ghost var data := buf[..m] + left[..ReadSize(ROOM - m, |left|, rest)];
      Split(input, pos, |data| - m);
      var n := ReadMore(buf, m, input, pos, rest, data);
      if n == 0 { break; }
      var lines;
      m, lines := Round(re, buf, m + n);
      out := out + lines;
      pos, left, rest := pos + n, left[n..], Rest(rest);
    }
  }

  /** The read of grep's loop: the buffer then starts with what was kept and what was read. */
  method ReadMore(buf: array<char>, m: nat, input: string, pos: nat, limits: seq<Pos>, ghost data: string)
    returns (n: nat)
    requires m < ROOM && buf.Length == SIZE && pos <= |input|
    requires data == buf[..m] + input[pos..][..ReadSize(ROOM - m, |input| - pos, limits)]
    modifies buf
    ensures n == ReadSize(ROOM - m, |input| - pos, limits) && buf[..m+n] == data
  {
    hide ReadSize;
    n := Read(buf, m, SIZE - m - 1, input, pos, limits);
    Split(input, pos, n);
    assert buf[..m+n] == buf[..m] + buf[m..m+n];
  }

  lemma Split(input: string, pos: nat, n: nat)
    requires pos + n <= |input|
    ensures input[pos..][n..] == input[pos+n..] && input[pos..][..n] == input[pos..pos+n]
  {
  }

  lemma WholeInput(input: string)
    ensures input[0..] == input && "" + input == input && Newline("") == 0
  {
  }

  lemma NextRound(re: string, out: string, input: string, kept: string, limits: seq<Pos>)
    requires |kept| < ROOM
    ensures var n := ReadSize(ROOM - |kept|, |input|, limits);
            out + Printed(re, input, kept, limits)
            == if n == 0 then out
               else out + Selected(re, kept + input[..n])
                    + Printed(re, input[n..], Kept(kept + input[..n]), Rest(limits))
  {
    hide Selected, Kept, ReadSize, Newline, Rest, Tail, Accepts;
  }

  /** memmove(buf, buf + p, n). */
  method Memmove(buf: array<char>, p: nat, n: nat)
    requires p + n <= buf.Length
    modifies buf
    ensures buf[..n] == old(buf[p..p+n])
  {
    var i := 0;
    while i < n
      invariant 0 <= i <= n && buf[..i] == old(buf[p..p+i])
      invariant forall j :: p + i <= j < p + n ==> buf[j] == old(buf[j])
    {
      buf[i] := buf[p+i];
      i := i + 1;
    }
  }
}
