/**
 Writing a command in shell syntax, and that the shell reads it back unchanged.
 */
module ShPrint {
  import opened Common
  import opened ShSpec
  import opened ShGrammar

  // ---- commands as tokens ----

  /** How loosely a command binds: simple commands, pipelines, background, lists. */
  function Level(c: Cmd<string>): (r: nat) {
    match c
    case Exec(_) => 0
    case Redir(_, _, _, _) => 0
    case Pipe(_, _) => 1
    case Back(_) => 2
    case List(_, _) => 3
  }

  function Words(ws: seq<string>): (ts: seq<Token>)
    ensures |ts| == |ws| && forall i :: 0 <= i < |ws| ==> ts[i] == Word(ws[i])
  {
    seq(|ws|, i requires 0 <= i < |ws| => Word(ws[i]))
  }

  function RedirSym(fd: int): (r: Token) {
    if fd == 0 then Sym('<') else Sym('>')
  }

  /** A command with the parentheses its parts need. */
  function Body(c: Cmd<string>): (r: seq<Token>)
    decreases c, 0
  {
    match c
    case Exec(argv) => Words(argv)
    case Redir(b, f, _, fd) => Fit(b, 0) + [RedirSym(fd), Word(f)]
    case Pipe(l, r) => Fit(l, 0) + [Sym('|')] + Fit(r, 1)
    case Back(b) => Fit(b, 2) + [Sym('&')]
    case List(l, r) => Fit(l, 2) + [Sym(';')] + Fit(r, 3)
  }

  /** A command where at most the given level may stand. */
  function Fit(c: Cmd<string>, level: nat): (r: seq<Token>)
    decreases c, 1
  {
    if Level(c) <= level then Body(c) else [Sym('(')] + Body(c) + [Sym(')')]
  }

  // ---- what is printed spells the command ----

  lemma {:induction false} WordItems(argv: seq<string>) returns (items: seq<Item>)
    ensures ItemsOk(items) && Spelt(items) == Words(argv) && WordsOf(items) == argv
    ensures forall c :: Wrapped(c, items) == c
  {
    if argv == [] {
      items := [];
    } else {
      var more := WordItems(argv[1..]);
      items := [Arg(argv[0])] + more;
      assert items[1..] == more && Words(argv) == [Word(argv[0])] + Words(argv[1..]);
    }
  }

  lemma WordsSpell(argv: seq<string>)
    requires |argv| < MAXARGS
    ensures IsSimple(Exec(argv), Words(argv))
  {
    var items := WordItems(argv);
    assert SimpleAs(Exec(argv), Words(argv), items);
  }

  /** One more redirection. */
  lemma RedirItem(items: seq<Item>, x: Item)
    requires ItemsOk(items) && ItemOk(x) && x.Re?
    ensures ItemsOk(items + [x]) && Spelt(items + [x]) == Spelt(items) + SpeltOne(x)
    ensures WordsOf(items + [x]) == WordsOf(items)
    ensures forall c :: Wrapped(c, items + [x]) == Under(Wrapped(c, items), x)
  {
    OneItem(x);
    assert WordsOf(items) + [] == WordsOf(items);
    forall c
      ensures Wrapped(c, items + [x]) == Under(Wrapped(c, items), x)
    {
      WrapJoin(c, items, [x]);
    }
    SpeltJoin(items, [x]);
    WordsJoin(items, [x]);
  }

  lemma RedirSpells(b: Cmd<string>, ts: seq<Token>, x: Item)
    requires IsExec(b, ts) && ItemOk(x) && x.Re?
    ensures IsExec(Under(b, x), ts + SpeltOne(x))
  {
    hide IsLine, Spelt, WordsOf, Wrapped, SpeltOne, ItemsOk;
    if IsSimple(b, ts) {
      var items :| SimpleAs(b, ts, items);
      RedirItem(items, x);
      assert SimpleAs(Under(b, x), ts + SpeltOne(x), items + [x]);
    } else {
      var k: nat, d, items :| k < |ts| && BlockAs(b, ts, k, d, items) && IsLine(d, ts[1..k]);
      RedirItem(items, x);
      var us := ts + SpeltOne(x);
      assert us[1..k] == ts[1..k] && us[k+1..] == ts[k+1..] + SpeltOne(x);
      assert BlockAs(Under(b, x), us, k, d, items + [x]);
    }
  }

  lemma ParenSpells(c: Cmd<string>, ts: seq<Token>)
    requires IsLine(c, ts)
    ensures IsExec(c, [Sym('(')] + ts + [Sym(')')])
  {
    hide IsLine;
    var us, k := [Sym('(')] + ts + [Sym(')')], |ts| + 1;
    assert us[1..k] == ts && us[k+1..] == [];
    assert BlockAs(c, us, k, c, []);
  }

  lemma PipeSpells(l: Cmd<string>, r: Cmd<string>, a: seq<Token>, b: seq<Token>)
    requires IsExec(l, a) && IsPipe(r, b)
    ensures IsPipe(Pipe(l, r), a + [Sym('|')] + b)
  {
    hide IsExec;
    var ts := a + [Sym('|')] + b;
    assert ts[|a|] == Sym('|') && ts[..|a|] == a && ts[|a|+1..] == b;
  }

  lemma BackSpells(c: Cmd<string>, a: seq<Token>)
    requires IsSegment(c, a)
    ensures IsSegment(Back(c), a + [Sym('&')])
  {
    hide IsPipe;
    var ts := a + [Sym('&')];
    assert ts[..|ts|-1] == a;
  }

  lemma ListSpells(l: Cmd<string>, r: Cmd<string>, a: seq<Token>, b: seq<Token>)
    requires IsSegment(l, a) && IsLine(r, b)
    ensures IsLine(List(l, r), a + [Sym(';')] + b)
  {
    hide IsSegment;
    var ts := a + [Sym(';')] + b;
    assert ts[|a|] == Sym(';') && ts[..|a|] == a && ts[|a|+1..] == b;
  }

  lemma {:induction false} BodySpells(c: Cmd<string>)
    requires Proper(c)
    ensures Level(c) == 0 ==> IsExec(c, Body(c))
    ensures Level(c) == 1 ==> IsPipe(c, Body(c))
    ensures Level(c) == 2 ==> IsSegment(c, Body(c))
    ensures IsLine(c, Body(c))
    decreases c, 0
  {
    hide IsLine, IsSegment, IsPipe, IsSimple, IsBlock, Fit;
    Looser(c, Body(c));
    match c
    case Exec(argv) =>
      WordsSpell(argv);
    case Redir(b, f, _, fd) =>
      FitSpells(b, 0);
      RedirSpells(b, Fit(b, 0), Re(RedirSym(fd), f));
    case Pipe(l, r) =>
      FitSpells(l, 0);
      FitSpells(r, 1);
      PipeSpells(l, r, Fit(l, 0), Fit(r, 1));
    case Back(b) =>
      FitSpells(b, 2);
      BackSpells(b, Fit(b, 2));
    case List(l, r) =>
      FitSpells(l, 2);
      FitSpells(r, 3);
      ListSpells(l, r, Fit(l, 2), Fit(r, 3));
  }

  lemma {:induction false} FitSpells(c: Cmd<string>, level: nat)
    requires Proper(c)
    ensures level == 0 ==> IsExec(c, Fit(c, level))
    ensures level == 1 ==> IsPipe(c, Fit(c, level))
    ensures level == 2 ==> IsSegment(c, Fit(c, level))
    ensures IsLine(c, Fit(c, level))
    decreases c, 1
  {
    hide IsLine, IsSegment, IsPipe, IsExec, Body;
    BodySpells(c);
    if Level(c) > level { ParenSpells(c, Body(c)); }
    Looser(c, Fit(c, level));
  }

  // ---- commands as text ----

  function Spell(t: Token): (s: string)
    ensures TokenOk(t) ==> s != "" && forall i :: 0 <= i < |s| ==> s[i] != '\0'
  {
    match t
    case Sym(c) => [c]
    case Append => ">>"
    case Word(w) => w
  }

  function Text(ts: seq<Token>): (r: string) {
    if ts == [] then "" else Spell(ts[0]) + " " + Text(ts[1..])
  }

  /** A command in shell syntax. */
  function Render(c: Cmd<string>): (r: string) {
    Text(Body(c))
  }

  lemma {:induction false} TextNulFree(ts: seq<Token>)
    requires TokensOk(ts)
    ensures NulFree(Text(ts))
  {
    if ts != [] {
      assert TokenOk(ts[0]);
      TextNulFree(ts[1..]);
    }
  }

  /** s does not go on with the token t. */
  predicate Stops(t: Token, s: string) {
    match t
    case Sym(c) => c == '>' && s != "" ==> s[0] != '>'
    case Append => true
    case Word(_) => s != "" ==> !WordChar(s[0])
  }

  lemma OneToken(t: Token, s: string)
    requires TokenOk(t) && NulFree(s) && Stops(t, s)
    ensures var u := Spell(t) + s;
            u != "" && u[0] != '\0' && !White(u[0]) && TokenOf(u) == t && TokenLen(u) == |Spell(t)|
  {
    var u := Spell(t) + s;
    if t.Word? {
      assert u[0] == t.w[0] && WordChar(t.w[0]);
      WordEndIs(u, |t.w|);
      assert u[..|t.w|] == t.w;
    }
  }

  /** A token is read off whatever stands next to it, with or without blanks between. */
  lemma LexTight(t: Token, s: string)
    requires TokenOk(t) && NulFree(s) && Stops(t, s)
    ensures NulFree(Spell(t) + s) && Lex(Spell(t) + s) == [t] + Lex(s)
  {
    hide WordChar, White, Symbol, Stops;
    var u := Spell(t) + s;
    OneToken(t, s);
    assert Blanks(u) == 0 && u[0..] == u;
    assert u[|Spell(t)|..] == s;
  }

  /** Blanks separate and mean nothing else. */
  lemma BlankLex(c: char, s: string)
    requires c in [' ', '\t', '\r', '\n', 0x0B as char] && NulFree(s)
    ensures NulFree([c] + s) && Lex([c] + s) == Lex(s)
  {
    var u := [c] + s;
    assert u[1..] == s && Blanks(u) == 1 + Blanks(s);
    assert u[Blanks(u)..] == s[Blanks(s)..];
  }

  lemma LexOne(t: Token, s: string)
    requires TokenOk(t) && NulFree(s)
    ensures NulFree(Spell(t) + " " + s) && Lex(Spell(t) + " " + s) == [t] + Lex(s)
  {
    SpaceStops(t, s);
    hide Lex, Stops, NulFree, Spell, TokenOk;
    BlankLex(' ', s);
    LexTight(t, " " + s);
    Assoc(Spell(t), " ", s);
  }

  lemma SpaceStops(t: Token, s: string)
    ensures Stops(t, " " + s)
  {
  }

  /** Reading the text of some tokens gives the tokens. */
  lemma {:induction false} LexText(ts: seq<Token>)
    requires TokensOk(ts)
    ensures NulFree(Text(ts)) && Lex(Text(ts)) == ts
  {
    hide Lex, Spell, NulFree, Blanks;
    TextNulFree(ts);
    if ts != [] {
      assert TokenOk(ts[0]);
      LexText(ts[1..]);
      LexOne(ts[0], Text(ts[1..]));
    } else {
      LexNothing();
    }
  }

  lemma LexNothing()
    ensures NulFree("") && Lex("") == []
  {
  }

  lemma {:induction false} BodyOk(c: Cmd<string>)
    requires Proper(c)
    ensures TokensOk(Body(c))
  {
    match c
    case Exec(argv) =>
      forall i | 0 <= i < |argv|
        ensures TokenOk(Body(c)[i])
      {
      }
    case Redir(b, _, _, _) => BodyOk(b);
    case Pipe(l, r) => BodyOk(l); BodyOk(r);
    case Back(b) => BodyOk(b);
    case List(l, r) => BodyOk(l); BodyOk(r);
  }

  // ---- the results ----

  /** Any proper command, written in shell syntax, is read back unchanged. */
  lemma ReadBack(c: Cmd<string>)
    requires Proper(c)
    ensures NulFree(Render(c)) && ParseCmd(Render(c)) == Ok(c, [])
  {
    hide IsLine;
    BodyOk(c);
    LexText(Body(c));
    BodySpells(c);
    AcceptsIff(Render(c), c);
  }

  /** Whatever the shell accepts, writing and reading it again gives the same command. */
  lemma RoundTrip(s: string)
    requires NulFree(s) && ParseCmd(s).Ok?
    ensures Proper(ParseCmd(s).cmd) && NulFree(Render(ParseCmd(s).cmd))
    ensures ParseCmd(Render(ParseCmd(s).cmd)) == ParseCmd(s)
  {
    LexOk(s);
    LineProper(Lex(s));
    ReadBack(ParseCmd(s).cmd);
  }

  lemma FitOk(c: Cmd<string>, level: nat, k: seq<Token>)
    requires Proper(c) && TokensOk(k)
    ensures TokensOk(Fit(c, level)) && TokensOk(Fit(c, level) + k)
  {
    BodyOk(c);
    hide Body;
  }

  /** What follows & when it is a word is left over. */
  lemma WordLeft(c: Cmd<string>, w: string)
    requires IsWord(w)
    ensures AfterPipe(c, [Sym('&'), Word(w)]) == Ok(Back(c), [Word(w)])
  {
    var k := [Sym('&'), Word(w)];
    assert k[1..] == [Word(w)];
    assert !Next([Word(w)], "&") && !Next([Word(w)], ";");
  }

  /** `a & b` is refused: after & only ; or the end may follow. */
  lemma BackgroundEndsLine(c: Cmd<string>, w: string)
    requires Proper(c) && IsWord(w)
    ensures TokensOk(Fit(c, 2) + [Sym('&'), Word(w)]) && NulFree(Text(Fit(c, 2) + [Sym('&'), Word(w)]))
    ensures ParseCmd(Text(Fit(c, 2) + [Sym('&'), Word(w)])) == Panic(Leftovers)
  {
    var k := [Sym('&'), Word(w)];
    assert TokenOk(k[0]) && TokenOk(k[1]);
    FitOk(c, 2, k);
    WordLeft(c, w);
    hide IsSegment, IsLine, Fit, Text, NulFree, TokensOk, ParseLine, AfterPipe;
    LexText(Fit(c, 2) + k);
    FitSpells(c, 2);
    SegmentComplete(c, Fit(c, 2), k);
  }
}
