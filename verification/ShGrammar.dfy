/**
 The shell's grammar without a parser: which token sequences spell which command.  The parser
 accepts exactly these, so what it makes of a line is what the grammar says, whichever way the
 line writes its words, redirections and parentheses.
 */
module ShGrammar {
  import opened Common
  import opened ShSpec

  /** A piece of a simple command: a word, or a redirection with its file. */
  datatype Item = Arg(w: string) | Re(sym: Token, file: string)

  predicate ItemOk(x: Item) {
    x.Re? ==> x.sym == Sym('<') || x.sym == Sym('>') || x.sym == Append
  }

  predicate ItemsOk(items: seq<Item>) {
    forall i :: 0 <= i < |items| ==> ItemOk(items[i])
  }

  function SpeltOne(x: Item): (ts: seq<Token>) {
    match x
    case Arg(w) => [Word(w)]
    case Re(t, f) => [t, Word(f)]
  }

  function Spelt(items: seq<Item>): (ts: seq<Token>) {
    if items == [] then [] else SpeltOne(items[0]) + Spelt(items[1..])
  }

  /** The arguments, wherever the redirections stand. */
  function WordsOf(items: seq<Item>): (ws: seq<string>) {
    if items == [] then [] else (if items[0].Arg? then [items[0].w] else []) + WordsOf(items[1..])
  }

  /** A redirection around a command: `<` reads on descriptor 0, `>` and `>>` write on
      descriptor 1 and create. */
  function Under(c: Cmd<string>, x: Item): (r: Cmd<string>) {
    match x
    case Arg(_) => c
    case Re(t, f) => if t == Sym('<') then Redir(c, f, O_RDONLY, 0) else Redir(c, f, O_WRONLY + O_CREATE, 1)
  }

  /** A command under its redirections, the first innermost. */
  function Wrapped(c: Cmd<string>, items: seq<Item>): (r: Cmd<string>)
    decreases |items|
  {
    if items == [] then c else Wrapped(Under(c, items[0]), items[1..])
  }

  /** Fewer than MAXARGS words, and redirections anywhere among them. */
  ghost predicate IsSimple(c: Cmd<string>, ts: seq<Token>) {
    exists items :: SimpleAs(c, ts, items)
  }

  predicate SimpleAs(c: Cmd<string>, ts: seq<Token>, items: seq<Item>) {
    && ItemsOk(items) && ts == Spelt(items) && |WordsOf(items)| < MAXARGS
    && c == Wrapped(Exec(WordsOf(items)), items)
  }

  /** A line in parentheses, and redirections behind it. */
  ghost predicate IsBlock(c: Cmd<string>, ts: seq<Token>)
    decreases |ts|, 0
  {
    exists k: nat, d, items :: k < |ts| && BlockAs(c, ts, k, d, items) && IsLine(d, ts[1..k])
  }

  predicate BlockAs(c: Cmd<string>, ts: seq<Token>, k: nat, d: Cmd<string>, items: seq<Item>)
    requires k < |ts|
  {
    && 0 < k && ts[0] == Sym('(') && ts[k] == Sym(')')
    && ItemsOk(items) && WordsOf(items) == [] && ts[k+1..] == Spelt(items) && c == Wrapped(d, items)
  }

  ghost predicate IsExec(c: Cmd<string>, ts: seq<Token>)
    decreases |ts|, 1
  {
    IsSimple(c, ts) || IsBlock(c, ts)
  }

  ghost predicate IsPipe(c: Cmd<string>, ts: seq<Token>)
    decreases |ts|, 2
  {
    || IsExec(c, ts)
    || (c.Pipe? && exists k: nat :: k < |ts| && ts[k] == Sym('|') && IsExec(c.left, ts[..k])
                                    && IsPipe(c.right, ts[k+1..]))
  }

  ghost predicate IsSegment(c: Cmd<string>, ts: seq<Token>)
    decreases |ts|, 3
  {
    || IsPipe(c, ts)
    || (c.Back? && ts != [] && ts[|ts|-1] == Sym('&') && IsSegment(c.cmd, ts[..|ts|-1]))
  }

  /** The command of a whole line. */
  ghost predicate IsLine(c: Cmd<string>, ts: seq<Token>)
    decreases |ts|, 4
  {
    || IsSegment(c, ts)
    || (c.List? && exists k: nat :: k < |ts| && ts[k] == Sym(';') && IsSegment(c.left, ts[..k])
                                    && IsLine(c.right, ts[k+1..]))
  }

  /** What binds more tightly may stand where less would do. */
  lemma Looser(c: Cmd<string>, ts: seq<Token>)
    ensures IsExec(c, ts) ==> IsPipe(c, ts)
    ensures IsPipe(c, ts) ==> IsSegment(c, ts)
    ensures IsSegment(c, ts) ==> IsLine(c, ts)
  {
  }

  // ---- items ----

  lemma Assoc<T>(a: seq<T>, b: seq<T>, c: seq<T>)
    ensures a + b + c == a + (b + c)
  {
  }

  lemma Regroup<T>(a: seq<T>, b: seq<T>, c: seq<T>, d: seq<T>, e: seq<T>)
    ensures a + (b + (c + (d + e))) == a + b + c + d + e
  {
  }

  lemma OneItem(x: Item)
    ensures Spelt([x]) == SpeltOne(x) && WordsOf([x]) == if x.Arg? then [x.w] else []
  {
    var none: seq<Item> := [x][1..];
    assert Spelt(none) == [] && WordsOf(none) == [];
    assert Spelt([x]) == SpeltOne(x) + Spelt(none);
    assert WordsOf([x]) == (if x.Arg? then [x.w] else []) + WordsOf(none);
  }

  lemma {:induction false} SpeltJoin(a: seq<Item>, b: seq<Item>)
    ensures Spelt(a + b) == Spelt(a) + Spelt(b)
  {
    if a == [] {
      assert a + b == b;
    } else {
      assert (a + b)[1..] == a[1..] + b;
      SpeltJoin(a[1..], b);
      assert Spelt(a + b) == SpeltOne(a[0]) + (Spelt(a[1..]) + Spelt(b));
    }
  }

  lemma {:induction false} WordsJoin(a: seq<Item>, b: seq<Item>)
    ensures WordsOf(a + b) == WordsOf(a) + WordsOf(b)
  {
    if a == [] {
      assert a + b == b;
    } else {
      assert (a + b)[1..] == a[1..] + b;
      WordsJoin(a[1..], b);
    }
  }

  lemma {:induction false} WrapJoin(c: Cmd<string>, a: seq<Item>, b: seq<Item>)
    ensures Wrapped(c, a + b) == Wrapped(Wrapped(c, a), b)
    decreases |a|
  {
    if a == [] {
      assert a + b == b;
    } else {
      assert (a + b)[1..] == a[1..] + b;
      WrapJoin(Under(c, a[0]), a[1..], b);
    }
  }

  lemma ItemsJoin(c: Cmd<string>, a: seq<Item>, b: seq<Item>)
    ensures Spelt(a + b) == Spelt(a) + Spelt(b) && WordsOf(a + b) == WordsOf(a) + WordsOf(b)
    ensures Wrapped(c, a + b) == Wrapped(Wrapped(c, a), b)
  {
    SpeltJoin(a, b);
    WordsJoin(a, b);
    WrapJoin(c, a, b);
  }

  lemma {:induction false} ArgInside(c: Cmd<string>, items: seq<Item>, w: string)
    ensures WithArg(Wrapped(c, items), w) == Wrapped(WithArg(c, w), items)
    ensures ArgCount(Wrapped(c, items)) == ArgCount(c)
    decreases |items|
  {
    if items != [] { ArgInside(Under(c, items[0]), items[1..], w); }
  }

  // ---- what the parser accepts is spelt as the grammar says ----

  lemma RestOk(ts: seq<Token>, n: nat)
    requires TokensOk(ts) && n <= |ts|
    ensures TokensOk(ts[n..])
  {
    forall i | 0 <= i < |ts[n..]|
      ensures TokenOk(ts[n..][i])
    {
      assert TokenOk(ts[n+i]);
    }
  }

  /** One redirection. */
  lemma RedirsStep(c: Cmd<string>, ts: seq<Token>)
    requires TokensOk(ts) && Next(ts, "<>") && Redirs(c, ts).Ok?
    ensures |ts| >= 2 && ts[1].Word? && ItemOk(Re(ts[0], ts[1].w)) && TokensOk(ts[2..])
    ensures Redirs(c, ts) == Redirs(Under(c, Re(ts[0], ts[1].w)), ts[2..])
    ensures ts == [ts[0], Word(ts[1].w)] + ts[2..]
  {
    assert TokenOk(ts[0]);
    RestOk(ts, 2);
  }

  lemma {:induction false} RedirsSound(c: Cmd<string>, ts: seq<Token>) returns (items: seq<Item>)
    requires TokensOk(ts) && Redirs(c, ts).Ok?
    ensures ItemsOk(items) && WordsOf(items) == [] && ts == Spelt(items) + Redirs(c, ts).rest
    ensures Redirs(c, ts).cmd == Wrapped(c, items) && TokensOk(Redirs(c, ts).rest)
    decreases |ts|
  {
    items := [];
    if Next(ts, "<>") {
      RedirsStep(c, ts);
      var x := Re(ts[0], ts[1].w);
      hide Redirs, Next, TokensOk, ItemOk;
      var more := RedirsSound(Under(c, x), ts[2..]);
      items := [x] + more;
      OneItem(x);
      ItemsJoin(c, [x], more);
      hide Spelt, WordsOf;
      Assoc(SpeltOne(x), Spelt(more), Redirs(c, ts).rest);
    }
  }

  /** One word and the redirections behind it. */
  lemma ArgsStep(ws: seq<string>, items: seq<Item>, ts: seq<Token>)
    requires TokensOk(ts) && !Next(ts, "|)&;") && ts != []
    requires Args(Wrapped(Exec(ws), items), |ws|, ts).Ok?
    ensures ts[0].Word? && |ws| + 1 < MAXARGS && ts == [Word(ts[0].w)] + ts[1..] && TokensOk(ts[1..])
    ensures var r := Redirs(Wrapped(Exec(ws + [ts[0].w]), items), ts[1..]);
            r.Ok? && |r.rest| < |ts| && Args(Wrapped(Exec(ws), items), |ws|, ts) == Args(r.cmd, |ws| + 1, r.rest)
  {
    hide Redirs, Next, TokenOk;
    RestOk(ts, 1);
    ArgInside(Exec(ws), items, ts[0].w);
  }

  lemma {:induction false} ArgsSound(ws: seq<string>, items: seq<Item>, ts: seq<Token>) returns (more: seq<Item>)
    requires TokensOk(ts) && Args(Wrapped(Exec(ws), items), |ws|, ts).Ok? && |ws| < MAXARGS
    ensures ItemsOk(more) && ts == Spelt(more) + Args(Wrapped(Exec(ws), items), |ws|, ts).rest
    ensures |ws + WordsOf(more)| < MAXARGS && TokensOk(Args(Wrapped(Exec(ws), items), |ws|, ts).rest)
    ensures Args(Wrapped(Exec(ws), items), |ws|, ts).cmd == Wrapped(Exec(ws + WordsOf(more)), items + more)
    decreases |ts|
  {
    if Next(ts, "|)&;") || ts == [] {
      more := [];
      assert items + [] == items && ws + [] == ws;
    } else {
      ArgsStep(ws, items, ts);
      hide Args, Redirs, Next, TokensOk, ItemsOk, Spelt, WordsOf, Wrapped;
      var w, xs := ts[0].w, ws + [ts[0].w];
      var redirs := RedirsSound(Wrapped(Exec(xs), items), ts[1..]);
      var r := Redirs(Wrapped(Exec(xs), items), ts[1..]);
      ItemsJoin(Exec(xs), items, redirs);
      assert ts == [Word(w)] + (Spelt(redirs) + r.rest);
      var rest := ArgsSound(xs, items + redirs, r.rest);
      more := ArgsJoin(ws, items, w, redirs, rest, ts, r.rest, Args(r.cmd, |ws| + 1, r.rest).rest);
    }
  }

  lemma ArgsJoin(ws: seq<string>, items: seq<Item>, w: string, redirs: seq<Item>, rest: seq<Item>,
                 ts: seq<Token>, r1: seq<Token>, r2: seq<Token>)
    returns (more: seq<Item>)
    requires ItemsOk(redirs) && ItemsOk(rest) && WordsOf(redirs) == []
    requires ts == [Word(w)] + (Spelt(redirs) + r1) && r1 == Spelt(rest) + r2
    ensures ItemsOk(more) && ts == Spelt(more) + r2 && ws + WordsOf(more) == ws + [w] + WordsOf(rest)
    ensures Wrapped(Exec(ws + [w] + WordsOf(rest)), items + redirs + rest)
         == Wrapped(Exec(ws + [w] + WordsOf(rest)), items + more)
  {
    more := [Arg(w)] + (redirs + rest);
    OneArg(w, redirs, rest);
    WrapArg(Exec(ws + [w] + WordsOf(rest)), items, w, redirs, rest);
    hide Spelt, WordsOf, Wrapped;
    Assoc([Word(w)], Spelt(redirs) + Spelt(rest), r2);
    Assoc(Spelt(redirs), Spelt(rest), r2);
    Assoc(ws, [w], WordsOf(rest));
  }

  lemma OneArg(w: string, redirs: seq<Item>, rest: seq<Item>)
    requires WordsOf(redirs) == []
    ensures Spelt([Arg(w)] + (redirs + rest)) == [Word(w)] + (Spelt(redirs) + Spelt(rest))
    ensures WordsOf([Arg(w)] + (redirs + rest)) == [w] + WordsOf(rest)
  {
    var more := [Arg(w)] + (redirs + rest);
    assert more[1..] == redirs + rest;
    ItemsJoin(Exec([]), redirs, rest);
  }

  lemma WrapArg(c: Cmd<string>, items: seq<Item>, w: string, redirs: seq<Item>, rest: seq<Item>)
    ensures Wrapped(c, items + redirs + rest) == Wrapped(c, items + ([Arg(w)] + (redirs + rest)))
  {
    var more := [Arg(w)] + (redirs + rest);
    assert items + redirs + rest == items + (redirs + rest) && more[1..] == redirs + rest;
    ItemsJoin(c, items, redirs + rest);
    ItemsJoin(c, items, more);
  }

  /** What a parse took spells its command, and the rest is left over. */
  ghost predicate Took(ts: seq<Token>, rest: seq<Token>, pre: seq<Token>) {
    ts == pre + rest && TokensOk(rest)
  }

  lemma SimpleSound(ts: seq<Token>) returns (pre: seq<Token>)
    requires TokensOk(ts) && !Next(ts, "(") && ParseExec(ts).Ok?
    ensures Took(ts, ParseExec(ts).rest, pre) && IsSimple(ParseExec(ts).cmd, pre)
  {
    hide Args, Redirs, Next, TokensOk, ItemsOk, Spelt, WordsOf;
    var redirs := RedirsSound(Exec([]), ts);
    var r := Redirs(Exec([]), ts);
    var more := ArgsSound([], redirs, r.rest);
    var items := redirs + more;
    ItemsJoin(Exec([]), redirs, more);
    assert [] + WordsOf(more) == WordsOf(more) == WordsOf(items);
    BothItems(redirs, more);
    pre := Spelt(items);
    assert SimpleAs(ParseExec(ts).cmd, pre, items);
  }

  lemma BothItems(a: seq<Item>, b: seq<Item>)
    requires ItemsOk(a) && ItemsOk(b)
    ensures ItemsOk(a + b)
  {
  }

  lemma {:induction false} BlockSound(ts: seq<Token>) returns (pre: seq<Token>)
    requires TokensOk(ts) && Next(ts, "(") && ParseBlock(ts).Ok?
    ensures Took(ts, ParseBlock(ts).rest, pre) && IsBlock(ParseBlock(ts).cmd, pre)
    decreases |ts|, 0
  {
    Opens(ts);
    var inner := LineSound(ts[1..]);
    var l := ParseLine(ts[1..]);
    Closes(l.rest);
    var items := RedirsSound(l.cmd, l.rest[1..]);
    hide ParseLine, Redirs, Next, TokensOk, ItemsOk, Spelt, WordsOf, Wrapped, IsLine, IsBlock;
    pre := BlockJoin(l.cmd, inner, items);
    Regroup([Sym('(')], inner, [Sym(')')], Spelt(items), ParseBlock(ts).rest);
  }

  lemma BlockJoin(d: Cmd<string>, inner: seq<Token>, items: seq<Item>) returns (pre: seq<Token>)
    requires ItemsOk(items) && WordsOf(items) == [] && IsLine(d, inner)
    ensures pre == [Sym('(')] + inner + [Sym(')')] + Spelt(items) && IsBlock(Wrapped(d, items), pre)
  {
    hide ItemsOk, Spelt, WordsOf, Wrapped, IsLine;
    var k := 1 + |inner|;
    pre := [Sym('(')] + inner + [Sym(')')] + Spelt(items);
    assert pre[1..k] == inner && pre[k] == Sym(')') && pre[k+1..] == Spelt(items);
    assert BlockAs(Wrapped(d, items), pre, k, d, items);
  }

  lemma Opens(ts: seq<Token>)
    requires TokensOk(ts) && Next(ts, "(")
    ensures ts[0] == Sym('(') && TokensOk(ts[1..]) && ts == [ts[0]] + ts[1..]
  {
    assert TokenOk(ts[0]);
    RestOk(ts, 1);
  }

  lemma Closes(ts: seq<Token>)
    requires TokensOk(ts) && Next(ts, ")")
    ensures ts[0] == Sym(')') && TokensOk(ts[1..]) && ts == [ts[0]] + ts[1..]
  {
    assert TokenOk(ts[0]);
    RestOk(ts, 1);
  }

  lemma Separates(ts: seq<Token>, c: char)
    requires TokensOk(ts) && (c == '|' || c == '&' || c == ';') && Next(ts, [c])
    ensures ts[0] == Sym(c) && TokensOk(ts[1..]) && ts == [ts[0]] + ts[1..]
  {
    assert TokenOk(ts[0]);
    RestOk(ts, 1);
  }

  lemma {:induction false} ExecSound(ts: seq<Token>) returns (pre: seq<Token>)
    requires TokensOk(ts) && ParseExec(ts).Ok?
    ensures Took(ts, ParseExec(ts).rest, pre) && IsExec(ParseExec(ts).cmd, pre)
    decreases |ts|, 1
  {
    hide Next, TokensOk, IsSimple, IsBlock, ParseBlock;
    if Next(ts, "(") {
      pre := BlockSound(ts);
    } else {
      pre := SimpleSound(ts);
    }
  }

  lemma {:induction false} PipeSound(ts: seq<Token>) returns (pre: seq<Token>)
    requires TokensOk(ts) && ParsePipe(ts).Ok?
    ensures Took(ts, ParsePipe(ts).rest, pre) && IsPipe(ParsePipe(ts).cmd, pre)
    decreases |ts|, 2
  {
    hide Next, TokensOk, IsExec, ParseExec;
    pre := ExecSound(ts);
    var e := ParseExec(ts);
    if Next(e.rest, "|") {
      Separates(e.rest, '|');
      var right := PipeSound(e.rest[1..]);
      var both := pre + [Sym('|')] + right;
      assert both[..|pre|] == pre && both[|pre|] == Sym('|') && both[|pre|+1..] == right;
      assert ts == pre + ([e.rest[0]] + (right + ParsePipe(ts).rest));
      pre := both;
    }
  }

  /** What follows a pipeline, or more of a segment. */
  lemma {:induction false} AfterSound(c: Cmd<string>, pre: seq<Token>, ts: seq<Token>) returns (all: seq<Token>)
    requires TokensOk(ts) && IsSegment(c, pre) && AfterPipe(c, ts).Ok?
    ensures Took(pre + ts, AfterPipe(c, ts).rest, all) && IsLine(AfterPipe(c, ts).cmd, all)
    decreases |ts|, 3
  {
    hide Next, TokensOk, IsPipe, ParsePipe;
    if Next(ts, "&") {
      Separates(ts, '&');
      var more := pre + [Sym('&')];
      assert more[..|more|-1] == pre;
      all := AfterSound(Back(c), more, ts[1..]);
      assert more + ts[1..] == pre + ts;
    } else if Next(ts, ";") {
      Separates(ts, ';');
      var right := LineSound(ts[1..]);
      all := pre + [Sym(';')] + right;
      assert all[..|pre|] == pre && all[|pre|] == Sym(';') && all[|pre|+1..] == right;
      assert pre + ts == pre + ([ts[0]] + (right + AfterPipe(c, ts).rest));
    } else {
      all := pre;
    }
  }

  lemma {:induction false} LineSound(ts: seq<Token>) returns (pre: seq<Token>)
    requires TokensOk(ts) && ParseLine(ts).Ok?
    ensures Took(ts, ParseLine(ts).rest, pre) && IsLine(ParseLine(ts).cmd, pre)
    decreases |ts|, 4
  {
    hide TokensOk, IsPipe, ParsePipe;
    pre := PipeSound(ts);
    var p := ParsePipe(ts);
    pre := AfterSound(p.cmd, pre, p.rest);
  }

  // ---- and whatever the grammar spells is accepted ----

  /** What parseexec does after the words of a command under some redirections. */
  function Rest(c: Cmd<string>, k: seq<Token>): (r: Parse)
    requires ArgCount(c) >= 0
  {
    var r := Redirs(c, k);
    if r.Panic? then r else Args(r.cmd, ArgCount(c), r.rest)
  }

  predicate Follows(k: seq<Token>, chars: string) {
    k == [] || (k[0].Sym? && k[0].c in chars)
  }

  lemma ItemParse(c: Cmd<string>, x: Item, k: seq<Token>)
    requires 0 <= ArgCount(c) && ItemOk(x) && TokensOk(Spelt([x])) && (x.Arg? ==> ArgCount(c) + 1 < MAXARGS)
    ensures var d := if x.Arg? then WithArg(c, x.w) else Under(c, x);
            ArgCount(d) >= 0 && Rest(c, Spelt([x]) + k) == Rest(d, k)
  {
    OneItem(x);
    var ts := Spelt([x]) + k;
    assert TokenOk(Spelt([x])[0]);
    if x.Re? {
      assert ts == [x.sym, Word(x.file)] + k && ts[2..] == k;
    } else {
      assert ts == [Word(x.w)] + k && ts[1..] == k;
      CountMore(c, x.w);
    }
  }

  lemma {:induction false} CountMore(c: Cmd<string>, w: string)
    requires ArgCount(c) >= 0
    ensures ArgCount(WithArg(c, w)) == ArgCount(c) + 1
  {
    if c.Redir? { CountMore(c.cmd, w); }
  }

  lemma PartOk(ts: seq<Token>, i: nat, j: nat)
    requires TokensOk(ts) && i <= j <= |ts|
    ensures TokensOk(ts[i..j])
  {
    forall k | 0 <= k < |ts[i..j]|
      ensures TokenOk(ts[i..j][k])
    {
      assert TokenOk(ts[i+k]);
    }
  }

  lemma BothOk(a: seq<Token>, b: seq<Token>)
    requires TokensOk(a + b)
    ensures TokensOk(a) && TokensOk(b)
  {
    PartOk(a + b, 0, |a|);
    PartOk(a + b, |a|, |a + b|);
    assert (a + b)[0..|a|] == a && (a + b)[|a|..|a + b|] == b;
  }

  /** What stands before the j-th token, and after it. */
  lemma SplitAt(pre: seq<Token>, j: nat, k: seq<Token>)
    requires j < |pre|
    ensures pre + k == pre[..j] + (pre[j..] + k)
    ensures (pre[j..] + k)[0] == pre[j] && (pre[j..] + k)[1..] == pre[j+1..] + k
    ensures TokensOk(pre) ==> TokensOk(pre[..j]) && TokensOk(pre[j+1..])
  {
    if TokensOk(pre) {
      PartOk(pre, 0, j);
      PartOk(pre, j + 1, |pre|);
    }
  }

  /** The first item apart from the others. */
  lemma FirstItem(items: seq<Item>)
    requires items != [] && ItemsOk(items) && TokensOk(Spelt(items))
    ensures items == [items[0]] + items[1..] && Spelt(items) == Spelt([items[0]]) + Spelt(items[1..])
    ensures WordsOf(items) == WordsOf([items[0]]) + WordsOf(items[1..])
    ensures ItemOk(items[0]) && ItemsOk(items[1..])
    ensures TokensOk(Spelt([items[0]])) && TokensOk(Spelt(items[1..]))
  {
    assert items == [items[0]] + items[1..];
    hide Spelt, WordsOf, Wrapped, TokensOk, ItemOk;
    ItemsJoin(Exec([]), [items[0]], items[1..]);
    BothOk(Spelt([items[0]]), Spelt(items[1..]));
  }

  lemma OneMore(ws: seq<string>, done: seq<Item>, x: Item)
    ensures var c := Wrapped(Exec(ws), done);
            (if x.Arg? then WithArg(c, x.w) else Under(c, x)) == Wrapped(Exec(ws + WordsOf([x])), done + [x])
    ensures ArgCount(Wrapped(Exec(ws), done)) == |ws|
  {
    OneItem(x);
    assert ws + [] == ws;
    WrapJoin(Exec(ws + WordsOf([x])), done, [x]);
    ArgInside(Exec(ws), done, if x.Arg? then x.w else "");
  }

  lemma {:induction false} ItemsParse(ws: seq<string>, done: seq<Item>, items: seq<Item>, k: seq<Token>)
    requires ItemsOk(items) && TokensOk(Spelt(items)) && |ws + WordsOf(items)| < MAXARGS
    ensures ArgCount(Wrapped(Exec(ws), done)) >= 0
    ensures ArgCount(Wrapped(Exec(ws + WordsOf(items)), done + items)) >= 0
    ensures Rest(Wrapped(Exec(ws), done), Spelt(items) + k) == Rest(Wrapped(Exec(ws + WordsOf(items)), done + items), k)
    decreases |items|
  {
    hide Rest, TokensOk;
    if items == [] {
      ArgInside(Exec(ws), done, "");
      assert ws + WordsOf(items) == ws && done + items == done && Spelt(items) + k == k;
    } else {
      var x, more := items[0], items[1..];
      FirstItem(items);
      OneMore(ws, done, x);
      hide Spelt, WordsOf, Wrapped, ItemsOk, ArgCount, WithArg;
      Assoc(ws, WordsOf([x]), WordsOf(more));
      Assoc(Spelt([x]), Spelt(more), k);
      Assoc(done, [x], more);
      ItemParse(Wrapped(Exec(ws), done), x, Spelt(more) + k);
      ItemsParse(ws + WordsOf([x]), done + [x], more, k);
    }
  }

  lemma RestEnds(c: Cmd<string>, k: seq<Token>)
    requires Follows(k, "|)&;") && ArgCount(c) >= 0
    ensures Rest(c, k) == Ok(c, k)
  {
  }

  lemma NoParen(items: seq<Item>, k: seq<Token>)
    requires ItemsOk(items) && TokensOk(Spelt(items)) && Follows(k, "|)&;")
    ensures !Next(Spelt(items) + k, "(")
  {
    if items != [] {
      assert ItemOk(items[0]) && TokenOk(Spelt(items)[0]) && (Spelt(items) + k)[0] == Spelt(items)[0];
    } else {
      assert Spelt(items) + k == k;
    }
  }

  lemma SimpleComplete(c: Cmd<string>, pre: seq<Token>, k: seq<Token>)
    requires IsSimple(c, pre) && TokensOk(pre) && Follows(k, "|)&;")
    ensures ParseExec(pre + k) == Ok(c, k)
  {
    var items :| SimpleAs(c, pre, items);
    NoParen(items, k);
    hide Next, TokensOk, ItemsOk, Spelt, WordsOf, Redirs, Args;
    assert [] + WordsOf(items) == WordsOf(items) && [] + items == items;
    ItemsParse([], [], items, k);
    RestEnds(c, k);
  }

  lemma {:induction false} RedirsComplete(c: Cmd<string>, items: seq<Item>, k: seq<Token>)
    requires ItemsOk(items) && WordsOf(items) == [] && !Next(k, "<>")
    ensures Redirs(c, Spelt(items) + k) == Ok(Wrapped(c, items), k)
    decreases |items|
  {
    var ts := Spelt(items) + k;
    if items == [] {
      assert ts == k;
    } else {
      assert ItemOk(items[0]) && items[0].Re?;
      Assoc(SpeltOne(items[0]), Spelt(items[1..]), k);
      RedirParse(c, items[0], Spelt(items[1..]) + k);
      hide Redirs, Next, ItemOk;
      RedirsComplete(Under(c, items[0]), items[1..], k);
    }
  }

  lemma RedirParse(c: Cmd<string>, x: Item, k: seq<Token>)
    requires ItemOk(x) && x.Re?
    ensures Redirs(c, SpeltOne(x) + k) == Redirs(Under(c, x), k)
  {
    var ts := SpeltOne(x) + k;
    assert ts[2..] == k;
  }

  lemma {:induction false} BlockComplete(c: Cmd<string>, pre: seq<Token>, k: seq<Token>)
    requires IsBlock(c, pre) && TokensOk(pre) && Follows(k, "|)&;")
    ensures ParseExec(pre + k) == Ok(c, k)
    decreases |pre|, 0
  {
    var j: nat, d, items :| j < |pre| && BlockAs(c, pre, j, d, items) && IsLine(d, pre[1..j]);
    hide IsLine, IsBlock, BlockAs, TokensOk, ItemsOk, Spelt, WordsOf, ParseExec, ParseLine, Redirs, Next;
    BlockParts(c, pre, j, d, items, k);
    LineComplete(d, pre[1..j], pre[j..] + k);
    BlockStep(pre + k, d, pre[j..] + k);
    RedirsComplete(d, items, k);
  }

  lemma BlockParts(c: Cmd<string>, pre: seq<Token>, j: nat, d: Cmd<string>, items: seq<Item>, k: seq<Token>)
    requires j < |pre| && BlockAs(c, pre, j, d, items) && TokensOk(pre) && Follows(k, "|)&;")
    ensures 1 <= j && TokensOk(pre[1..j]) && !Next(k, "<>")
    ensures ItemsOk(items) && WordsOf(items) == [] && c == Wrapped(d, items)
    ensures (pre + k)[0] == Sym('(') && (pre + k)[1..] == pre[1..j] + (pre[j..] + k)
    ensures (pre[j..] + k)[0] == Sym(')') && (pre[j..] + k)[1..] == Spelt(items) + k && Follows(pre[j..] + k, ")")
  {
    hide TokensOk, ItemsOk, Spelt, WordsOf;
    SplitAt(pre, j, k);
    PartOk(pre, 1, j);
    assert (pre + k)[1..] == pre[1..j] + (pre[j..] + k);
  }

  lemma BlockStep(ts: seq<Token>, d: Cmd<string>, r: seq<Token>)
    requires ts != [] && ts[0] == Sym('(') && ParseLine(ts[1..]) == Ok(d, r) && r != [] && r[0] == Sym(')')
    ensures ParseExec(ts) == Redirs(d, r[1..])
  {
    hide ParseLine, Redirs;
  }

  lemma {:induction false} ExecComplete(c: Cmd<string>, pre: seq<Token>, k: seq<Token>)
    requires IsExec(c, pre) && TokensOk(pre) && Follows(k, "|)&;")
    ensures ParseExec(pre + k) == Ok(c, k)
    decreases |pre|, 1
  {
    hide ParseExec;
    if IsSimple(c, pre) { SimpleComplete(c, pre, k); } else { BlockComplete(c, pre, k); }
  }

  lemma {:induction false} PipeComplete(c: Cmd<string>, pre: seq<Token>, k: seq<Token>)
    requires IsPipe(c, pre) && TokensOk(pre) && Follows(k, ")&;")
    ensures ParsePipe(pre + k) == Ok(c, k)
    decreases |pre|, 2
  {
    hide ParseExec, IsExec, TokensOk;
    if IsExec(c, pre) {
      ExecComplete(c, pre, k);
    } else {
      var j: nat :| j < |pre| && pre[j] == Sym('|') && IsExec(c.left, pre[..j]) && IsPipe(c.right, pre[j+1..]);
      var tail := pre[j..] + k;
      SplitAt(pre, j, k);
      ExecComplete(c.left, pre[..j], tail);
      PipeComplete(c.right, pre[j+1..], k);
    }
  }

  /** A pipeline with some & behind it. */
  lemma {:induction false} SegmentComplete(c: Cmd<string>, pre: seq<Token>, k: seq<Token>)
    requires IsSegment(c, pre) && TokensOk(pre) && Follows(k, ")&;")
    ensures ParseLine(pre + k) == AfterPipe(c, k)
    decreases |pre|, 3
  {
    hide ParsePipe, IsPipe;
    if IsPipe(c, pre) {
      PipeComplete(c, pre, k);
    } else {
      var n := |pre| - 1;
      var tail := [Sym('&')] + k;
      assert pre + k == pre[..n] + tail && tail[1..] == k;
      PartOk(pre, 0, n);
      SegmentComplete(c.cmd, pre[..n], tail);
    }
  }

  lemma {:induction false} LineComplete(c: Cmd<string>, pre: seq<Token>, k: seq<Token>)
    requires IsLine(c, pre) && TokensOk(pre) && Follows(k, ")")
    ensures ParseLine(pre + k) == Ok(c, k)
    decreases |pre|, 4
  {
    hide IsSegment, TokensOk;
    if IsSegment(c, pre) {
      SegmentComplete(c, pre, k);
    } else {
      var j: nat :| j < |pre| && pre[j] == Sym(';') && IsSegment(c.left, pre[..j]) && IsLine(c.right, pre[j+1..]);
      var tail := pre[j..] + k;
      SplitAt(pre, j, k);
      SegmentComplete(c.left, pre[..j], tail);
      LineComplete(c.right, pre[j+1..], k);
    }
  }

  // ---- the results ----

  /** The shell accepts a line as a command exactly when the grammar spells it so. */
  lemma AcceptsIff(s: string, c: Cmd<string>)
    requires NulFree(s)
    ensures ParseCmd(s) == Ok(c, []) <==> IsLine(c, Lex(s))
  {
    hide IsLine, ParseLine;
    LexOk(s);
    if ParseCmd(s) == Ok(c, []) {
      var pre := LineSound(Lex(s));
      assert pre + [] == pre;
    }
    if IsLine(c, Lex(s)) {
      LineComplete(c, Lex(s), []);
      assert Lex(s) + [] == Lex(s);
    }
  }

  /** No line spells two commands. */
  lemma Unambiguous(ts: seq<Token>, c: Cmd<string>, d: Cmd<string>)
    requires TokensOk(ts) && IsLine(c, ts) && IsLine(d, ts)
    ensures c == d
  {
    hide IsLine, ParseLine;
    LineComplete(c, ts, []);
    LineComplete(d, ts, []);
  }
}
