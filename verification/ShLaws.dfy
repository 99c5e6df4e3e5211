/**
 Laws of the shell's parser: `>>` does what `>` does, redirections may stand anywhere among
 the words, and which lines are refused with which message.
 */
module ShLaws {
  import opened Common
  import opened ShSpec
  import opened ShGrammar

  // ---- >> is > ----

  function Plain(ts: seq<Token>): (us: seq<Token>)
    ensures |us| == |ts|
    ensures forall i :: 0 <= i < |ts| ==> us[i] == if ts[i] == Append then Sym('>') else ts[i]
  {
    seq(|ts|, i requires 0 <= i < |ts| => if ts[i] == Append then Sym('>') else ts[i])
  }

  function PlainRest(r: Parse): (p: Parse) {
    if r.Ok? then Ok(r.cmd, Plain(r.rest)) else r
  }

  lemma PlainNext(ts: seq<Token>, chars: string)
    ensures Next(Plain(ts), chars) <==> Next(ts, chars)
  {
  }

  lemma PlainFrom(ts: seq<Token>, n: nat)
    requires n <= |ts|
    ensures Plain(ts)[n..] == Plain(ts[n..])
  {
  }

  lemma {:induction false} RedirsPlain(c: Cmd<string>, ts: seq<Token>)
    ensures Redirs(c, Plain(ts)) == PlainRest(Redirs(c, ts))
    decreases |ts|
  {
    PlainNext(ts, "<>");
    if Next(ts, "<>") && |ts| >= 2 && ts[1].Word? {
      PlainFrom(ts, 2);
      var d := Redirect(c, ts[0], ts[1].w);
      assert Redirect(c, Plain(ts)[0], ts[1].w) == d;
      RedirsPlain(d, ts[2..]);
    }
  }

  lemma {:induction false} ArgsPlain(c: Cmd<string>, argc: nat, ts: seq<Token>)
    ensures Args(c, argc, Plain(ts)) == PlainRest(Args(c, argc, ts))
    decreases |ts|
  {
    PlainNext(ts, "|)&;");
    hide Next, Redirs;
    if ts != [] && ts[0].Word? {
      PlainFrom(ts, 1);
      RedirsPlain(WithArg(c, ts[0].w), ts[1..]);
      var r := Redirs(WithArg(c, ts[0].w), ts[1..]);
      if r.Ok? { ArgsPlain(r.cmd, argc + 1, r.rest); }
    }
  }

  lemma {:induction false} ExecPlain(ts: seq<Token>)
    ensures ParseExec(Plain(ts)) == PlainRest(ParseExec(ts))
    decreases |ts|, 1
  {
    PlainNext(ts, "(");
    hide Redirs, Args;
    if Next(ts, "(") {
      BlockPlain(ts);
    } else {
      RedirsPlain(Exec([]), ts);
      var r := Redirs(Exec([]), ts);
      if r.Ok? { ArgsPlain(r.cmd, 0, r.rest); }
    }
  }

  lemma {:induction false} BlockPlain(ts: seq<Token>)
    requires ts != []
    ensures ParseBlock(Plain(ts)) == PlainRest(ParseBlock(ts))
    decreases |ts|, 0
  {
    PlainFrom(ts, 1);
    LinePlain(ts[1..]);
    var l := ParseLine(ts[1..]);
    hide Redirs, ParseLine;
    if l.Ok? && Next(l.rest, ")") {
      PlainNext(l.rest, ")");
      PlainFrom(l.rest, 1);
      RedirsPlain(l.cmd, l.rest[1..]);
    } else if l.Ok? {
      PlainNext(l.rest, ")");
    }
  }

  lemma {:induction false} PipePlain(ts: seq<Token>)
    ensures ParsePipe(Plain(ts)) == PlainRest(ParsePipe(ts))
    decreases |ts|, 2
  {
    ExecPlain(ts);
    var e := ParseExec(ts);
    hide ParseExec;
    if e.Ok? {
      PlainNext(e.rest, "|");
      if Next(e.rest, "|") {
        PlainFrom(e.rest, 1);
        PipePlain(e.rest[1..]);
      }
    }
  }

  lemma {:induction false} AfterPlain(c: Cmd<string>, ts: seq<Token>)
    ensures AfterPipe(c, Plain(ts)) == PlainRest(AfterPipe(c, ts))
    decreases |ts|, 3
  {
    PlainNext(ts, "&");
    PlainNext(ts, ";");
    hide ParseLine;
    if ts != [] { PlainFrom(ts, 1); }
    if Next(ts, "&") {
      AfterPlain(Back(c), ts[1..]);
    } else if Next(ts, ";") {
      LinePlain(ts[1..]);
    }
  }

  /** Writing > for every >> changes nothing: the same command, or the same panic. */
  lemma {:induction false} LinePlain(ts: seq<Token>)
    ensures ParseLine(Plain(ts)) == PlainRest(ParseLine(ts))
    decreases |ts|, 4
  {
    hide ParsePipe;
    PipePlain(ts);
    var p := ParsePipe(ts);
    if p.Ok? { AfterPlain(p.cmd, p.rest); }
  }

  // ---- redirections among the words ----

  /** The words or the redirections alone, in their order. */
  function Only(items: seq<Item>, words: bool): (r: seq<Item>)
    ensures ItemsOk(items) ==> ItemsOk(r)
  {
    if items == [] then []
    else (if items[0].Arg? == words then [items[0]] else []) + Only(items[1..], words)
  }

  lemma {:induction false} OnlyMeans(items: seq<Item>, c: Cmd<string>)
    ensures WordsOf(Only(items, true)) == WordsOf(items) && WordsOf(Only(items, false)) == []
    ensures Wrapped(c, Only(items, true)) == c && Wrapped(c, Only(items, false)) == Wrapped(c, items)
    decreases |items|
  {
    if items != [] {
      var x, more := items[0], items[1..];
      OnlyMeans(more, c);
      OnlyMeans(more, Under(c, x));
      OneItem(x);
      ItemsJoin(c, [x], Only(more, x.Arg?));
      assert Wrapped(c, [x]) == Under(c, x);
      assert Only(items, x.Arg?) == [x] + Only(more, x.Arg?) && Only(items, !x.Arg?) == Only(more, !x.Arg?);
    }
  }

  /** A simple command means what it means with its redirections behind its words: `echo > f a b`
      is `echo a b > f`. */
  lemma RedirsAnywhere(items: seq<Item>)
    requires ItemsOk(items) && |WordsOf(items)| < MAXARGS
    requires TokensOk(Spelt(items)) && TokensOk(Spelt(Only(items, true) + Only(items, false)))
    ensures ParseLine(Spelt(items)) == ParseLine(Spelt(Only(items, true) + Only(items, false)))
    ensures ParseLine(Spelt(items)) == Ok(Wrapped(Exec(WordsOf(items)), items), [])
  {
    var ws, other := WordsOf(items), Only(items, true) + Only(items, false);
    var c := Wrapped(Exec(ws), items);
    OnlyMeans(items, Exec(ws));
    ItemsJoin(Exec(ws), Only(items, true), Only(items, false));
    assert WordsOf(other) == ws;
    BothItems(Only(items, true), Only(items, false));
    SimpleLine(c, items);
    SimpleLine(c, other);
  }

  lemma SimpleLine(c: Cmd<string>, items: seq<Item>)
    requires SimpleAs(c, Spelt(items), items) && TokensOk(Spelt(items))
    ensures ParseLine(Spelt(items)) == Ok(c, [])
  {
    var ts := Spelt(items);
    hide Spelt, TokensOk, ParseLine;
    assert IsExec(c, ts);
    Looser(c, ts);
    LineComplete(c, ts, []);
    assert ts + [] == ts;
  }

  // ---- refusals ----

  lemma PanicUp(ts: seq<Token>)
    requires ParseExec(ts).Panic?
    ensures ParseLine(ts) == ParseExec(ts)
  {
    assert ParsePipe(ts) == ParseExec(ts);
  }

  lemma ExecRest(ts: seq<Token>)
    requires !Next(ts, "(")
    ensures ParseExec(ts) == Rest(Exec([]), ts)
  {
  }

  /** What follows some words and redirections decides. */
  lemma AfterItems(items: seq<Item>, k: seq<Token>)
    requires ItemsOk(items) && TokensOk(Spelt(items)) && |WordsOf(items)| < MAXARGS && !Next(Spelt(items) + k, "(")
    ensures var c := Wrapped(Exec(WordsOf(items)), items);
            && ArgCount(c) == |WordsOf(items)|
            && (Rest(c, k).Panic? ==> ParseLine(Spelt(items) + k) == Rest(c, k))
  {
    hide Next, TokensOk, ItemsOk, Spelt, WordsOf, Redirs, Args;
    assert [] + WordsOf(items) == WordsOf(items) && [] + items == items;
    ItemsParse([], [], items, k);
    ArgInside(Exec(WordsOf(items)), items, "");
    ExecRest(Spelt(items) + k);
    hide ParseLine, Rest;
    if ParseExec(Spelt(items) + k).Panic? { PanicUp(Spelt(items) + k); }
  }

  /** Up to nine words and their redirections, and what follows. */
  predicate Begins(items: seq<Item>, k: seq<Token>) {
    ItemsOk(items) && TokensOk(Spelt(items) + k) && |WordsOf(items)| <= 9
  }

  lemma NotBlock(items: seq<Item>, k: seq<Token>)
    requires Begins(items, k) && (items == [] ==> !Next(k, "("))
    ensures TokensOk(Spelt(items)) && !Next(Spelt(items) + k, "(")
  {
    BothOk(Spelt(items), k);
    if items != [] {
      assert ItemOk(items[0]) && TokenOk(Spelt(items)[0]) && (Spelt(items) + k)[0] == Spelt(items)[0];
    } else {
      assert Spelt(items) + k == k;
    }
  }

  /** A redirection without a file. */
  lemma RefusesMissingFile(items: seq<Item>, t: Token, k: seq<Token>)
    requires Begins(items, [t] + k) && ItemOk(Re(t, "")) && (k == [] || !k[0].Word?)
    ensures ParseLine(Spelt(items) + ([t] + k)) == Panic(MissingFile)
  {
    NotBlock(items, [t] + k);
    AfterItems(items, [t] + k);
  }

  /** A tenth word. */
  lemma RefusesTenWords(items: seq<Item>, w: string, k: seq<Token>)
    requires Begins(items, [Word(w)] + k) && |WordsOf(items)| == 9
    ensures ParseLine(Spelt(items) + ([Word(w)] + k)) == Panic(TooManyArgs)
  {
    BothOk(Spelt(items), [Word(w)] + k);
    assert TokenOk(([Word(w)] + k)[0]);
    NotBlock(items, [Word(w)] + k);
    AfterItems(items, [Word(w)] + k);
  }

  /** A parenthesis behind a word or a redirection. */
  lemma RefusesParen(items: seq<Item>, k: seq<Token>)
    requires Begins(items, [Sym('(')] + k) && items != []
    ensures ParseLine(Spelt(items) + ([Sym('(')] + k)) == Panic(Syntax)
  {
    NotBlock(items, [Sym('(')] + k);
    AfterItems(items, [Sym('(')] + k);
  }

  /** A parenthesis that is not closed. */
  lemma RefusesOpen(c: Cmd<string>, pre: seq<Token>)
    requires IsLine(c, pre) && TokensOk(pre)
    ensures ParseLine([Sym('(')] + pre) == Panic(MissingParen)
  {
    hide IsLine, TokensOk, ParseLine;
    LineComplete(c, pre, []);
    assert pre + [] == pre && ([Sym('(')] + pre)[1..] == pre;
    PanicUp([Sym('(')] + pre);
  }

  /** Anything behind a closing parenthesis without an opening one. */
  lemma RefusesClosed(s: string, c: Cmd<string>, pre: seq<Token>, k: seq<Token>)
    requires NulFree(s) && Lex(s) == pre + ([Sym(')')] + k) && IsLine(c, pre) && TokensOk(pre)
    ensures ParseCmd(s) == Panic(Leftovers)
  {
    hide IsLine, TokensOk, Lex, ParseLine;
    LineComplete(c, pre, [Sym(')')] + k);
  }
}
