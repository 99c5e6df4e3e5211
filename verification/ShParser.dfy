/**
 The functions of sh.c that move the cursor, proved against the grammar.
 */
module ShParser {
  import opened Common
  import opened ShSpec
  import opened Sh

  /** The tokens from s to the end of the line. */
  ghost function Tokens(b: string, s: nat, es: nat): (r: seq<Token>)
    requires s <= es < |b| && NulFree(b[..es])
  {
    SubNulFree(b, s, es);
    Lex(b[s..es])
  }

  lemma SubNulFree(b: string, s: nat, es: nat)
    requires s <= es < |b| && NulFree(b[..es])
    ensures NulFree(b[s..es])
  {
    forall i | s <= i < es
      ensures b[i] != NUL
    {
      assert b[i] == b[..es][i];
    }
  }

  /** Leading blanks change nothing. */
  lemma SkipTokens(b: string, s: nat, t: nat, es: nat)
    requires s <= t <= es < |b| && NulFree(b[..es])
    requires (forall i :: s <= i < t ==> White(b[i])) && (t < es ==> !White(b[t]))
    ensures Tokens(b, s, es) == Tokens(b, t, es)
    ensures t == es <==> Tokens(b, t, es) == []
    ensures t < es ==> b[t] != NUL && b[t..es][0] == b[t] && Tokens(b, t, es)[0] == TokenOf(b[t..es])
  {
    SubNulFree(b, s, es);
    SubNulFree(b, t, es);
    BlanksAre(b[s..es], t - s);
    BlanksAre(b[t..es], 0);
    assert b[s..es][t-s..] == b[t..es] && b[t..es][0..] == b[t..es];
    if t < es { assert b[t..es][0] == b[t]; }
  }

  lemma BlanksAre(u: string, n: nat)
    requires n <= |u| && (forall i :: 0 <= i < n ==> White(u[i])) && (n < |u| ==> !White(u[n]))
    ensures Blanks(u) == n
  {
    assert Blanks(u) >= n;
  }

  lemma OneTokenLess(b: string, t: nat, e: nat, es: nat)
    requires t < es < |b| && NulFree(b[..es]) && !White(b[t]) && b[t] != NUL && b[t..es][0] == b[t]
    requires e == t + TokenLen(b[t..es])
    ensures t < e <= es && Tokens(b, t, es) == [TokenOf(b[t..es])] + Tokens(b, e, es)
  {
    SubNulFree(b, t, es);
    SubNulFree(b, e, es);
    BlanksAre(b[t..es], 0);
    assert b[t..es][0..] == b[t..es];
    assert b[t..es][e-t..] == b[e..es];
  }

  /** What gettoken returns for a token. */
  function Code(t: Token): (r: char) {
    match t
    case Sym(c) => c
    case Append => '+'
    case Word(_) => 'a'
  }

  class Cursor {
    const buf: array<char>      // the line and its NUL
    const es: nat
    var s: nat

    ghost predicate Valid()
      reads this, buf
    {
      s <= es < buf.Length && buf[es] == NUL && NulFree(buf[..][..es])
    }

    ghost function Left(): (r: seq<Token>)
      requires Valid()
      reads this, buf
    {
      Tokens(buf[..], s, es)
    }

    constructor (line: array<char>, len: nat)
      requires len < line.Length && line[len] == NUL && NulFree(line[..][..len])
      ensures Valid() && buf == line && es == len && s == 0
    {
      buf, es, s := line, len, 0;
    }

    method SkipWhite()
      requires Valid()
      modifies this`s
      ensures Valid() && old(s) <= s && Left() == old(Left())
      ensures s == es <==> Left() == []
      ensures s < es ==>
                !White(buf[s]) && buf[s] != NUL && buf[..][s..es][0] == buf[s] && Left()[0] == TokenOf(buf[..][s..es])
    {
      ghost var s0 := s;
      while s < es && White(buf[s])
        invariant s0 <= s <= es && forall i :: s0 <= i < s ==> White(buf[i])
        decreases es - s
      {
        s := s + 1;
      }
      SkipTokens(buf[..], s0, s, es);
    }

    /** peek. */
    method Peek(toks: string) returns (r: bool)
      requires Valid() && NUL !in toks
      modifies this`s
      ensures Valid() && old(s) <= s && Left() == old(Left()) && (r <==> Next(Left(), toks))
      ensures s == es <==> Left() == []
    {
      SkipWhite();
      if s < es { FirstIs(buf[..][s..es]); }
      r := buf[s] != NUL && buf[s] in toks;
    }

    /** gettoken: the token's code, and where it begins and ends. */
    method Gettoken() returns (ret: char, q: nat, eq: nat)
      requires Valid()
      modifies this`s
      ensures Valid()
      ensures old(Left()) == [] ==> ret == NUL && Left() == []
      ensures old(Left()) != [] ==> Left() == old(Left())[1..] && ret == Code(old(Left())[0]) && TokenOk(old(Left())[0])
      ensures old(Left()) != [] && old(Left())[0].Word? ==>
                Placed(buf[..], Span(q, eq)) && Slice(buf[..], Span(q, eq)) == old(Left())[0].w
    {
      SkipWhite();
      q, ret := s, buf[s];
      if s < es {
        ghost var u := buf[..][s..es];
        TokenStarts(buf[..], s, es);
        TokensAreOk(buf[..], s, es);
        ret := Pass();
        OneTokenLess(buf[..], q, s, es);
        TokenPlaced(buf[..], q, s, es);
      }
      eq := s;
      SkipWhite();
    }

    /** The switch in gettoken: the cursor passes the token. */
    method Pass() returns (ret: char)
      requires Valid() && s < es && !White(buf[s]) && buf[s] != NUL
      requires buf[..][s..es][0] == buf[s] && (s + 1 < es ==> buf[..][s..es][1] == buf[s+1])
      modifies this`s
      ensures s == old(s) + TokenLen(buf[..][old(s)..es]) && s <= es && ret == Code(TokenOf(buf[..][old(s)..es]))
    {
      ghost var u, s0 := buf[..][s..es], s;
      ret := buf[s];
      if buf[s] == '>' {
        s := s + 1;
        if buf[s] == '>' {
          ret := '+';
          s := s + 1;
        }
      } else if Symbol(buf[s]) {
        s := s + 1;
      } else {
        ret := 'a';
        while s < es && !White(buf[s]) && !Symbol(buf[s])
          invariant s0 <= s <= es && forall i :: 0 <= i < s - s0 ==> WordChar(u[i])
          decreases es - s
        {
          assert u[s-s0] == buf[s] && buf[s] == buf[..][..es][s];
          s := s + 1;
        }
        assert s < es ==> u[s-s0] == buf[s];
        WordEndIs(u, s - s0);
      }
    }

    ghost predicate Agrees(o: Outcome, p: Parse)
      requires Valid()
      reads this, buf
    {
      match p
      case Ok(c, rest) => o.Parsed? && AllPlaced(buf[..], o.cmd) && Read(buf[..], o.cmd) == c && Left() == rest
      case Panic(e) => o == Failed(e)
    }

    /** parseredirs. */
    method Parseredirs(cmd: Cmd<Span>) returns (o: Outcome)
      requires Valid() && AllPlaced(buf[..], cmd)
      modifies this`s
      ensures Valid() && Agrees(o, Redirs(Read(buf[..], cmd), old(Left())))
    {
      hide Tokens, Read, Redirs, AllPlaced, Placed, Slice, Code, Next, TokenOk, NulFree;
      var c := cmd;
      var more := Peek("<>");
      while more
        invariant Valid() && AllPlaced(buf[..], c)
        invariant Redirs(Read(buf[..], c), Left()) == Redirs(Read(buf[..], cmd), old(Left()))
        invariant more <==> Next(Left(), "<>")
        decreases |Left()|
      {
        ghost var ts := Left();
        NextSome(ts, "<>");
        var tok, _, _ := Gettoken();
        ghost var us := Left();
        var ret, q, eq := Gettoken();
        RedirNext(buf[..], c, ts, us, tok, ret, Span(q, eq));
        if ret != 'a' { return Failed(MissingFile); }
        c := NewRedir(c, tok, Span(q, eq));
        more := Peek("<>");
      }
      NoRedir(Read(buf[..], c), Left());
      o := Parsed(c);
    }

    /** parseexec. */
    method Parseexec() returns (o: Outcome)
      requires Valid()
      modifies this`s
      ensures Valid() && Agrees(o, ParseExec(old(Left())))
      decreases |Left()|, 1
    {
      var paren := Peek("(");
      if paren {
        o := Parseblock();
        return;
      }
      NoWords(buf[..]);
      o := Parseredirs(Exec([]));
      if o.Parsed? { o := Parseargs(o.cmd); }
    }

    /** parseexec's loop over the arguments. */
    method Parseargs(cmd: Cmd<Span>) returns (o: Outcome)
      requires Valid() && AllPlaced(buf[..], cmd)
      modifies this`s
      ensures Valid() && Agrees(o, Args(Read(buf[..], cmd), 0, old(Left())))
    {
      hide Tokens, Read, Args, Redirs, AllPlaced, Placed, Slice, Code, Next, TokenOk, WithArg, NulFree;
      var c, argc := cmd, 0;
      var stop := Peek("|)&;");
      while !stop
        invariant Valid() && AllPlaced(buf[..], c)
        invariant Args(Read(buf[..], c), argc, Left()) == Args(Read(buf[..], cmd), 0, old(Left()))
        invariant stop <==> Next(Left(), "|)&;")
        decreases |Left()|
      {
        ghost var ts := Left();
        var tok, q, eq := Gettoken();
        ArgNext(buf[..], c, argc, ts, tok, Span(q, eq));
        if tok == NUL { break; }
        if tok != 'a' { return Failed(Syntax); }
        c := WithArg(c, Span(q, eq));
        argc := argc + 1;
        if argc >= MAXARGS { return Failed(TooManyArgs); }
        ghost var us := Left();
        o := Parseredirs(c);
        if o.Failed? { return; }
        ArgRedirs(Read(buf[..], c), us);
        c := o.cmd;
        stop := Peek("|)&;");
      }
      ArgsEnd(Read(buf[..], c), argc, Left());
      o := Parsed(c);
    }

    /** parseblock; parseexec has seen the parenthesis. */
    method Parseblock() returns (o: Outcome)
      requires Valid() && Next(Left(), "(")
      modifies this`s
      ensures Valid() && Agrees(o, ParseBlock(old(Left())))
      decreases |Left()|, 0
    {
      var _, _, _ := Gettoken();
      o := Parseline();
      if o.Failed? { return; }
      var close := Peek(")");
      if !close { return Failed(MissingParen); }
      var _, _, _ := Gettoken();
      o := Parseredirs(o.cmd);
    }

    /** parsepipe. */
    method Parsepipe() returns (o: Outcome)
      requires Valid()
      modifies this`s
      ensures Valid() && Agrees(o, ParsePipe(old(Left())))
      decreases |Left()|, 2
    {
      o := Parseexec();
      if o.Failed? { return; }
      var bar := Peek("|");
      if bar {
        var left := o.cmd;
        var _, _, _ := Gettoken();
        o := Parsepipe();
        if o.Parsed? { o := Parsed(Pipe(left, o.cmd)); }
      }
    }

    /** parseline. */
    method Parseline() returns (o: Outcome)
      requires Valid()
      modifies this`s
      ensures Valid() && Agrees(o, ParseLine(old(Left())))
      decreases |Left()|, 4
    {
      hide Tokens, ParsePipe, Placed, Code, TokenOk, NulFree, Next;
      o := Parsepipe();
      if o.Failed? { return; }
      var c := o.cmd;
      var amp := Peek("&");
      while amp
        invariant Valid() && AllPlaced(buf[..], c) && |Left()| <= |old(Left())|
        invariant AfterPipe(Read(buf[..], c), Left()) == ParseLine(old(Left()))
        invariant amp <==> Next(Left(), "&")
        decreases |Left()|
      {
        NextSome(Left(), "&");
        var _, _, _ := Gettoken();
        c := Back(c);
        amp := Peek("&");
      }
      o := Parseseq(c);
    }

    /** The end of parseline: a ; and the rest of the line, if any. */
    method Parseseq(c: Cmd<Span>) returns (o: Outcome)
      requires Valid() && AllPlaced(buf[..], c) && !Next(Left(), "&")
      modifies this`s
      ensures Valid() && Agrees(o, AfterPipe(Read(buf[..], c), old(Left())))
      decreases |Left()|, 3
    {
      hide Tokens, ParseLine, Placed, Code, TokenOk, NulFree, Next;
      o := Parsed(c);
      var semi := Peek(";");
      if semi {
        NextSome(Left(), ";");
        var _, _, _ := Gettoken();
        o := Parseline();
        if o.Parsed? { o := Parsed(List(c, o.cmd)); }
      }
    }

    /** nulterminate. */
    method Nulterminate(cmd: Cmd<Span>)
      requires EndsIn(cmd, buf.Length)
      modifies buf
      ensures Cut(old(buf[..]), buf[..], Ends(cmd))
      decreases cmd
    {
      match cmd {
        case Exec(argv) =>
          var i := 0;
          while i < |argv|
            invariant 0 <= i <= |argv|
            invariant Cut(old(buf[..]), buf[..], set k | 0 <= k < i :: argv[k].eq)
          {
            assert argv[i] in argv;
            buf[argv[i].eq] := NUL;
            i := i + 1;
          }
          assert (set k | 0 <= k < i :: argv[k].eq) == Ends(cmd);
        case Redir(d, f, _, _) =>
          Nulterminate(d);
          buf[f.eq] := NUL;
        case Pipe(l, r) =>
          Nulterminate(l);
          Nulterminate(r);
        case List(l, r) =>
          Nulterminate(l);
          Nulterminate(r);
        case Back(d) =>
          Nulterminate(d);
      }
    }

    /** parsecmd: what the grammar says, every word ending up as a C string in the line. */
    method Parsecmd() returns (o: Outcome)
      requires Valid() && s == 0
      modifies this`s, buf
      ensures match ParseCmd(old(buf[..])[..es])
              case Ok(c, _) => o.Parsed? && Strings(buf[..], o.cmd) == c
              case Panic(e) => o == Failed(e)
    {
      ghost var b := buf[..];
      assert b[0..es] == b[..es];
      o := Parseline();
      if o.Failed? { return; }
      var _ := Peek("");
      if s != es { return Failed(Leftovers); }
      EndsFit(b, o.cmd);
      Nulterminate(o.cmd);
      Nulterminated(b, buf[..], o.cmd);
    }
  }

  lemma FirstIs(u: string)
    requires u != "" && u[0] != NUL && !White(u[0])
    ensures FirstChar(TokenOf(u)) == u[0]
  {
    if !Symbol(u[0]) { assert WordEnd(u) > 0 && u[..WordEnd(u)][0] == u[0]; }
  }

  lemma TokenStarts(b: string, s: nat, es: nat)
    requires s < es < |b|
    ensures b[s..es][0] == b[s] && (s + 1 < es ==> b[s..es][1] == b[s+1])
  {
  }

  lemma TokenPlaced(b: string, t: nat, e: nat, es: nat)
    requires t < es < |b| && NulFree(b[..es]) && b[es] == NUL && !White(b[t]) && b[t] != NUL && b[t..es][0] == b[t]
    requires e == t + TokenLen(b[t..es])
    ensures TokenOf(b[t..es]).Word? ==> Placed(b, Span(t, e)) && Slice(b, Span(t, e)) == TokenOf(b[t..es]).w
  {
    var u := b[t..es];
    if TokenOf(u).Word? {
      assert forall i :: 0 <= i < |u| ==> u[i] == b[t+i];
      forall i | t <= i < e
        ensures WordChar(b[i])
      {
        assert u[i-t] == b[i];
      }
      assert e < es ==> u[e-t] == b[e];
      assert b[t..e] == u[..e-t];
    }
  }

  lemma TokensAreOk(b: string, t: nat, es: nat)
    requires t <= es < |b| && NulFree(b[..es])
    ensures TokensOk(Tokens(b, t, es)) && (Tokens(b, t, es) != [] ==> TokenOk(Tokens(b, t, es)[0]))
  {
    SubNulFree(b, t, es);
    LexOk(b[t..es]);
  }

  lemma NextSome(ts: seq<Token>, chars: string)
    requires Next(ts, chars)
    ensures ts != []
  {
  }

  // ---- the loops, one token at a time ----

  /** The redirection that parseredirs makes. */
  function NewRedir(c: Cmd<Span>, tok: char, w: Span): (r: Cmd<Span>) {
    if tok == '<' then Redir(c, w, O_RDONLY, 0) else Redir(c, w, O_WRONLY + O_CREATE, 1)
  }

  lemma RedirNext(b: string, c: Cmd<Span>, ts: seq<Token>, us: seq<Token>, tok: char, ret: char, w: Span)
    requires Next(ts, "<>") && AllPlaced(b, c) && us == ts[1..] && tok == Code(ts[0]) && TokenOk(ts[0])
    requires ret == if us == [] then NUL else Code(us[0])
    requires us != [] ==> TokenOk(us[0]) && (us[0].Word? ==> Placed(b, w) && Slice(b, w) == us[0].w)
    ensures ret != 'a' ==> Redirs(Read(b, c), ts) == Panic(MissingFile)
    ensures ret == 'a' ==> us != [] && AllPlaced(b, NewRedir(c, tok, w))
                           && Redirs(Read(b, c), ts) == Redirs(Read(b, NewRedir(c, tok, w)), us[1..])
  {
    if us != [] { assert ts[1] == us[0] && ts[2..] == us[1..]; }
  }

  lemma NoRedir(c: Cmd<string>, ts: seq<Token>)
    requires !Next(ts, "<>")
    ensures Redirs(c, ts) == Ok(c, ts)
  {
  }

  lemma ArgNext(b: string, c: Cmd<Span>, argc: nat, ts: seq<Token>, tok: char, w: Span)
    requires !Next(ts, "|)&;") && AllPlaced(b, c) && tok == (if ts == [] then NUL else Code(ts[0]))
    requires ts != [] ==> TokenOk(ts[0]) && (ts[0].Word? ==> Placed(b, w) && Slice(b, w) == ts[0].w)
    ensures tok == NUL <==> ts == []
    ensures tok != NUL && tok != 'a' ==> Args(Read(b, c), argc, ts) == Panic(Syntax)
    ensures tok == 'a' ==> AllPlaced(b, WithArg(c, w))
    ensures tok == 'a' && argc + 1 >= MAXARGS ==> Args(Read(b, c), argc, ts) == Panic(TooManyArgs)
    ensures tok == 'a' && argc + 1 < MAXARGS ==>
              Args(Read(b, c), argc, ts) == ArgsFrom(Redirs(Read(b, WithArg(c, w)), ts[1..]), argc + 1)
  {
    if tok == 'a' { ReadWithArg(b, c, w); }
  }

  function ArgsFrom(r: Parse, argc: nat): (res: Parse) {
    if r.Panic? then r else Args(r.cmd, argc, r.rest)
  }

  lemma ArgRedirs(c: Cmd<string>, ts: seq<Token>)
    ensures Redirs(c, ts).Ok? ==> |Redirs(c, ts).rest| <= |ts|
  {
  }

  lemma ArgsEnd(c: Cmd<string>, argc: nat, ts: seq<Token>)
    requires Next(ts, "|)&;") || ts == []
    ensures Args(c, argc, ts) == Ok(c, ts)
  {
  }

  lemma NoWords(b: string)
    ensures AllPlaced(b, Exec([])) && Read(b, Exec([])) == Exec([])
  {
  }

  predicate EndsIn(c: Cmd<Span>, n: nat) {
    match c
    case Exec(argv) => forall i :: 0 <= i < |argv| ==> argv[i].eq < n
    case Redir(d, f, _, _) => EndsIn(d, n) && f.eq < n
    case Pipe(l, r) => EndsIn(l, n) && EndsIn(r, n)
    case List(l, r) => EndsIn(l, n) && EndsIn(r, n)
    case Back(d) => EndsIn(d, n)
  }

  lemma {:induction c} EndsFit(b: string, c: Cmd<Span>)
    requires AllPlaced(b, c)
    ensures EndsIn(c, |b|)
  {
  }
}
