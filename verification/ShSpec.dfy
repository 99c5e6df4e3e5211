/**
 The shell's command language: tokens, the grammar sh.c parses, and how to write a command
 so that the shell reads it back.
 */
module ShSpec {
  import opened Common

  const MAXARGS: nat := 10
  const O_RDONLY: int := 0
  const O_WRONLY: int := 1
  const O_CREATE: int := 0x200

  /** A parsed command; W is how words are represented. */
  datatype Cmd<W> =
    | Exec(argv: seq<W>)
    | Redir(cmd: Cmd<W>, file: W, mode: int, fd: int)
    | Pipe(left: Cmd<W>, right: Cmd<W>)
    | List(left: Cmd<W>, right: Cmd<W>)
    | Back(cmd: Cmd<W>)

  datatype Error = MissingFile | MissingParen | Syntax | TooManyArgs | Leftovers

  datatype Token = Sym(c: char) | Append | Word(w: string)

  // ---- characters and tokens ----

  predicate White(c: char) {
    c == ' ' || c == '\t' || c == '\r' || c == '\n' || c == 0x0B as char
  }

  predicate Symbol(c: char) {
    c == '<' || c == '|' || c == '>' || c == '&' || c == ';' || c == '(' || c == ')'
  }

  predicate WordChar(c: char) {
    !White(c) && !Symbol(c) && c != '\0'
  }

  predicate IsWord(w: string) {
    w != "" && forall i :: 0 <= i < |w| ==> WordChar(w[i])
  }

  function Blanks(s: string): (n: nat)
    ensures n <= |s| && (forall i :: 0 <= i < n ==> White(s[i])) && (n < |s| ==> !White(s[n]))
  {
    if s == "" || !White(s[0]) then 0 else 1 + Blanks(s[1..])
  }

  function WordEnd(s: string): (n: nat)
    ensures n <= |s| && (forall i :: 0 <= i < n ==> WordChar(s[i])) && (n < |s| ==> !WordChar(s[n]))
  {
    if s == "" || !WordChar(s[0]) then 0 else 1 + WordEnd(s[1..])
  }

  lemma WordEndIs(s: string, n: nat)
    requires n <= |s| && (forall i :: 0 <= i < n ==> WordChar(s[i])) && (n < |s| ==> !WordChar(s[n]))
    ensures WordEnd(s) == n
  {
    assert WordEnd(s) >= n;
  }

  /** How many characters the token at the start of s has. */
  function TokenLen(s: string): (n: nat)
    requires s != "" && s[0] != '\0'
    ensures n <= |s| && (!White(s[0]) ==> n > 0)
  {
    if s[0] == '>' && |s| > 1 && s[1] == '>' then 2
    else if Symbol(s[0]) then 1
    else WordEnd(s)
  }

  function TokenOf(s: string): (r: Token)
    requires s != "" && s[0] != '\0'
  {
    if s[0] == '>' && |s| > 1 && s[1] == '>' then Append
    else if Symbol(s[0]) then Sym(s[0])
    else Word(s[..WordEnd(s)])
  }

  /** The tokens of a line. */
  function Lex(s: string): (ts: seq<Token>)
    requires NulFree(s)
    decreases |s|
  {
    var k := Blanks(s);
    if k == |s| then [] else [TokenOf(s[k..])] + Lex(s[k..][TokenLen(s[k..])..])
  }

  /** The character that peek looks at. */
  function FirstChar(t: Token): (r: char) {
    match t
    case Sym(c) => c
    case Append => '>'
    case Word(w) => if w == "" then ' ' else w[0]
  }

  predicate Next(ts: seq<Token>, chars: string) {
    ts != [] && FirstChar(ts[0]) in chars
  }

  predicate TokenOk(t: Token) {
    match t
    case Sym(c) => Symbol(c)
    case Append => true
    case Word(w) => IsWord(w)
  }

  predicate TokensOk(ts: seq<Token>) {
    forall i :: 0 <= i < |ts| ==> TokenOk(ts[i])
  }

  lemma {:induction false} LexOk(s: string)
    requires NulFree(s)
    ensures TokensOk(Lex(s))
    decreases |s|
  {
    var k := Blanks(s);
    if k < |s| { LexOk(s[k..][TokenLen(s[k..])..]); }
  }

  // ---- the grammar ----

  datatype Parse = Ok(cmd: Cmd<string>, rest: seq<Token>) | Panic(error: Error)

  /** The redirection a token asks for; `>>` does the same as `>`. */
  function Redirect(c: Cmd<string>, t: Token, file: string): (r: Cmd<string>) {
    if t == Sym('<') then Redir(c, file, O_RDONLY, 0) else Redir(c, file, O_WRONLY + O_CREATE, 1)
  }

  /** An argument goes to the command inside the redirections. */
  function WithArg<W>(c: Cmd<W>, w: W): (r: Cmd<W>) {
    match c
    case Exec(argv) => Exec(argv + [w])
    case Redir(b, f, m, fd) => Redir(WithArg(b, w), f, m, fd)
    case _ => c
  }

  function Redirs(c: Cmd<string>, ts: seq<Token>): (r: Parse)
    ensures r.Ok? ==> |r.rest| <= |ts|
    decreases |ts|
  {
    if !Next(ts, "<>") then Ok(c, ts)
    else if |ts| < 2 || !ts[1].Word? then Panic(MissingFile)
    else Redirs(Redirect(c, ts[0], ts[1].w), ts[2..])
  }

  function Args(c: Cmd<string>, argc: nat, ts: seq<Token>): (r: Parse)
    ensures r.Ok? ==> |r.rest| <= |ts|
    decreases |ts|
  {
    if Next(ts, "|)&;") || ts == [] then Ok(c, ts)
    else if !ts[0].Word? then Panic(Syntax)
    else if argc + 1 >= MAXARGS then Panic(TooManyArgs)
    else
      var r := Redirs(WithArg(c, ts[0].w), ts[1..]);
      if r.Panic? then r else Args(r.cmd, argc + 1, r.rest)
  }

  function ParseExec(ts: seq<Token>): (r: Parse)
    ensures r.Ok? ==> |r.rest| <= |ts|
    decreases |ts|, 1
  {
    if Next(ts, "(") then ParseBlock(ts)
    else
      var r := Redirs(Exec([]), ts);
      if r.Panic? then r else Args(r.cmd, 0, r.rest)
  }

  function ParseBlock(ts: seq<Token>): (r: Parse)
    requires ts != []
    ensures r.Ok? ==> |r.rest| <= |ts|
    decreases |ts|, 0
  {
    var l := ParseLine(ts[1..]);
    if l.Panic? then l
    else if !Next(l.rest, ")") then Panic(MissingParen)
    else Redirs(l.cmd, l.rest[1..])
  }

  function ParsePipe(ts: seq<Token>): (r: Parse)
    ensures r.Ok? ==> |r.rest| <= |ts|
    decreases |ts|, 2
  {
    var e := ParseExec(ts);
    if e.Panic? || !Next(e.rest, "|") then e
    else
      var p := ParsePipe(e.rest[1..]);
      if p.Panic? then p else Ok(Pipe(e.cmd, p.cmd), p.rest)
  }

  function ParseLine(ts: seq<Token>): (r: Parse)
    ensures r.Ok? ==> |r.rest| <= |ts|
    decreases |ts|, 4
  {
    var p := ParsePipe(ts);
    if p.Panic? then p else AfterPipe(p.cmd, p.rest)
  }

  /** What follows a pipeline: any number of &, and a ; with the rest of the line. */
  function AfterPipe(c: Cmd<string>, ts: seq<Token>): (r: Parse)
    ensures r.Ok? ==> |r.rest| <= |ts|
    decreases |ts|, 3
  {
    if Next(ts, "&") then AfterPipe(Back(c), ts[1..])
    else if Next(ts, ";") then
      var l := ParseLine(ts[1..]);
      if l.Panic? then l else Ok(List(c, l.cmd), l.rest)
    else Ok(c, ts)
  }

  /** parsecmd. */
  function ParseCmd(s: string): (r: Parse)
    requires NulFree(s)
  {
    var r := ParseLine(Lex(s));
    if r.Ok? && r.rest != [] then Panic(Leftovers) else r
  }

  // ---- well-formed commands ----

  predicate Proper(c: Cmd<string>) {
    match c
    case Exec(argv) => |argv| < MAXARGS && forall i :: 0 <= i < |argv| ==> IsWord(argv[i])
    case Redir(b, f, m, fd) => Proper(b) && IsWord(f) && ((m == O_RDONLY && fd == 0) || (m == O_WRONLY + O_CREATE
        && fd == 1))
    case Pipe(l, r) => Proper(l) && Proper(r)
    case List(l, r) => Proper(l) && Proper(r)
    case Back(b) => Proper(b)
  }

  /** The arguments of a command under its redirections. */
  function ArgCount(c: Cmd<string>): (r: int) {
    match c
    case Exec(argv) => |argv|
    case Redir(b, _, _, _) => ArgCount(b)
    case _ => -1
  }

  lemma RedirsProper(c: Cmd<string>, ts: seq<Token>)
    requires Proper(c) && TokensOk(ts) && Redirs(c, ts).Ok?
    ensures Proper(Redirs(c, ts).cmd) && TokensOk(Redirs(c, ts).rest)
    ensures ArgCount(Redirs(c, ts).cmd) == ArgCount(c)
    decreases |ts|
  {
    if Next(ts, "<>") {
      assert TokenOk(ts[1]);
      RedirsProper(Redirect(c, ts[0], ts[1].w), ts[2..]);
    }
  }

  lemma {:induction c} WithArgProper(c: Cmd<string>, w: string)
    requires Proper(c) && IsWord(w) && 0 <= ArgCount(c) < MAXARGS - 1
    ensures Proper(WithArg(c, w)) && ArgCount(WithArg(c, w)) == ArgCount(c) + 1
  {
  }

  lemma {:induction false} ArgsProper(c: Cmd<string>, argc: nat, ts: seq<Token>)
    requires Proper(c) && TokensOk(ts) && ArgCount(c) == argc && Args(c, argc, ts).Ok?
    ensures Proper(Args(c, argc, ts).cmd) && TokensOk(Args(c, argc, ts).rest)
    decreases |ts|
  {
    if !Next(ts, "|)&;") && ts != [] {
      assert TokenOk(ts[0]);
      WithArgProper(c, ts[0].w);
      RedirsProper(WithArg(c, ts[0].w), ts[1..]);
      var r := Redirs(WithArg(c, ts[0].w), ts[1..]);
      ArgsProper(r.cmd, argc + 1, r.rest);
    }
  }

  lemma {:induction false} ExecProper(ts: seq<Token>)
    requires TokensOk(ts) && ParseExec(ts).Ok?
    ensures Proper(ParseExec(ts).cmd) && TokensOk(ParseExec(ts).rest)
    decreases |ts|, 1
  {
    if Next(ts, "(") {
      LineProper(ts[1..]);
      var l := ParseLine(ts[1..]);
      RedirsProper(l.cmd, l.rest[1..]);
    } else {
      RedirsProper(Exec([]), ts);
      var r := Redirs(Exec([]), ts);
      ArgsProper(r.cmd, 0, r.rest);
    }
  }

  lemma {:induction false} PipeProper(ts: seq<Token>)
    requires TokensOk(ts) && ParsePipe(ts).Ok?
    ensures Proper(ParsePipe(ts).cmd) && TokensOk(ParsePipe(ts).rest)
    decreases |ts|, 2
  {
    ExecProper(ts);
    var e := ParseExec(ts);
    if Next(e.rest, "|") { PipeProper(e.rest[1..]); }
  }

  lemma {:induction false} AfterProper(c: Cmd<string>, ts: seq<Token>)
    requires Proper(c) && TokensOk(ts) && AfterPipe(c, ts).Ok?
    ensures Proper(AfterPipe(c, ts).cmd) && TokensOk(AfterPipe(c, ts).rest)
    decreases |ts|, 3
  {
    if Next(ts, "&") { AfterProper(Back(c), ts[1..]); }
    else if Next(ts, ";") { LineProper(ts[1..]); }
  }

  lemma {:induction false} LineProper(ts: seq<Token>)
    requires TokensOk(ts) && ParseLine(ts).Ok?
    ensures Proper(ParseLine(ts).cmd) && TokensOk(ParseLine(ts).rest)
    decreases |ts|, 4
  {
    PipeProper(ts);
    AfterProper(ParsePipe(ts).cmd, ParsePipe(ts).rest);
  }
}
