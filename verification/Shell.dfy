/**
 The command parser of sh.c.

 The program parses in one pass over the characters, with a cursor that every routine advances.
 The specification works in two stages: `Lex` cuts the line into tokens, and a recursive-descent
 parser on token lists builds the tree.  The parser does not look into words, so it is generic in
 them: the program's words are spans of the line, the words of a tree to be printed are strings.
 */
module Shell {

  const MAXARGS := 10
  const O_RDONLY := 0
  const O_WRONLY := 1
  const O_CREATE := 0x200

  datatype Cmd<W> =
    | Exec(argv: seq<W>)
    | Redir(cmd: Cmd<W>, file: W, mode: int, fd: int)
    | Pipe(left: Cmd<W>, right: Cmd<W>)
    | List(left: Cmd<W>, right: Cmd<W>)
    | Back(cmd: Cmd<W>)

  datatype Token<W> = Sym(kind: char) | Word(word: W)

  datatype Span = Span(q: nat, eq: nat)

  /** The outcome of a routine: the tree and the tokens left over, or a panic with its message. */
  datatype Parsed<W> = Panic(message: string) | Parsed(cmd: Cmd<W>, rest: seq<Token<W>>)

  // ---------- characters and tokens ----------

  predicate IsSpace(c: char) {
    c in [' ', '\t', '\r', '\n', 11 as char]
  }

  predicate IsSymbol(c: char) {
    c in ['<', '|', '>', '&', ';', '(', ')']
  }

  predicate WordChar(c: char) {
    !IsSpace(c) && !IsSymbol(c)
  }

  ghost predicate NulFree(line: string) {
    forall i :: 0 <= i < |line| ==> line[i] != '\0'
  }

  /** A maximal run of word characters to the right of `q`. */
  ghost predicate GoodSpan(line: string, w: Span) {
    && w.q < w.eq <= |line| && (forall i :: w.q <= i < w.eq ==> WordChar(line[i]))
    && (w.eq < |line| ==> !WordChar(line[w.eq]))
  }

  function WordEnd(line: string, i: nat): (r: nat)
    requires i <= |line|
    ensures i <= r <= |line| && (forall j :: i <= j < r ==> WordChar(line[j])) && (r < |line| ==> !WordChar(line[r]))
    decreases |line| - i
  {
    if i < |line| && WordChar(line[i]) then WordEnd(line, i + 1) else i
  }

  /** The end of the token that starts at `i`. */
  function TokenEnd(line: string, i: nat): (r: nat)
    requires i < |line| && !IsSpace(line[i])
    ensures i < r <= |line|
  {
    if IsSymbol(line[i]) then if line[i] == '>' && i + 1 < |line| && line[i + 1] == '>' then i + 2 else i + 1
    else WordEnd(line, i)
  }

  function TokenAt(line: string, i: nat): Token<Span>
    requires i < |line| && !IsSpace(line[i])
  {
    if IsSymbol(line[i]) then Sym(if TokenEnd(line, i) == i + 2 then '+' else line[i]) else Word(Span(i, WordEnd(line, i)))
  }

  /** The tokens of the line from position `i` on. */
  function Lex(line: string, i: nat): (ts: seq<Token<Span>>)
    requires i <= |line|
    ensures forall k :: 0 <= k < |ts| && ts[k].Word? ==> GoodSpan(line, ts[k].word)
    decreases |line| - i
  {
    if i == |line| then []
    else if IsSpace(line[i]) then Lex(line, i + 1)
    else [TokenAt(line, i)] + Lex(line, TokenEnd(line, i))
  }

  function Text(line: string, w: Span): string {
    if w.q <= w.eq <= |line| then line[w.q..w.eq] else ""
  }

  /** The characters of the line from `i` on that are not white space. */
  function Squeezed(line: string, i: nat): string
    requires i <= |line|
    decreases |line| - i
  {
    if i == |line| then "" else (if IsSpace(line[i]) then "" else [line[i]]) + Squeezed(line, i + 1)
  }

  /** The characters that the tokens were read from. */
  function Spelled(line: string, ts: seq<Token<Span>>): string {
    if ts == [] then ""
    else (if ts[0].Sym? then SymbolText(ts[0].kind) else Text(line, ts[0].word)) + Spelled(line, ts[1..])
  }

  function SymbolText(kind: char): string {
    if kind == '+' then ">>" else [kind]
  }

  lemma {:induction false} SqueezedRun(line: string, i: nat, j: nat)
    requires i <= j <= |line| && forall k :: i <= k < j ==> !IsSpace(line[k])
    ensures Squeezed(line, i) == line[i..j] + Squeezed(line, j)
    decreases j - i
  {
    if i < j {
      SqueezedRun(line, i + 1, j);
    }
  }

  lemma SpelledFirst(line: string, t: Token<Span>, ts: seq<Token<Span>>)
    ensures Spelled(line, [t] + ts) == (if t.Sym? then SymbolText(t.kind) else Text(line, t.word)) + Spelled(line, ts)
  {
    assert ([t] + ts)[1..] == ts;
  }

  lemma TokenSpells(line: string, i: nat)
    requires i < |line| && !IsSpace(line[i])
    ensures var t := TokenAt(line, i);
            (if t.Sym? then SymbolText(t.kind) else Text(line, t.word)) == line[i..TokenEnd(line, i)]
  {
  }

  /** The tokens spell exactly the line without its white space: no character is lost, doubled or moved. */
  lemma {:induction false} LexSpells(line: string, i: nat)
    requires i <= |line|
    ensures Spelled(line, Lex(line, i)) == Squeezed(line, i)
    decreases |line| - i
  {
    if i < |line| {
      if IsSpace(line[i]) {
        LexSpells(line, i + 1);
      } else {
        var j := TokenEnd(line, i);
        SqueezedRun(line, i, j);
        LexSpells(line, j);
        SpelledFirst(line, TokenAt(line, i), Lex(line, j));
        TokenSpells(line, i);
      }
    }
  }

  // ---------- parsing token lists ----------

  predicate StartsWith<W>(ts: seq<Token<W>>, kinds: string) {
    |ts| > 0 && ts[0].Sym? && ts[0].kind in kinds
  }

  /** All the words of a token list and of a tree. */
  ghost function TokenWords<W>(ts: seq<Token<W>>): multiset<W> {
    if ts == [] then multiset{}
    else (if ts[0].Word? then multiset{ts[0].word} else multiset{}) + TokenWords(ts[1..])
  }

  ghost function CmdWords<W>(c: Cmd<W>): multiset<W> {
    match c
    case Exec(argv) => multiset(argv)
    case Redir(cmd, file, _, _) => CmdWords(cmd) + multiset{file}
    case Pipe(left, right) => CmdWords(left) + CmdWords(right)
    case List(left, right) => CmdWords(left) + CmdWords(right)
    case Back(cmd) => CmdWords(cmd)
  }

  /** Commands the shell can represent: fewer than MAXARGS words each, and two kinds of redirection. */
  ghost predicate WellFormed<W>(c: Cmd<W>) {
    match c
    case Exec(argv) => |argv| < MAXARGS
    case Redir(cmd, _, mode, fd) =>
      WellFormed(cmd) && ((mode == O_RDONLY && fd == 0) || (mode == O_WRONLY + O_CREATE && fd == 1))
    case Pipe(left, right) => WellFormed(left) && WellFormed(right)
    case List(left, right) => WellFormed(left) && WellFormed(right)
    case Back(cmd) => WellFormed(cmd)
  }

  /** Parsing turned `ts`, with `c` built already, into `r`: nothing is lost or invented. */
  ghost predicate Conserves<W>(c: Cmd<W>, ts: seq<Token<W>>, r: Parsed<W>) {
    r.Parsed? ==> CmdWords(r.cmd) + TokenWords(r.rest) == CmdWords(c) + TokenWords(ts)
  }

  /** The command under the redirections of parseexec. */
  predicate IsSimple<W>(c: Cmd<W>) {
    c.Exec? || (c.Redir? && IsSimple(c.cmd))
  }

  function Argc<W>(c: Cmd<W>): nat
    requires IsSimple(c)
  {
    if c.Exec? then |c.argv| else Argc(c.cmd)
  }

  function AddArg<W>(c: Cmd<W>, w: W): (r: Cmd<W>)
    requires IsSimple(c)
    ensures IsSimple(r) && Argc(r) == Argc(c) + 1 && CmdWords(r) == CmdWords(c) + multiset{w}
    ensures WellFormed(c) && Argc(r) < MAXARGS ==> WellFormed(r)
  {
    if c.Exec? then Exec(c.argv + [w]) else Redir(AddArg(c.cmd, w), c.file, c.mode, c.fd)
  }

  function RedirOf<W>(c: Cmd<W>, kind: char, w: W): Cmd<W> {
    if kind == '<' then Redir(c, w, O_RDONLY, 0) else Redir(c, w, O_WRONLY + O_CREATE, 1)
  }

  function Redirs<W>(c: Cmd<W>, ts: seq<Token<W>>): (r: Parsed<W>)
    requires WellFormed(c)
    ensures Conserves(c, ts, r) && (r.Parsed? ==> |r.rest| <= |ts| && WellFormed(r.cmd))
    ensures r.Parsed? && IsSimple(c) ==> IsSimple(r.cmd) && Argc(r.cmd) == Argc(c)
    decreases |ts|
  {
    if !StartsWith(ts, "<>+") then Parsed(c, ts)
    else if |ts| < 2 || ts[1].Sym? then Panic("missing file for redirection")
    else
      assert ts[1..][1..] == ts[2..];
      Redirs(RedirOf(c, ts[0].kind, ts[1].word), ts[2..])
  }

  /** `>>` is parsed like `>`. */
  lemma AppendIsCreate<W>(c: Cmd<W>, w: W, rest: seq<Token<W>>)
    requires WellFormed(c)
    ensures Redirs(c, [Sym('+'), Word(w)] + rest) == Redirs(c, [Sym('>'), Word(w)] + rest) == Redirs(RedirOf(c, '>', w), rest)
  {
    assert ([Sym('+'), Word(w)] + rest)[2..] == rest == ([Sym('>'), Word(w)] + rest)[2..];
  }

  function Args<W>(c: Cmd<W>, ts: seq<Token<W>>): (r: Parsed<W>)
    requires WellFormed(c) && IsSimple(c)
    ensures Conserves(c, ts, r) && (r.Parsed? ==> |r.rest| <= |ts| && WellFormed(r.cmd))
    decreases |ts|
  {
    if ts == [] || StartsWith(ts, "|)&;") then Parsed(c, ts)
    else if ts[0].Sym? then Panic("syntax")
    else
      var c' := AddArg(c, ts[0].word);
      if Argc(c') >= MAXARGS then Panic("too many args")
      else
        var r := Redirs(c', ts[1..]);
        if r.Panic? then r else Args(r.cmd, r.rest)
  }

  function Block<W>(ts: seq<Token<W>>): (r: Parsed<W>)
    ensures Conserves(Exec([]), ts, r) && (r.Parsed? ==> |r.rest| <= |ts| && WellFormed(r.cmd))
    decreases |ts|, 0
  {
    if !StartsWith(ts, "(") then Panic("parseblock")
    else
      var r := Line(ts[1..]);
      if r.Panic? then r
      else if !StartsWith(r.rest, ")") then Panic("syntax - missing )")
      else Redirs(r.cmd, r.rest[1..])
  }

  function Command<W>(ts: seq<Token<W>>): (r: Parsed<W>)
    ensures Conserves(Exec([]), ts, r) && (r.Parsed? ==> |r.rest| <= |ts| && WellFormed(r.cmd))
    decreases |ts|, 1
  {
    if StartsWith(ts, "(") then Block(ts)
    else
      var r := Redirs(Exec([]), ts);
      if r.Panic? then r else Args(r.cmd, r.rest)
  }

  function Pipeline<W>(ts: seq<Token<W>>): (r: Parsed<W>)
    ensures Conserves(Exec([]), ts, r) && (r.Parsed? ==> |r.rest| <= |ts| && WellFormed(r.cmd))
    decreases |ts|, 2
  {
    var l := Command(ts);
    if l.Panic? || !StartsWith(l.rest, "|") then l
    else
      var r := Pipeline(l.rest[1..]);
      if r.Panic? then r else Parsed(Pipe(l.cmd, r.cmd), r.rest)
  }

  function Backs<W>(c: Cmd<W>, ts: seq<Token<W>>): (r: Parsed<W>)
    requires WellFormed(c)
    ensures r.Parsed? && Conserves(c, ts, r) && !StartsWith(r.rest, "&") && |r.rest| <= |ts| && WellFormed(r.cmd)
    decreases |ts|
  {
    if StartsWith(ts, "&") then Backs(Back(c), ts[1..]) else Parsed(c, ts)
  }

  function Line<W>(ts: seq<Token<W>>): (r: Parsed<W>)
    ensures Conserves(Exec([]), ts, r) && (r.Parsed? ==> |r.rest| <= |ts| && WellFormed(r.cmd))
    decreases |ts|, 3
  {
    var p := Pipeline(ts);
    if p.Panic? then p
    else
      var l := Backs(p.cmd, p.rest);
      if !StartsWith(l.rest, ";") then l
      else
        var r := Line(l.rest[1..]);
        if r.Panic? then r else Parsed(List(l.cmd, r.cmd), r.rest)
  }

  /** A whole line: every token must be used. */
  function Parse<W>(ts: seq<Token<W>>): (r: Parsed<W>)
    ensures r.Parsed? ==> r.rest == [] && WellFormed(r.cmd) && CmdWords(r.cmd) == TokenWords(ts)
  {
    var r := Line(ts);
    assert CmdWords<W>(Exec([])) == multiset{} == TokenWords<W>([]);
    assert r.Parsed? && r.rest == [] ==> CmdWords(r.cmd) == CmdWords(r.cmd) + TokenWords(r.rest) == TokenWords(ts);
    if r.Parsed? && r.rest != [] then Panic("syntax") else r
  }

  // ---------- the parser does not look into words ----------

  function MapToken<V, W>(f: V -> W, t: Token<V>): Token<W> {
    match t case Sym(k) => Sym(k) case Word(w) => Word(f(w))
  }

  function MapTokens<V, W>(f: V -> W, ts: seq<Token<V>>): seq<Token<W>> {
    seq(|ts|, i requires 0 <= i < |ts| => MapToken(f, ts[i]))
  }

  function MapWords<V, W>(f: V -> W, ws: seq<V>): seq<W> {
    seq(|ws|, i requires 0 <= i < |ws| => f(ws[i]))
  }

  function MapCmd<V, W>(f: V -> W, c: Cmd<V>): Cmd<W> {
    match c
    case Exec(argv) => Exec(MapWords(f, argv))
    case Redir(cmd, file, mode, fd) => Redir(MapCmd(f, cmd), f(file), mode, fd)
    case Pipe(left, right) => Pipe(MapCmd(f, left), MapCmd(f, right))
    case List(left, right) => List(MapCmd(f, left), MapCmd(f, right))
    case Back(cmd) => Back(MapCmd(f, cmd))
  }

  function MapParsed<V, W>(f: V -> W, r: Parsed<V>): Parsed<W> {
    match r case Panic(m) => Panic(m) case Parsed(c, rest) => Parsed(MapCmd(f, c), MapTokens(f, rest))
  }

  lemma MapWellFormed<V, W>(f: V -> W, c: Cmd<V>)
    ensures WellFormed(c) ==> WellFormed(MapCmd(f, c))
    ensures IsSimple(c) ==> IsSimple(MapCmd(f, c)) && Argc(MapCmd(f, c)) == Argc(c)
  {
  }

  lemma MapAddArg<V, W>(f: V -> W, c: Cmd<V>, w: V)
    requires IsSimple(c)
    ensures IsSimple(MapCmd(f, c)) && MapCmd(f, AddArg(c, w)) == AddArg(MapCmd(f, c), f(w))
  {
  }

  lemma MapDrop<V, W>(f: V -> W, ts: seq<Token<V>>, n: nat)
    requires n <= |ts|
    ensures MapTokens(f, ts[n..]) == MapTokens(f, ts)[n..]
  {
  }

  lemma {:induction false} RedirsNatural<V, W>(f: V -> W, c: Cmd<V>, ts: seq<Token<V>>)
    requires WellFormed(c)
    ensures WellFormed(MapCmd(f, c)) && Redirs(MapCmd(f, c), MapTokens(f, ts)) == MapParsed(f, Redirs(c, ts))
    decreases |ts|
  {
    hide Conserves, CmdWords, TokenWords;
    MapWellFormed(f, c);
    if StartsWith(ts, "<>+") && |ts| >= 2 && ts[1].Word? {
      RedirsNatural(f, RedirOf(c, ts[0].kind, ts[1].word), ts[2..]);
      MapDrop(f, ts, 2);
    }
  }

  lemma {:induction false} ArgsNatural<V, W>(f: V -> W, c: Cmd<V>, ts: seq<Token<V>>)
    requires WellFormed(c) && IsSimple(c)
    ensures WellFormed(MapCmd(f, c)) && IsSimple(MapCmd(f, c))
    ensures Args(MapCmd(f, c), MapTokens(f, ts)) == MapParsed(f, Args(c, ts))
    decreases |ts|
  {
    hide Conserves, CmdWords, TokenWords;
    MapWellFormed(f, c);
    if ts != [] && ts[0].Word? {
      MapAddArg(f, c, ts[0].word);
      MapDrop(f, ts, 1);
      var c' := AddArg(c, ts[0].word);
      MapWellFormed(f, c');
      if Argc(c') < MAXARGS {
        RedirsNatural(f, c', ts[1..]);
        var r := Redirs(c', ts[1..]);
        if r.Parsed? {
          ArgsNatural(f, r.cmd, r.rest);
        }
      }
    }
  }

  lemma {:induction false} BacksNatural<V, W>(f: V -> W, c: Cmd<V>, ts: seq<Token<V>>)
    requires WellFormed(c)
    ensures WellFormed(MapCmd(f, c)) && Backs(MapCmd(f, c), MapTokens(f, ts)) == MapParsed(f, Backs(c, ts))
    decreases |ts|
  {
    hide Conserves, CmdWords, TokenWords;
    MapWellFormed(f, c);
    if StartsWith(ts, "&") {
      BacksNatural(f, Back(c), ts[1..]);
      MapDrop(f, ts, 1);
    }
  }

  lemma {:induction false} CommandNatural<V, W>(f: V -> W, ts: seq<Token<V>>)
    ensures Command(MapTokens(f, ts)) == MapParsed(f, Command(ts))
    decreases |ts|, 1
  {
    hide Conserves, CmdWords, TokenWords;
    if StartsWith(ts, "(") {
      MapDrop(f, ts, 1);
      LineNatural(f, ts[1..]);
      var r := Line(ts[1..]);
      if r.Parsed? && StartsWith(r.rest, ")") {
        MapDrop(f, r.rest, 1);
        RedirsNatural(f, r.cmd, r.rest[1..]);
      }
    } else {
      assert MapCmd(f, Exec([])) == Exec([]);
      RedirsNatural(f, Exec([]), ts);
      var r := Redirs(Exec([]), ts);
      if r.Parsed? {
        ArgsNatural(f, r.cmd, r.rest);
      }
    }
  }

  lemma {:induction false} PipelineNatural<V, W>(f: V -> W, ts: seq<Token<V>>)
    ensures Pipeline(MapTokens(f, ts)) == MapParsed(f, Pipeline(ts))
    decreases |ts|, 2
  {
    hide Conserves, CmdWords, TokenWords;
    CommandNatural(f, ts);
    var l := Command(ts);
    if l.Parsed? && StartsWith(l.rest, "|") {
      MapDrop(f, l.rest, 1);
      PipelineNatural(f, l.rest[1..]);
    }
  }

  lemma {:induction false} LineNatural<V, W>(f: V -> W, ts: seq<Token<V>>)
    ensures Line(MapTokens(f, ts)) == MapParsed(f, Line(ts))
    decreases |ts|, 3
  {
    hide Conserves, CmdWords, TokenWords;
    PipelineNatural(f, ts);
    var p := Pipeline(ts);
    if p.Parsed? {
      BacksNatural(f, p.cmd, p.rest);
      var l := Backs(p.cmd, p.rest);
      if StartsWith(l.rest, ";") {
        MapDrop(f, l.rest, 1);
        LineNatural(f, l.rest[1..]);
      }
    }
  }

  /** Parsing commutes with any renaming of the words. */
  lemma ParseNatural<V, W>(f: V -> W, ts: seq<Token<V>>)
    ensures Parse(MapTokens(f, ts)) == MapParsed(f, Parse(ts))
  {
    LineNatural(f, ts);
  }

  // ---------- printing and parsing back ----------

  function WordTokens<W>(ws: seq<W>): seq<Token<W>> {
    seq(|ws|, i requires 0 <= i < |ws| => Word(ws[i]))
  }

  /** The fully parenthesised rendering of a tree. */
  function Render<W>(c: Cmd<W>): seq<Token<W>>
    decreases c, 0
  {
    match c
    case Exec(argv) => WordTokens(argv)
    case Redir(cmd, file, mode, _) => Parens(cmd) + [Sym(if mode == O_RDONLY then '<' else '>'), Word(file)]
    case Pipe(left, right) => Parens(left) + ([Sym('|')] + Parens(right))
    case List(left, right) => Parens(left) + ([Sym(';')] + Parens(right))
    case Back(cmd) => Parens(cmd) + [Sym('&')]
  }

  function Parens<W>(c: Cmd<W>): seq<Token<W>>
    decreases c, 1
  {
    [Sym('(')] + Render(c) + [Sym(')')]
  }

  /** What may follow a line: the end or a closing parenthesis. */
  predicate AtEnd<W>(rest: seq<Token<W>>) {
    rest == [] || StartsWith(rest, ")")
  }

  lemma {:induction false} ArgsRead<W>(done: seq<W>, todo: seq<W>, rest: seq<Token<W>>)
    requires |done| + |todo| < MAXARGS && AtEnd(rest)
    ensures Args(Exec(done), WordTokens(todo) + rest) == Parsed(Exec(done + todo), rest)
    decreases |todo|
  {
    hide Conserves, CmdWords, TokenWords;
    var ts := WordTokens(todo) + rest;
    if todo == [] {
      assert ts == rest && done + todo == done;
    } else {
      assert ts[0] == Word(todo[0]) && ts[1..] == WordTokens(todo[1..]) + rest;
      var c' := Exec(done + [todo[0]]);
      assert AddArg(Exec(done), todo[0]) == c';
      assert Redirs(c', ts[1..]) == Parsed(c', ts[1..]);
      ArgsRead(done + [todo[0]], todo[1..], rest);
      assert done + [todo[0]] + todo[1..] == done + todo;
    }
  }

  /** A pipeline that is one command, and a line that is one pipeline. */
  lemma OneCommand<W>(ts: seq<Token<W>>, c: Cmd<W>, rest: seq<Token<W>>)
    requires Command(ts) == Parsed(c, rest) && AtEnd(rest)
    ensures Pipeline(ts) == Parsed(c, rest) && Line(ts) == Parsed(c, rest)
  {
  }

  lemma {:induction false} ParensRead<W>(c: Cmd<W>, rest: seq<Token<W>>)
    requires WellFormed(c)
    ensures Command(Parens(c) + rest) == Redirs(c, rest)
    decreases c, 1
  {
    hide Conserves, CmdWords, TokenWords, Line, Redirs, Args, Render;
    var ts := Parens(c) + rest;
    var inner := [Sym(')')] + rest;
    assert ts[1..] == Render(c) + inner;
    LineRead(c, inner);
    assert inner[1..] == rest;
  }

  lemma NoRedirs<W>(c: Cmd<W>, rest: seq<Token<W>>)
    requires WellFormed(c) && !StartsWith(rest, "<>+")
    ensures Redirs(c, rest) == Parsed(c, rest)
  {
  }

  lemma PipeRead<W>(ts: seq<Token<W>>, left: Cmd<W>, right: Cmd<W>, tail: seq<Token<W>>, rest: seq<Token<W>>)
    requires Command(ts) == Parsed(left, [Sym('|')] + tail) && Command(tail) == Parsed(right, rest) && AtEnd(rest)
    ensures Line(ts) == Parsed(Pipe(left, right), rest)
  {
    hide Conserves, CmdWords, TokenWords, Command;
    assert ([Sym('|')] + tail)[1..] == tail;
    OneCommand(tail, right, rest);
    assert Pipeline(ts) == Parsed(Pipe(left, right), rest);
  }

  lemma ListRead<W>(ts: seq<Token<W>>, left: Cmd<W>, right: Cmd<W>, tail: seq<Token<W>>, rest: seq<Token<W>>)
    requires Command(ts) == Parsed(left, [Sym(';')] + tail) && Command(tail) == Parsed(right, rest) && AtEnd(rest)
    ensures Line(ts) == Parsed(List(left, right), rest)
  {
    hide Conserves, CmdWords, TokenWords, Command;
    assert ([Sym(';')] + tail)[1..] == tail;
    OneCommand(tail, right, rest);
    assert Pipeline(ts) == Parsed(left, [Sym(';')] + tail);
  }

  lemma BackRead<W>(ts: seq<Token<W>>, c: Cmd<W>, rest: seq<Token<W>>)
    requires Command(ts) == Parsed(c, [Sym('&')] + rest) && AtEnd(rest)
    ensures Line(ts) == Parsed(Back(c), rest)
  {
    hide Conserves, CmdWords, TokenWords, Command;
    assert ([Sym('&')] + rest)[1..] == rest;
    assert Pipeline(ts) == Parsed(c, [Sym('&')] + rest);
    assert Backs(Back(c), rest) == Parsed(Back(c), rest);
  }

  lemma ExecRead<W>(c: Cmd<W>, rest: seq<Token<W>>)
    requires WellFormed(c) && c.Exec? && AtEnd(rest)
    ensures Line(Render(c) + rest) == Parsed(c, rest)
  {
    hide Conserves, CmdWords, TokenWords, Line, Pipeline, Parens;
    var ts := Render(c) + rest;
    assert ts == WordTokens(c.argv) + rest;
    ArgsRead([], c.argv, rest);
    assert [] + c.argv == c.argv;
    NoRedirs(Exec([]), ts);
    OneCommand(ts, c, rest);
  }

  lemma {:induction false} LineRead<W>(c: Cmd<W>, rest: seq<Token<W>>)
    requires WellFormed(c) && AtEnd(rest)
    ensures Line(Render(c) + rest) == Parsed(c, rest)
    decreases c, 0
  {
    hide Conserves, CmdWords, TokenWords, Line, Pipeline, Parens;
    var ts := Render(c) + rest;
    match c
    case Exec(argv) =>
      ExecRead(c, rest);
    case Redir(cmd, file, mode, fd) =>
      var tail := [Sym(if mode == O_RDONLY then '<' else '>'), Word(file)] + rest;
      assert ts == Parens(cmd) + tail;
      ParensRead(cmd, tail);
      assert tail[2..] == rest;
      NoRedirs(c, rest);
      OneCommand(ts, c, rest);
    case Pipe(left, right) =>
      var tail := Parens(right) + rest;
      assert ts == Parens(left) + ([Sym('|')] + tail);
      ParensRead(left, [Sym('|')] + tail);
      NoRedirs(left, [Sym('|')] + tail);
      ParensRead(right, rest);
      NoRedirs(right, rest);
      PipeRead(ts, left, right, tail, rest);
    case List(left, right) =>
      var tail := Parens(right) + rest;
      assert ts == Parens(left) + ([Sym(';')] + tail);
      ParensRead(left, [Sym(';')] + tail);
      NoRedirs(left, [Sym(';')] + tail);
      ParensRead(right, rest);
      NoRedirs(right, rest);
      ListRead(ts, left, right, tail, rest);
    case Back(cmd) =>
      var tail := [Sym('&')] + rest;
      assert ts == Parens(cmd) + tail;
      ParensRead(cmd, tail);
      NoRedirs(cmd, tail);
      BackRead(ts, cmd, rest);
  }

  /** Every representable tree is the parse of its rendering. */
  lemma ParseRender<W>(c: Cmd<W>)
    requires WellFormed(c)
    ensures Parse(Render(c)) == Parsed(c, [])
  {
    LineRead(c, []);
    assert Render(c) + [] == Render(c);
  }

  // ---------- text ----------

  /** The tokens of the line, with their text. */
  function Tokens(line: string): seq<Token<string>> {
    MapTokens(w => Text(line, w), Lex(line, 0))
  }

  ghost predicate GoodWord(w: string) {
    |w| > 0 && forall i :: 0 <= i < |w| ==> WordChar(w[i]) && w[i] != '\0'
  }

  ghost predicate GoodToken(t: Token<string>) {
    if t.Sym? then t.kind == '+' || IsSymbol(t.kind) else GoodWord(t.word)
  }

  ghost predicate GoodTokens(ts: seq<Token<string>>) {
    forall k :: 0 <= k < |ts| ==> GoodToken(ts[k])
  }

  lemma GoodAppend(ts: seq<Token<string>>, us: seq<Token<string>>)
    requires GoodTokens(ts) && GoodTokens(us)
    ensures GoodTokens(ts + us)
  {
  }

  function TokenText(t: Token<string>): string {
    if t.Sym? then SymbolText(t.kind) else t.word
  }

  /** The tokens written out, each followed by a space. */
  function Unlex(ts: seq<Token<string>>): string {
    if ts == [] then "" else TokenText(ts[0]) + " " + Unlex(ts[1..])
  }

  lemma SplitText(line: string, i: nat, t: string, rest: string)
    requires i <= |line| && line[i..] == t + " " + rest
    ensures i + |t| < |line| && line[i..i + |t|] == t && line[i + |t|] == ' ' && line[i + |t| + 1..] == rest
  {
  }

  /** A token followed by a space is read back. */
  lemma LexToken(t: Token<string>, line: string, i: nat)
    requires GoodToken(t) && i + |TokenText(t)| < |line|
    requires line[i..i + |TokenText(t)|] == TokenText(t) && line[i + |TokenText(t)|] == ' '
    ensures !IsSpace(line[i]) && TokenEnd(line, i) == i + |TokenText(t)|
    ensures MapToken(w => Text(line, w), TokenAt(line, i)) == t
  {
  }

  lemma {:induction false} LexUnlex(ts: seq<Token<string>>, line: string, i: nat)
    requires GoodTokens(ts)
    requires i <= |line| && line[i..] == Unlex(ts)
    ensures MapTokens(w => Text(line, w), Lex(line, i)) == ts
    decreases |ts|
  {
    hide TokenText, TokenAt, TokenEnd, GoodSpan, IsSymbol, GoodToken;
    if ts != [] {
      var t := TokenText(ts[0]);
      var j := i + |t|;
      SplitText(line, i, t, Unlex(ts[1..]));
      LexToken(ts[0], line, i);
      LexUnlex(ts[1..], line, j + 1);
      assert Lex(line, j) == Lex(line, j + 1);
      MapDrop(w => Text(line, w), Lex(line, i), 1);
    }
  }

  /** The trees that can be typed. */
  ghost predicate Printable(c: Cmd<string>) {
    WellFormed(c) && forall w :: w in CmdWords(c) ==> GoodWord(w)
  }

  lemma {:induction false} RenderGood(c: Cmd<string>)
    requires Printable(c)
    ensures GoodTokens(Render(c)) && GoodTokens(Parens(c))
  {
    match c {
      case Exec(argv) =>
        assert forall k :: 0 <= k < |argv| ==> argv[k] in CmdWords(c);
      case Redir(cmd, file, mode, _) =>
        assert file in CmdWords(c);
        RenderGood(cmd);
        GoodAppend(Parens(cmd), [Sym(if mode == O_RDONLY then '<' else '>'), Word(file)]);
      case Pipe(left, right) =>
        RenderGood(left);
        RenderGood(right);
        GoodAppend([Sym('|')], Parens(right));
        GoodAppend(Parens(left), [Sym('|')] + Parens(right));
      case List(left, right) =>
        RenderGood(left);
        RenderGood(right);
        GoodAppend([Sym(';')], Parens(right));
        GoodAppend(Parens(left), [Sym(';')] + Parens(right));
      case Back(cmd) =>
        RenderGood(cmd);
        GoodAppend(Parens(cmd), [Sym('&')]);
    }
    GoodAppend([Sym('(')], Render(c));
    GoodAppend([Sym('(')] + Render(c), [Sym(')')]);
  }

  lemma UnlexNulFree(ts: seq<Token<string>>)
    requires GoodTokens(ts)
    ensures NulFree(Unlex(ts))
  {
  }

  /** The line `line` is parsed, completely, as the tree `c`. */
  ghost predicate Means(line: string, c: Cmd<string>) {
    NulFree(line) && Parse(Tokens(line)) == Parsed(c, [])
  }

  /** The rendering of a printable tree parses back to the tree. */
  lemma RoundTrip(c: Cmd<string>)
    requires Printable(c)
    ensures Means(Unlex(Render(c)), c)
  {
    var line := Unlex(Render(c));
    RenderGood(c);
    UnlexNulFree(Render(c));
    LexUnlex(Render(c), line, 0);
    ParseRender(c);
  }

  lemma {:induction false} WordsAreTokens<W>(ts: seq<Token<W>>, w: W)
    requires w in TokenWords(ts)
    ensures exists k :: 0 <= k < |ts| && ts[k] == Word(w)
  {
    if ts[0] == Word(w) {
    } else {
      WordsAreTokens(ts[1..], w);
      var k :| 0 <= k < |ts[1..]| && ts[1..][k] == Word(w);
      assert ts[k + 1] == Word(w);
    }
  }

  lemma ParsedIsPrintable(line: string, c: Cmd<string>)
    requires Means(line, c)
    ensures Printable(c)
  {
    var ts := Tokens(line);
    forall w | w in CmdWords(c) ensures GoodWord(w) {
      WordsAreTokens(ts, w);
      var k :| 0 <= k < |ts| && ts[k] == Word(w);
      var span := Lex(line, 0)[k].word;
      assert GoodSpan(line, span) && w == line[span.q..span.eq];
      forall i | 0 <= i < |w| ensures WordChar(w[i]) && w[i] != '\0' {
        assert w[i] == line[span.q + i];
      }
    }
  }

  /** The parser produces exactly the printable trees. */
  lemma ExactlyPrintable(c: Cmd<string>)
    ensures Printable(c) <==> exists line :: Means(line, c)
  {
    if Printable(c) {
      RoundTrip(c);
    }
    if exists line :: Means(line, c) {
      var line :| Means(line, c);
      ParsedIsPrintable(line, c);
    }
  }
}
