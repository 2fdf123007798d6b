/**
 The routines of sh.c themselves: one pass over the line buffer with a cursor.

 `buf` holds the line and `es` is the position of its terminating NUL.  A routine takes the cursor
 and returns the new one; a panic ends it with the message.
 */
module ShellParser {
  import opened Shell

  datatype Outcome = Fail(message: string) | Done(cmd: Cmd<Span>)

  ghost predicate IsLine(buf: array<char>, es: nat)
    reads buf
  {
    es < buf.Length && buf[es] == '\0' && NulFree(buf[..es])
  }

  /** A routine that left the cursor at `s` did what the token parser does. */
  ghost predicate Agrees(line: string, r: Parsed<Span>, s: nat, out: Outcome) {
    match r
    case Panic(m) => out == Fail(m)
    case Parsed(c, rest) => out == Done(c) && s <= |line| && Lex(line, s) == rest
  }

  method SkipBlanks(buf: array<char>, es: nat, s0: nat) returns (s: nat)
    requires IsLine(buf, es) && s0 <= es
    ensures s0 <= s <= es && Lex(buf[..es], s) == Lex(buf[..es], s0) && (s < es ==> !IsSpace(buf[s]))
  {
    s := s0;
    while s < es && IsSpace(buf[s])
      invariant s0 <= s <= es && Lex(buf[..es], s) == Lex(buf[..es], s0)
    {
      s := s + 1;
    }
  }

  /** Reads the next token: its kind ('a' for a word, 0 at the end), its span and the cursor after it. */
  method GetToken(buf: array<char>, es: nat, s0: nat) returns (s: nat, tok: char, q: nat, eq: nat)
    requires IsLine(buf, es) && s0 <= es
    ensures s0 <= s <= es
    ensures var ts := Lex(buf[..es], s0);
            if ts == [] then tok == '\0' && s == es && Lex(buf[..es], s) == []
            else && Lex(buf[..es], s) == ts[1..]
                 && (ts[0].Sym? ==> tok == ts[0].kind && tok != 'a' && tok != '\0')
                 && (ts[0].Word? ==> tok == 'a' && Span(q, eq) == ts[0].word)
  {
    s := SkipBlanks(buf, es, s0);
    q := s;
    tok := buf[s];
    ghost var line := buf[..es];
    assert s < es ==> line[s] == buf[s];
    match buf[s] {
      case '\0' =>
        assert s == es;
      case '|' | '(' | ')' | ';' | '&' | '<' =>
        s := s + 1;
      case '>' =>
        s := s + 1;
        if buf[s] == '>' {
          tok := '+';
          s := s + 1;
        }
      case _ =>
        tok := 'a';
        while s < es && !IsSpace(buf[s]) && !IsSymbol(buf[s])
          invariant q <= s <= es && WordEnd(line, q) == WordEnd(line, s)
        {
          s := s + 1;
        }
    }
    eq := s;
    assert q < es ==> s == TokenEnd(line, q);
    s := SkipBlanks(buf, es, s);
  }

  /** Whether the next token begins with one of the symbols `toks`. */
  method Peek(buf: array<char>, es: nat, s0: nat, toks: string) returns (s: nat, found: bool)
    requires IsLine(buf, es) && s0 <= es && forall c :: c in toks ==> IsSymbol(c)
    ensures s0 <= s <= es && Lex(buf[..es], s) == Lex(buf[..es], s0)
    ensures found == StartsWith(Lex(buf[..es], s), if '>' in toks then toks + "+" else toks)
    ensures Lex(buf[..es], s) == [] ==> s == es
  {
    s := SkipBlanks(buf, es, s0);
    found := buf[s] != '\0' && buf[s] in toks;
  }

  lemma RedirStep<W>(c: Cmd<W>, ts: seq<Token<W>>)
    requires WellFormed(c) && StartsWith(ts, "<>+")
    ensures if ts[1..] == [] || ts[1..][0].Sym? then Redirs(c, ts) == Panic("missing file for redirection")
            else var c' := RedirOf(c, ts[0].kind, ts[1..][0].word);
                 WellFormed(c') && Redirs(c, ts) == Redirs(c', ts[1..][1..])
  {
  }

  method ParseRedirs(cmd: Cmd<Span>, buf: array<char>, es: nat, s0: nat) returns (s: nat, out: Outcome)
    requires IsLine(buf, es) && s0 <= es && WellFormed(cmd)
    ensures s0 <= s <= es && Agrees(buf[..es], Redirs(cmd, Lex(buf[..es], s0)), s, out)
  {
    hide Conserves, CmdWords, TokenWords, Lex, Redirs;
    ghost var r := Redirs(cmd, Lex(buf[..es], s0));
    var c := cmd;
    var more;
    s, more := Peek(buf, es, s0, "<>");
    while more
      invariant s0 <= s <= es && WellFormed(c) && Redirs(c, Lex(buf[..es], s)) == r
      invariant more == StartsWith(Lex(buf[..es], s), "<>+")
      decreases |Lex(buf[..es], s)|
    {
      RedirStep(c, Lex(buf[..es], s));
      var tok, kind, q, eq;
      s, tok, q, eq := GetToken(buf, es, s);
      s, kind, q, eq := GetToken(buf, es, s);
      if kind != 'a' {
        return s, Fail("missing file for redirection");
      }
      match tok {
        case '<' => c := Redir(c, Span(q, eq), O_RDONLY, 0);
        case '>' => c := Redir(c, Span(q, eq), O_WRONLY + O_CREATE, 1);
        case _ => c := Redir(c, Span(q, eq), O_WRONLY + O_CREATE, 1);
      }
      s, more := Peek(buf, es, s, "<>");
    }
    NoRedirs(c, Lex(buf[..es], s));
    out := Done(c);
  }

  lemma NextArg<W>(c: Cmd<W>, ts: seq<Token<W>>)
    requires WellFormed(c) && IsSimple(c) && ts != [] && !StartsWith(ts, "|)&;")
    ensures if ts[0].Sym? then Args(c, ts) == Panic("syntax")
            else var c' := AddArg(c, ts[0].word);
                 if Argc(c') >= MAXARGS then Args(c, ts) == Panic("too many args")
                 else WellFormed(c') && match Redirs(c', ts[1..])
                   case Panic(m) => Args(c, ts) == Panic(m)
                   case Parsed(c'', rest) =>
                     && WellFormed(c'') && IsSimple(c'') && Argc(c'') == Argc(c) + 1
                     && Args(c, ts) == Args(c'', rest) && |rest| < |ts|
  {
  }

  lemma LastArg<W>(c: Cmd<W>, ts: seq<Token<W>>)
    requires WellFormed(c) && IsSimple(c) && (ts == [] || StartsWith(ts, "|)&;"))
    ensures Args(c, ts) == Parsed(c, ts)
  {
  }

  method ParseExec(buf: array<char>, es: nat, s0: nat) returns (s: nat, out: Outcome)
    requires IsLine(buf, es) && s0 <= es
    ensures s0 <= s <= es && Agrees(buf[..es], Command(Lex(buf[..es], s0)), s, out)
    decreases |Lex(buf[..es], s0)|, 1
  {
    hide Conserves, CmdWords, TokenWords, Lex, Line, Redirs, Args;
    var stop;
    s, stop := Peek(buf, es, s0, "(");
    if stop {
      s, out := ParseBlock(buf, es, s);
      return;
    }
    ghost var r := Command(Lex(buf[..es], s0));
    s, out := ParseRedirs(Exec([]), buf, es, s);
    if out.Fail? {
      return;
    }
    s, out := ParseArgs(out.cmd, buf, es, s);
  }

  /** The loop of parseexec over the words of a command. */
  method ParseArgs(cmd: Cmd<Span>, buf: array<char>, es: nat, s0: nat) returns (s: nat, out: Outcome)
    requires IsLine(buf, es) && s0 <= es && WellFormed(cmd) && IsSimple(cmd) && Argc(cmd) == 0
    ensures s0 <= s <= es && Agrees(buf[..es], Args(cmd, Lex(buf[..es], s0)), s, out)
  {
    hide Conserves, CmdWords, TokenWords, Lex, Redirs, Args;
    ghost var r := Args(cmd, Lex(buf[..es], s0));
    var ret, argc, stop := cmd, 0, false;
    s, stop := Peek(buf, es, s0, "|)&;");
    while !stop
      invariant s0 <= s <= es && WellFormed(ret) && IsSimple(ret) && Argc(ret) == argc && Args(ret, Lex(buf[..es], s)) == r
      invariant stop == StartsWith(Lex(buf[..es], s), "|)&;")
      decreases |Lex(buf[..es], s)|
    {
      ghost var ts := Lex(buf[..es], s);
      var tok, q, eq;
      s, tok, q, eq := GetToken(buf, es, s);
      if tok == '\0' {
        break;
      }
      NextArg(ret, ts);
      if tok != 'a' {
        return s, Fail("syntax");
      }
      ret := AddArg(ret, Span(q, eq));
      argc := argc + 1;
      if argc >= MAXARGS {
        return s, Fail("too many args");
      }
      s, out := ParseRedirs(ret, buf, es, s);
      if out.Fail? {
        return;
      }
      ret := out.cmd;
      s, stop := Peek(buf, es, s, "|)&;");
    }
    LastArg(ret, Lex(buf[..es], s));
    out := Done(ret);
  }

  method ParseBlock(buf: array<char>, es: nat, s0: nat) returns (s: nat, out: Outcome)
    requires IsLine(buf, es) && s0 <= es
    ensures s0 <= s <= es && Agrees(buf[..es], Block(Lex(buf[..es], s0)), s, out)
    decreases |Lex(buf[..es], s0)|, 0
  {
    hide Conserves, CmdWords, TokenWords, Lex, Line, Redirs;
    var found, tok, q, eq;
    s, found := Peek(buf, es, s0, "(");
    if !found {
      return s, Fail("parseblock");
    }
    s, tok, q, eq := GetToken(buf, es, s);
    s, out := ParseLine(buf, es, s);
    if out.Fail? {
      return;
    }
    var cmd := out.cmd;
    s, found := Peek(buf, es, s, ")");
    if !found {
      return s, Fail("syntax - missing )");
    }
    s, tok, q, eq := GetToken(buf, es, s);
    s, out := ParseRedirs(cmd, buf, es, s);
  }

  method ParsePipe(buf: array<char>, es: nat, s0: nat) returns (s: nat, out: Outcome)
    requires IsLine(buf, es) && s0 <= es
    ensures s0 <= s <= es && Agrees(buf[..es], Pipeline(Lex(buf[..es], s0)), s, out)
    decreases |Lex(buf[..es], s0)|, 2
  {
    hide Conserves, CmdWords, TokenWords, Lex, Command;
    s, out := ParseExec(buf, es, s0);
    if out.Fail? {
      return;
    }
    var cmd := out.cmd;
    var found, tok, q, eq;
    s, found := Peek(buf, es, s, "|");
    if found {
      s, tok, q, eq := GetToken(buf, es, s);
      s, out := ParsePipe(buf, es, s);
      if out.Done? {
        out := Done(Pipe(cmd, out.cmd));
      }
    }
  }

  method ParseLine(buf: array<char>, es: nat, s0: nat) returns (s: nat, out: Outcome)
    requires IsLine(buf, es) && s0 <= es
    ensures s0 <= s <= es && Agrees(buf[..es], Line(Lex(buf[..es], s0)), s, out)
    decreases |Lex(buf[..es], s0)|, 3
  {
    hide Conserves, CmdWords, TokenWords, Lex, Pipeline;
    ghost var p := Pipeline(Lex(buf[..es], s0));
    s, out := ParsePipe(buf, es, s0);
    if out.Fail? {
      return;
    }
    var cmd := out.cmd;
    ghost var l := Backs(p.cmd, p.rest);
    var more, tok, q, eq;
    s, more := Peek(buf, es, s, "&");
    while more
      invariant s0 <= s <= es && WellFormed(cmd) && Backs(cmd, Lex(buf[..es], s)) == l
      invariant more == StartsWith(Lex(buf[..es], s), "&")
      decreases |Lex(buf[..es], s)|
    {
      s, tok, q, eq := GetToken(buf, es, s);
      cmd := Back(cmd);
      s, more := Peek(buf, es, s, "&");
    }
    out := Done(cmd);
    s, more := Peek(buf, es, s, ";");
    if more {
      s, tok, q, eq := GetToken(buf, es, s);
      s, out := ParseLine(buf, es, s);
      if out.Done? {
        out := Done(List(cmd, out.cmd));
      }
    }
  }

  // ---------- terminating the words ----------

  /** The string at position `i` as C reads it. */
  function CString(s: seq<char>, i: nat): string
    decreases |s| - i
  {
    if i >= |s| || s[i] == '\0' then "" else [s[i]] + CString(s, i + 1)
  }

  lemma {:induction false} CStringIs(s: seq<char>, i: nat, j: nat)
    requires i <= j < |s| && s[j] == '\0' && forall k :: i <= k < j ==> s[k] != '\0'
    ensures CString(s, i) == s[i..j]
    decreases j - i
  {
    if i < j {
      CStringIs(s, i + 1, j);
    }
  }

  ghost predicate EndsAt(c: Cmd<Span>, i: nat) {
    exists w :: w in CmdWords(c) && w.eq == i
  }

  ghost predicate EndsIn(argv: seq<Span>, i: nat) {
    exists k :: 0 <= k < |argv| && argv[k].eq == i
  }

  lemma EndsInNext(argv: seq<Span>, n: nat)
    requires n < |argv|
    ensures forall i :: EndsIn(argv[..n + 1], i) <==> EndsIn(argv[..n], i) || argv[n].eq == i
  {
  }

  /** `after` is `before` with a NUL at the end of every word of `c`. */
  ghost predicate Terminated(c: Cmd<Span>, before: seq<char>, after: seq<char>) {
    |after| == |before| && forall i :: 0 <= i < |after| ==> after[i] == if EndsAt(c, i) then '\0' else before[i]
  }

  lemma TerminatedParts(c: Cmd<Span>, before: seq<char>, mid: seq<char>, after: seq<char>)
    requires match c
             case Redir(cmd, file, _, _) => Terminated(cmd, before, mid) && file.eq < |mid| && after == mid[file.eq := '\0']
             case Pipe(left, right) => Terminated(left, before, mid) && Terminated(right, mid, after)
             case List(left, right) => Terminated(left, before, mid) && Terminated(right, mid, after)
             case Back(cmd) => Terminated(cmd, before, after)
             case Exec(argv) =>
               |after| == |before| && forall i :: 0 <= i < |after| ==> after[i] == if EndsIn(argv, i) then '\0' else before[i]
    ensures Terminated(c, before, after)
  {
  }

  ghost predicate FitsIn(c: Cmd<Span>, n: nat) {
    forall w :: w in CmdWords(c) ==> w.eq < n
  }

  lemma FitsParts(c: Cmd<Span>, n: nat)
    requires FitsIn(c, n)
    ensures match c
            case Exec(argv) => forall k :: 0 <= k < |argv| ==> argv[k].eq < n
            case Redir(cmd, file, _, _) => FitsIn(cmd, n) && file.eq < n
            case Pipe(left, right) => FitsIn(left, n) && FitsIn(right, n)
            case List(left, right) => FitsIn(left, n) && FitsIn(right, n)
            case Back(cmd) => FitsIn(cmd, n)
  {
  }

  /** A NUL is written at the end of every word, and nowhere else. */
  method Nulterminate(cmd: Cmd<Span>, buf: array<char>)
    requires FitsIn(cmd, buf.Length)
    modifies buf
    ensures Terminated(cmd, old(buf[..]), buf[..])
    decreases cmd
  {
    hide Terminated, FitsIn, EndsAt, CmdWords;
    FitsParts(cmd, buf.Length);
    ghost var before := buf[..];
    ghost var mid := before;
    match cmd {
      case Exec(argv) =>
        for n := 0 to |argv|
          invariant forall i :: 0 <= i < buf.Length ==> buf[i] == if EndsIn(argv[..n], i) then '\0' else before[i]
        {
          EndsInNext(argv, n);
          buf[argv[n].eq] := '\0';
        }
        assert argv[..|argv|] == argv;
      case Redir(c, file, _, _) =>
        Nulterminate(c, buf);
        mid := buf[..];
        buf[file.eq] := '\0';
      case Pipe(left, right) =>
        Nulterminate(left, buf);
        mid := buf[..];
        Nulterminate(right, buf);
      case List(left, right) =>
        Nulterminate(left, buf);
        mid := buf[..];
        Nulterminate(right, buf);
      case Back(c) =>
        Nulterminate(c, buf);
    }
    TerminatedParts(cmd, before, mid, buf[..]);
  }

  /** No word ends inside another, so after the writes every word reads as it was. */
  lemma WordsSurvive(line: string, c: Cmd<Span>, before: seq<char>, after: seq<char>, w: Span)
    requires NulFree(line) && |line| < |before| && before[..|line|] == line && Terminated(c, before, after)
    requires forall w :: w in CmdWords(c) ==> GoodSpan(line, w)
    requires w in CmdWords(c)
    ensures CString(after, w.q) == Text(line, w)
  {
    hide CmdWords, CString;
    assert EndsAt(c, w.eq);
    forall k | w.q <= k < w.eq ensures after[k] == line[k] != '\0' {
      assert before[..|line|][k] == before[k];
      assert WordChar(line[k]);
    }
    CStringIs(after, w.q, w.eq);
    assert after[w.q..w.eq] == line[w.q..w.eq];
  }

  lemma MapAgrees<V, W>(f: V -> W, g: V -> W, c: Cmd<V>)
    requires forall w :: w in CmdWords(c) ==> f(w) == g(w)
    ensures MapCmd(f, c) == MapCmd(g, c)
  {
  }

  /** The tree with each word read from memory. */
  function InMemory(mem: seq<char>, c: Cmd<Span>): Cmd<string> {
    MapCmd((w: Span) => CString(mem, w.q), c)
  }

  lemma LexEnd(line: string)
    ensures Lex(line, |line|) == []
  {
  }

  lemma FitsMore(c: Cmd<Span>, m: nat, n: nat)
    requires FitsIn(c, m) && m <= n
    ensures FitsIn(c, n)
  {
  }

  lemma ParsedSpans(line: string, c: Cmd<Span>)
    requires Parse(Lex(line, 0)) == Parsed(c, [])
    ensures (forall w :: w in CmdWords(c) ==> GoodSpan(line, w)) && FitsIn(c, |line| + 1)
  {
    forall w | w in CmdWords(c) ensures GoodSpan(line, w) {
      WordsAreTokens(Lex(line, 0), w);
    }
  }

  lemma PanicIsPanic(line: string, m: string)
    requires Parse(Lex(line, 0)) == Panic(m)
    ensures Parse(Tokens(line)) == Panic(m)
  {
    ParseNatural(w => Text(line, w), Lex(line, 0));
  }

  /** A tree of spans of the line, its words terminated in memory, is what the line means. */
  lemma Understood(line: string, c: Cmd<Span>, before: seq<char>, after: seq<char>)
    requires NulFree(line) && |line| < |before| && before[..|line|] == line && Terminated(c, before, after)
    requires Parse(Lex(line, 0)) == Parsed(c, [])
    ensures Means(line, InMemory(after, c))
  {
    hide Conserves, CmdWords, TokenWords, Lex, Parse, MapCmd, Text, CString;
    ParsedSpans(line, c);
    forall w | w in CmdWords(c) ensures CString(after, w.q) == Text(line, w) {
      WordsSurvive(line, c, before, after, w);
    }
    MapAgrees((w: Span) => CString(after, w.q), w => Text(line, w), c);
    ParseNatural(w => Text(line, w), Lex(line, 0));
    assert MapTokens<Span, string>(w => Text(line, w), []) == [];
  }

  method Strlen(buf: array<char>) returns (es: nat)
    requires exists i :: 0 <= i < buf.Length && buf[i] == '\0'
    ensures IsLine(buf, es) && buf[..es] == CString(buf[..], 0)
  {
    es := 0;
    while buf[es] != '\0'
      invariant 0 <= es < buf.Length && forall i :: 0 <= i < es ==> buf[i] != '\0'
      decreases buf.Length - es
    {
      es := es + 1;
    }
    CStringIs(buf[..], 0, es);
    assert buf[..][0..es] == buf[..es];
  }

  /**
   A line that parses yields a tree which, with each word read as a C string from the buffer, is
   what the line means.  A line that does not parse ends in the panic of the token parser.
   */
  method Parsecmd(buf: array<char>) returns (out: Outcome)
    requires exists i :: 0 <= i < buf.Length && buf[i] == '\0'
    modifies buf
    ensures var line := CString(old(buf[..]), 0);
            match out
            case Done(c) => Means(line, InMemory(buf[..], c))
            case Fail(m) => Parse(Tokens(line)) == Panic(m) && buf[..] == old(buf[..])
  {
    hide Conserves, CmdWords, TokenWords, Lex, Line, CString, InMemory, Means, Tokens, Terminated, FitsIn;
    var es := Strlen(buf);
    ghost var line := buf[..es];
    ghost var before := buf[..];
    var s, more;
    s, out := ParseLine(buf, es, 0);
    if out.Fail? {
      PanicIsPanic(line, out.message);
      return;
    }
    var cmd := out.cmd;
    s, more := Peek(buf, es, s, "");
    if s != es {
      PanicIsPanic(line, "syntax");
      return Fail("syntax");
    }
    LexEnd(line);
    ParsedSpans(line, cmd);
    FitsMore(cmd, es + 1, buf.Length);
    Nulterminate(cmd, buf);
    Understood(line, cmd, before, buf[..]);
  }
}
