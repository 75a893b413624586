/** Laying out tokens with any blanks and lexing them gives the tokens back; printing a command tree, with
    parentheses only where the grammar needs them, and parsing it gives the tree back. */
module ShellRoundTrip {
  import opened ShellSyntax
  import opened ShellGrammar
  import opened ShellExact

  // ---- layout ----

  /** Blanks, tabs, carriage returns, line feeds and vertical tabs. */
  predicate Blank(g: string) { forall i :: 0 <= i < |g| ==> g[i] as int in {32, 9, 13, 10, 11} }

  predicate ValidToken(w: string) { Word(w) || w in ["<", ">", ">>", "|", "&", ";", "(", ")"] }

  function Lay(toks: seq<string>, gaps: seq<string>): (line: string)
    requires |gaps| == |toks|
  {
    if toks == [] then "" else toks[0] + gaps[0] + Lay(toks[1..], gaps[1..])
  }

  /** Two tokens that would run together have a blank between them. */
  predicate Apart(w: string, gap: string, next: string) {
    gap == "" ==> !(Word(w) && Word(next)) && !(w == ">" && next != "" && next[0] == '>')
  }

  predicate Separated(toks: seq<string>, gaps: seq<string>) {
    && |gaps| == |toks|
    && (forall i :: 0 <= i < |toks| ==> ValidToken(toks[i]) && Blank(gaps[i]))
    && (forall i :: 0 <= i < |toks| - 1 ==> Apart(toks[i], gaps[i], toks[i + 1]))
  }

  lemma White(c: char)
    ensures c in WHITESPACE <==> c as int in {32, 9, 13, 10, 11}
  {
    assert WHITESPACE == [' ', '\t', '\r', '\n', '\U{000B}'];
  }

  lemma TokenStart(w: string)
    requires ValidToken(w)
    ensures w != "" && w[0] !in WHITESPACE && w[0] != '\0' && '\0' !in w && (!Word(w) <==> w[0] in SYMBOLS)
    ensures !Word(w) ==> (w == ">>" || |w| == 1)
  {
    White(w[0]);
    assert Word(w) ==> w[0] !in SYMBOLS;
  }

  lemma {:induction false} SkipRun(line: string, s: nat, n: nat)
    requires s <= n <= |line| && (forall i :: s <= i < n ==> line[i] in WHITESPACE)
    requires n < |line| ==> line[n] !in WHITESPACE
    ensures SkipSpace(line, s) == n
    decreases n - s
  {
    if s < n { SkipRun(line, s + 1, n); }
  }

  lemma {:induction false} WordStops(line: string, s: nat, e: nat)
    requires s <= e <= |line| && (forall i :: s <= i < e ==> IsWord(line[i])) && (e < |line| ==> !IsWord(line[e]))
    ensures WordEnd(line, s) == e
    decreases e - s
  {
    if s < e { WordStops(line, s + 1, e); }
  }

  /** Token w stands at s and ends there; blanks follow up to n. */
  ghost predicate Stands(line: string, s: nat, w: string, n: nat) {
    && ValidToken(w) && s + |w| <= n <= |line| && line[s..s + |w|] == w
    && (forall i :: s + |w| <= i < n ==> line[i] in WHITESPACE) && (n < |line| ==> line[n] !in WHITESPACE)
    && (Word(w) && s + |w| < |line| ==> !IsWord(line[s + |w|]))
    && (w == ">" && s + 1 < |line| ==> line[s + 1] != '>')
  }

  lemma LexOne(line: string, s: nat, w: string, n: nat)
    requires Stands(line, s, w, n)
    ensures s <= |line| && var t := GetToken(line, s); t.kind != '\0' && Text(line, t.span) == w && t.next == n
  {
    TokenStart(w);
    forall i | s <= i < s + |w| ensures line[i] == w[i - s] { assert line[i] == line[s..s + |w|][i - s]; }
    SkipRun(line, s + |w|, n);
    if Word(w) {
      WordStops(line, s, s + |w|);
    } else {
      assert w == ">>" || w == [w[0]];
    }
  }

  lemma LaidStands(line: string, s: nat, toks: seq<string>, gaps: seq<string>)
    requires Separated(toks, gaps) && toks != [] && s <= |line| && line[s..] == Lay(toks, gaps)
    ensures var n := s + |toks[0]| + |gaps[0]|; Stands(line, s, toks[0], n) && line[n..] == Lay(toks[1..], gaps[1..])
  {
    var w, g, rest := toks[0], gaps[0], Lay(toks[1..], gaps[1..]);
    var n := s + |w| + |g|;
    assert line[s..] == w + g + rest;
    assert line[s..s + |w|] == line[s..][..|w|] == w;
    assert line[s + |w|..n] == line[s..][|w|..|w| + |g|] == g;
    assert line[n..] == line[s..][|w| + |g|..] == rest;
    forall i | s + |w| <= i < n ensures line[i] in WHITESPACE {
      assert line[i] == g[i - s - |w|];
      White(line[i]);
    }
    TokenStart(w);
    if |toks| > 1 {
      TokenStart(toks[1]);
      assert rest[0] == toks[1][0] == line[n];
      assert Apart(w, g, toks[1]);
    }
    Ends(line, s + |w|, n, w, if |toks| > 1 then toks[1] else "");
  }

  /** What stands right behind a token. */
  lemma Ends(line: string, e: nat, n: nat, w: string, next: string)
    requires ValidToken(w) && e <= n <= |line| && (forall i :: e <= i < n ==> line[i] in WHITESPACE)
    requires if next == "" then n == |line| else ValidToken(next) && n < |line| && line[n] == next[0]
    requires Apart(w, line[e..n], next)
    ensures Word(w) && e < |line| ==> !IsWord(line[e])
    ensures w == ">" && e < |line| ==> line[e] != '>'
  {
    White('>');
    if next != "" { TokenStart(next); }
  }

  /** Lexing a layout gives the tokens. */
  lemma {:induction false} LaidTokens(line: string, s: nat, toks: seq<string>, gaps: seq<string>)
    requires Separated(toks, gaps) && s <= |line| && line[s..] == Lay(toks, gaps)
    ensures Tokens(line, s) == toks
    decreases |toks|
  {
    hide GetToken, Stands, ValidToken, Apart;
    if toks == [] {
      assert Tokens(line, |line|) == [] by { EndTokens(line); }
    } else {
      var n := s + |toks[0]| + |gaps[0]|;
      LaidStands(line, s, toks, gaps);
      LexOne(line, s, toks[0], n);
      SeparatedTail(toks, gaps);
      LaidTokens(line, n, toks[1..], gaps[1..]);
    }
  }

  lemma EndTokens(line: string)
    ensures Tokens(line, |line|) == []
  {
  }

  lemma SeparatedTail(toks: seq<string>, gaps: seq<string>)
    requires Separated(toks, gaps) && toks != []
    ensures Separated(toks[1..], gaps[1..])
  {
  }

  /** The same with blanks in front. */
  lemma TokensLaid(lead: string, toks: seq<string>, gaps: seq<string>)
    requires Blank(lead) && Separated(toks, gaps)
    ensures Tokens(lead + Lay(toks, gaps), 0) == toks
  {
    hide Tokens, GetToken;
    var line := lead + Lay(toks, gaps);
    forall i | 0 <= i < |lead| ensures line[i] in WHITESPACE { White(line[i]); }
    if toks != [] {
      TokenStart(toks[0]);
      assert line[|lead|] == toks[0][0];
    }
    SkipRun(line, 0, |lead|);
    SkipStays(line, 0);
    assert line[|lead|..] == Lay(toks, gaps);
    LaidTokens(line, |lead|, toks, gaps);
  }

  lemma {:induction false} LaidNoNul(toks: seq<string>, gaps: seq<string>)
    requires Separated(toks, gaps)
    ensures '\0' !in Lay(toks, gaps)
    decreases |toks|
  {
    if toks != [] {
      TokenStart(toks[0]);
      assert '\0' !in gaps[0];
      LaidNoNul(toks[1..], gaps[1..]);
    }
  }

  // ---- printing ----

  /** The trees the parser can build: words of word characters, fewer than MAXARGS arguments, the two
      kinds of redirection. */
  predicate Good(t: Cmd<string>) {
    match t
    case Exec(args) => |args| < MAXARGS && forall i :: 0 <= i < |args| ==> Word(args[i])
    case Redir(c, file, mode, fd) =>
      Good(c) && Word(file) && ((mode, fd) == (O_RDONLY, 0) || (mode, fd) == (O_WRONLY_CREATE, 1))
    case Pipe(l, r) => Good(l) && Good(r)
    case List(l, r) => Good(l) && Good(r)
    case Back(c) => Good(c)
  }

  /** How loosely a tree binds: 0 as an exec, 1 as a pipe, 2 with `&`, 3 as a list. */
  function Level(t: Cmd<string>): (n: nat) {
    match t case Exec(_) => 0 case Redir(_, _, _, _) => 0 case Pipe(_, _) => 1 case Back(_) => 2 case List(_, _) => 3
  }

  /** The tokens of a tree where the grammar wants level lv; `up` is the arrow for output. */
  function Show(t: Cmd<string>, lv: nat, up: string): (toks: seq<string>)
    decreases t, 1
  {
    if lv < Level(t) then ["("] + Plain(t, up) + [")"] else Plain(t, up)
  }

  function Plain(t: Cmd<string>, up: string): (toks: seq<string>)
    decreases t, 0
  {
    match t
    case Exec(args) => args
    case Redir(c, file, _, fd) => Show(c, 0, up) + [if fd == 0 then "<" else up, file]
    case Pipe(l, r) => Show(l, 0, up) + ["|"] + Show(r, 1, up)
    case Back(c) => Show(c, 2, up) + ["&"]
    case List(l, r) => Show(l, 2, up) + [";"] + Show(r, 3, up)
  }

  /** The grammar's four levels. */
  ghost predicate IsAt(toks: seq<string>, t: Cmd<string>, lv: nat) {
    if lv == 0 then IsExec(toks, t) else if lv == 1 then IsPipe(toks, t)
    else if lv == 2 then IsBacked(toks, t) else IsLine(toks, t)
  }

  lemma Looser(toks: seq<string>, t: Cmd<string>, lv: nat, lv': nat)
    requires IsAt(toks, t, lv) && lv <= lv'
    ensures IsAt(toks, t, lv')
  {
    hide IsExec;
    if lv == 0 { assert IsPipe(toks, t); }
    if lv <= 1 { assert IsBacked(toks, t); }
    if lv <= 2 { assert IsLine(toks, t); }
  }

  /** Parentheses make an exec of anything. */
  lemma Bracketed(toks: seq<string>, t: Cmd<string>)
    requires IsLine(toks, t)
    ensures IsExec(["("] + toks + [")"], t)
  {
    hide IsLine;
    var all, m := ["("] + toks + [")"], |toks| + 1;
    assert all[1..m] == toks && all[m + 1..] == [];
    assert Wrap(t, []) == t;
    assert BlockFor(all, t, m, t, []);
  }

  lemma {:induction false} SimpleMore(toks: seq<string>, args: seq<string>, rs: seq<Redirection<string>>, a: string,
                                      f: string, r: Redirection<string>)
    requires IsSimple(toks, args, rs) && IsRedir(a, f, r)
    ensures IsSimple(toks + [a, f], args, rs + [r])
    decreases |toks|
  {
    if toks == [] {
      ArrowNoWord(a, f, r);
      assert [] + [a, f] == [a, f] && [] + [r] == [r];
    } else if Word(toks[0]) {
      SimpleMore(toks[1..], args[1..], rs, a, f, r);
      assert (toks + [a, f])[1..] == toks[1..] + [a, f];
    } else {
      SimpleMore(toks[2..], args, rs[1..], a, f, r);
      assert (toks + [a, f])[2..] == toks[2..] + [a, f] && (rs + [r])[1..] == rs[1..] + [r];
    }
  }

  lemma {:induction false} RedirsMore(toks: seq<string>, rs: seq<Redirection<string>>, a: string, f: string,
                                      r: Redirection<string>)
    requires IsRedirs(toks, rs) && IsRedir(a, f, r)
    ensures IsRedirs(toks + [a, f], rs + [r])
    decreases |rs|
  {
    if rs == [] {
      assert toks + [a, f] == [a, f] && rs + [r] == [r];
      assert [a, f][2..] == [] && [r][1..] == [];
    } else {
      RedirsMore(toks[2..], rs[1..], a, f, r);
      assert (toks + [a, f])[2..] == toks[2..] + [a, f] && (rs + [r])[1..] == rs[1..] + [r];
    }
  }

  /** One more redirection at the end wraps the command. */
  lemma ExecMore(toks: seq<string>, t: Cmd<string>, a: string, f: string, r: Redirection<string>)
    requires IsExec(toks, t) && IsRedir(a, f, r)
    ensures IsExec(toks + [a, f], Redir(t, r.file, r.mode, r.fd))
  {
    hide IsSimple, IsRedirs, IsRedir, IsLine;
    var all, u := toks + [a, f], Redir(t, r.file, r.mode, r.fd);
    if args, rs :| SimpleFor(toks, t, args, rs) {
      SimpleMore(toks, args, rs, a, f, r);
      assert (rs + [r])[..|rs + [r]| - 1] == rs;
      assert SimpleFor(all, u, args, rs + [r]);
    } else {
      var m, c, rs :| BlockFor(toks, t, m, c, rs);
      RedirsMore(toks[m + 1..], rs, a, f, r);
      assert (rs + [r])[..|rs + [r]| - 1] == rs;
      assert all[1..m] == toks[1..m] && all[m + 1..] == toks[m + 1..] + [a, f];
      assert BlockFor(all, u, m, c, rs + [r]);
    }
  }

  lemma {:induction false} AllWords(args: seq<string>)
    requires forall i :: 0 <= i < |args| ==> Word(args[i])
    ensures IsSimple(args, args, [])
    decreases |args|
  {
    if args != [] { AllWords(args[1..]); }
  }

  lemma PairIs(p: seq<string>, op: string, q: seq<string>, m: nat)
    requires m == |p|
    ensures var all := p + [op] + q; PairAt(all, m, op) && all[..m] == p && all[m + 1..] == q
  {
  }

  /** What is printed is a sentence for the tree. */
  lemma {:induction false} PlainDerives(t: Cmd<string>, up: string)
    requires Good(t) && (up == ">" || up == ">>")
    ensures IsAt(Plain(t, up), t, Level(t))
    decreases t, 0
  {
    hide IsExec, IsPipe, IsBacked, IsLine, Show;
    match t
    case Exec(args) =>
      AllWords(args);
      assert Wrap(Exec(args), []) == Exec(args);
      SimpleIsExec(args, args);
    case Redir(c, file, mode, fd) =>
      ShowDerives(c, 0, up);
      ExecMore(Show(c, 0, up), c, if fd == 0 then "<" else up, file, Redirection(file, mode, fd));
    case Pipe(l, r) =>
      ShowDerives(l, 0, up);
      ShowDerives(r, 1, up);
      PairIs(Show(l, 0, up), "|", Show(r, 1, up), |Show(l, 0, up)|);
      PipeOf(Plain(t, up), t, |Show(l, 0, up)|);
    case Back(c) =>
      ShowDerives(c, 2, up);
      BackOf(Show(c, 2, up), c);
    case List(l, r) =>
      ShowDerives(l, 2, up);
      ShowDerives(r, 3, up);
      PairIs(Show(l, 2, up), ";", Show(r, 3, up), |Show(l, 2, up)|);
      ListOf(Plain(t, up), t, |Show(l, 2, up)|);
  }

  lemma SimpleIsExec(toks: seq<string>, args: seq<string>)
    requires IsSimple(toks, args, []) && |args| < 10
    ensures IsExec(toks, Exec(args))
  {
    assert Wrap(Exec(args), []) == Exec(args);
    assert SimpleFor(toks, Exec(args), args, []);
  }

  lemma PipeOf(toks: seq<string>, t: Cmd<string>, m: nat)
    requires t.Pipe? && PairAt(toks, m, "|") && IsExec(toks[..m], t.left) && IsPipe(toks[m + 1..], t.right)
    ensures IsPipe(toks, t)
  {
  }

  lemma BackOf(toks: seq<string>, c: Cmd<string>)
    requires IsBacked(toks, c)
    ensures IsBacked(toks + ["&"], Back(c))
  {
    hide IsPipe;
    assert (toks + ["&"])[..|toks|] == toks;
  }

  lemma ListOf(toks: seq<string>, t: Cmd<string>, m: nat)
    requires t.List? && PairAt(toks, m, ";") && IsBacked(toks[..m], t.left) && IsLine(toks[m + 1..], t.right)
    ensures IsLine(toks, t)
  {
  }

  lemma {:induction false} ShowDerives(t: Cmd<string>, lv: nat, up: string)
    requires Good(t) && (up == ">" || up == ">>") && lv <= 3
    ensures IsAt(Show(t, lv, up), t, lv)
    decreases t, 1
  {
    hide IsExec, IsPipe, IsBacked, IsLine, Plain;
    PlainDerives(t, up);
    if lv < Level(t) {
      Looser(Plain(t, up), t, Level(t), 3);
      Bracketed(Plain(t, up), t);
      Looser(Show(t, lv, up), t, 0, lv);
    } else {
      Looser(Plain(t, up), t, Level(t), lv);
    }
  }

  predicate AllValid(toks: seq<string>) { forall i :: 0 <= i < |toks| ==> ValidToken(toks[i]) }

  lemma ValidParts(p: seq<string>, q: seq<string>)
    requires AllValid(p) && AllValid(q)
    ensures AllValid(p + q)
  {
  }

  lemma ValidWord(w: string)
    requires Word(w) || w in ["<", ">", ">>", "|", "&", ";", "(", ")"]
    ensures AllValid([w])
  {
  }

  lemma {:induction false} PlainValid(t: Cmd<string>, up: string)
    requires Good(t) && (up == ">" || up == ">>")
    ensures AllValid(Plain(t, up))
    decreases t, 0
  {
    hide Word, Show, ValidToken, AllValid;
    match t
    case Exec(args) => assert AllValid(args) by { WordsValid(args); }
    case Redir(c, file, _, fd) =>
      var a := if fd == 0 then "<" else up;
      ShowValid(c, 0, up);
      ValidWord(a);
      ValidWord(file);
      ValidParts([a], [file]);
      assert [a] + [file] == [a, file];
      ValidParts(Show(c, 0, up), [a, file]);
    case Pipe(l, r) => ShowValid(l, 0, up); ShowValid(r, 1, up); ValidPair(Show(l, 0, up), "|", Show(r, 1, up));
    case Back(c) => ShowValid(c, 2, up); ValidWord("&"); ValidParts(Show(c, 2, up), ["&"]);
    case List(l, r) => ShowValid(l, 2, up); ShowValid(r, 3, up); ValidPair(Show(l, 2, up), ";", Show(r, 3, up));
  }

  lemma WordsValid(args: seq<string>)
    requires forall i :: 0 <= i < |args| ==> Word(args[i])
    ensures AllValid(args)
  {
  }

  lemma ValidPair(p: seq<string>, op: string, q: seq<string>)
    requires AllValid(p) && AllValid(q) && op in ["<", ">", ">>", "|", "&", ";", "(", ")"]
    ensures AllValid(p + [op] + q)
  {
    hide AllValid, ValidToken;
    ValidWord(op);
    ValidParts(p, [op]);
    ValidParts(p + [op], q);
  }

  lemma {:induction false} ShowValid(t: Cmd<string>, lv: nat, up: string)
    requires Good(t) && (up == ">" || up == ">>")
    ensures AllValid(Show(t, lv, up))
    decreases t, 1
  {
    hide AllValid, ValidToken, Plain;
    PlainValid(t, up);
    if lv < Level(t) {
      ValidWord("(");
      ValidParts(["("], Plain(t, up));
      ValidWord(")");
      ValidParts(["("] + Plain(t, up), [")"]);
    }
  }

  /** The round trip: every tree the parser can build, printed with either arrow for output and laid out
      with any blanks, comes back. */
  lemma RoundTrip(t: Cmd<string>, up: string, lead: string, gaps: seq<string>)
    requires Good(t) && (up == ">" || up == ">>") && Blank(lead) && Separated(Plain(t, up), gaps)
    ensures var line := lead + Lay(Plain(t, up), gaps); ParseCmd(line).Ok? && Erase(line, ParseCmd(line).value) == t
  {
    hide ParseCmd, Plain, Erase, Good, IsLine, Tokens, Separated, Lay;
    var toks := Plain(t, up);
    assert |gaps| == |toks| by { SameCount(toks, gaps); }
    var line := lead + Lay(toks, gaps);
    TokensLaid(lead, toks, gaps);
    LaidNoNul(toks, gaps);
    assert '\0' !in line;
    ShowDerives(t, 3, up);
    ParsesExactly(line, t);
  }

  lemma SameCount(toks: seq<string>, gaps: seq<string>)
    requires Separated(toks, gaps)
    ensures |gaps| == |toks|
  {
  }

  /** A plain layout: one blank behind every token. */
  function Render(t: Cmd<string>): (line: string) {
    Lay(Plain(t, ">"), Spaces(|Plain(t, ">")|))
  }

  function Spaces(n: nat): (gaps: seq<string>)
    ensures |gaps| == n
  {
    seq(n, _ => " ")
  }

  lemma RenderBack(t: Cmd<string>)
    requires Good(t)
    ensures ParseCmd(Render(t)).Ok? && Erase(Render(t), ParseCmd(Render(t)).value) == t
  {
    hide ParseCmd, Plain, Erase, Good, ValidToken;
    PlainValid(t, ">");
    var toks := Plain(t, ">");
    assert Separated(toks, Spaces(|toks|));
    RoundTrip(t, ">", "", Spaces(|toks|));
    assert "" + Render(t) == Render(t);
  }
}
