/** The command language of sh.c as a grammar over tokens, and the proof that the parser accepts exactly
    its sentences, each with its tree.

      line  ::= back | back ";" line
      back  ::= pipe | back "&"
      pipe  ::= exec | exec "|" pipe
      exec  ::= "(" line ")" redir*  |  words and redirections in any order
      redir ::= "<" word | ">" word | ">>" word */
module ShellGrammar {
  import opened ShellSyntax

  /** Blanks, tabs, line ends and vertical tabs separate words, and so do the seven symbols. */
  predicate Word(w: string) { w != "" && forall i :: 0 <= i < |w| ==> IsWord(w[i]) && w[i] != '\0' }

  lemma WordCharacters(c: char)
    ensures IsWord(c) <==>
      && c as int !in {32, 9, 13, 10, 11}
      && c != '<' && c != '|' && c != '>' && c != '&' && c != ';' && c != '(' && c != ')'
  {
    assert WHITESPACE == [' ', '\t', '\r', '\n', '\U{000B}'];
    assert SYMBOLS == ['<', '|', '>', '&', ';', '(', ')'];
  }

  function Text(line: string, w: Span): (s: string) {
    if w.q <= w.eq <= |line| then line[w.q..w.eq] else ""
  }

  function Texts(line: string, ws: seq<Span>): (r: seq<string>)
    ensures |r| == |ws|
  {
    seq(|ws|, i requires 0 <= i < |ws| => Text(line, ws[i]))
  }

  /** The tree with each span replaced by the text it covers. */
  function Erase(line: string, c: Cmd<Span>): (t: Cmd<string>) {
    match c
    case Exec(args) => Exec(Texts(line, args))
    case Redir(d, file, mode, fd) => Redir(Erase(line, d), Text(line, file), mode, fd)
    case Pipe(l, r) => Pipe(Erase(line, l), Erase(line, r))
    case List(l, r) => List(Erase(line, l), Erase(line, r))
    case Back(d) => Back(Erase(line, d))
  }

  function Redirected(line: string, rs: seq<Redirection<Span>>): (r: seq<Redirection<string>>)
    ensures |r| == |rs|
  {
    seq(|rs|, i requires 0 <= i < |rs| => Redirection(Text(line, rs[i].file), rs[i].mode, rs[i].fd))
  }

  // ---- the grammar ----

  /** What each arrow opens: `<` for reading as descriptor 0, `>` and `>>` for writing as descriptor 1,
      creating the file. */
  predicate IsRedir(arrow: string, file: string, r: Redirection<string>) {
    && Word(file) && r.file == file
    && ((arrow == "<" && r.mode == 0 && r.fd == 0) || ((arrow == ">" || arrow == ">>") && r.mode == 0x201 && r.fd == 1))
  }

  predicate IsRedirs(toks: seq<string>, rs: seq<Redirection<string>>) {
    if rs == [] then toks == []
    else |toks| >= 2 && IsRedir(toks[0], toks[1], rs[0]) && IsRedirs(toks[2..], rs[1..])
  }

  /** Words and redirections in any order. */
  predicate IsSimple(toks: seq<string>, args: seq<string>, rs: seq<Redirection<string>>)
    decreases |toks|
  {
    if toks == [] then args == [] && rs == []
    else if Word(toks[0]) then args != [] && args[0] == toks[0] && IsSimple(toks[1..], args[1..], rs)
    else |toks| >= 2 && rs != [] && IsRedir(toks[0], toks[1], rs[0]) && IsSimple(toks[2..], args, rs[1..])
  }

  ghost predicate SimpleFor(toks: seq<string>, t: Cmd<string>, args: seq<string>, rs: seq<Redirection<string>>) {
    IsSimple(toks, args, rs) && |args| < 10 && t == Wrap(Exec(args), rs)
  }

  ghost predicate BlockFor(toks: seq<string>, t: Cmd<string>, m: int, c: Cmd<string>, rs: seq<Redirection<string>>)
    decreases |toks|, 0
  {
    && 0 < m < |toks| && toks[0] == "(" && toks[m] == ")"
    && IsLine(toks[1..m], c) && IsRedirs(toks[m + 1..], rs) && t == Wrap(c, rs)
  }

  ghost predicate IsExec(toks: seq<string>, t: Cmd<string>)
    decreases |toks|, 1
  {
    || (exists args, rs :: SimpleFor(toks, t, args, rs))
    || (exists m, c, rs :: BlockFor(toks, t, m, c, rs))
  }

  ghost predicate PairAt(toks: seq<string>, m: int, op: string) { 0 <= m < |toks| && toks[m] == op }

  ghost predicate IsPipe(toks: seq<string>, t: Cmd<string>)
    decreases |toks|, 2
  {
    || IsExec(toks, t)
    || (t.Pipe? && exists m :: PairAt(toks, m, "|") && IsExec(toks[..m], t.left) && IsPipe(toks[m + 1..], t.right))
  }

  ghost predicate IsBacked(toks: seq<string>, t: Cmd<string>)
    decreases |toks|, 3
  {
    || IsPipe(toks, t)
    || (t.Back? && PairAt(toks, |toks| - 1, "&") && IsBacked(toks[..|toks| - 1], t.cmd))
  }

  ghost predicate IsLine(toks: seq<string>, t: Cmd<string>)
    decreases |toks|, 4
  {
    || IsBacked(toks, t)
    || (t.List? && exists m :: PairAt(toks, m, ";") && IsBacked(toks[..m], t.left) && IsLine(toks[m + 1..], t.right))
  }

  // ---- tokens ----

  /** What gettoken finds from s on. */
  function Tokens(line: string, s: nat): (toks: seq<string>)
    requires s <= |line|
    decreases |line| - s
  {
    var t := GetToken(line, s);
    if t.kind == '\0' then [] else [Text(line, t.span)] + Tokens(line, t.next)
  }

  function Kind(w: string): (c: char)
    requires w != ""
  {
    if w == ">>" then '+' else if w[0] in SYMBOLS then w[0] else 'a'
  }

  lemma {:induction false} WordRun(line: string, s: nat)
    requires s <= |line|
    ensures forall i :: s <= i < WordEnd(line, s) ==> IsWord(line[i])
    ensures WordEnd(line, s) < |line| ==> !IsWord(line[WordEnd(line, s)])
    decreases |line| - s
  {
    if s < |line| && IsWord(line[s]) { WordRun(line, s + 1); }
  }

  /** The token at q. */
  lemma LexAt(line: string, q: nat)
    requires q < |line| && '\0' !in line && line[q] !in WHITESPACE
    ensures var (kind, e) := TokenAt(line, q);
      && q < e && var w := line[q..e];
      && kind != '\0' && kind == Kind(w) && (kind == 'a' <==> Word(w))
      && (w[0] in SYMBOLS ==> |w| == 1 || w == ">>")
  {
    WordRun(line, q);
    var (kind, e) := TokenAt(line, q);
    var w := line[q..e];
    assert w[0] == line[q];
    if kind == 'a' && line[q] !in SYMBOLS {
      forall i | 0 <= i < |w| ensures IsWord(w[i]) && w[i] != '\0' { assert w[i] == line[q + i]; }
    }
  }

  /** One token: its kind follows from its text, and exactly the words have kind 'a'. */
  lemma Lex(line: string, s: nat)
    requires s <= |line| && '\0' !in line
    ensures var t, toks := GetToken(line, s), Tokens(line, s);
      && (t.kind == '\0' <==> toks == [])
      && (toks != [] ==>
            && toks[0] == Text(line, t.span) != "" && toks[1..] == Tokens(line, t.next)
            && t.kind == Kind(toks[0]) && (t.kind == 'a' <==> Word(toks[0]))
            && (toks[0][0] in SYMBOLS ==> |toks[0]| == 1 || toks[0] == ">>"))
  {
    hide TokenAt, Kind, Word;
    var q := SkipSpace(line, s);
    if q < |line| { LexAt(line, q); } else { LexEnd(line); }
  }

  lemma LexEnd(line: string)
    ensures TokenAt(line, |line|).0 == '\0'
  {
  }

  lemma SkipStays(line: string, s: nat)
    requires s <= |line|
    ensures SkipSpace(line, SkipSpace(line, s)) == SkipSpace(line, s)
    ensures GetToken(line, SkipSpace(line, s)) == GetToken(line, s)
    ensures Tokens(line, SkipSpace(line, s)) == Tokens(line, s)
  {
  }

  /** peek looks at the first character of the next token. */
  lemma PeekIs(line: string, s: nat, cs: string)
    requires s <= |line| && '\0' !in line
    ensures Tokens(line, s) != [] ==> Tokens(line, s)[0] != ""
    ensures Peek(line, s, cs) <==> Tokens(line, s) != [] && Tokens(line, s)[0][0] in cs
  {
    var q := SkipSpace(line, s);
    if q < |line| { assert Text(line, GetToken(line, s).span)[0] == line[q]; }
  }

  /** At the end of the input. */
  lemma NoTokens(line: string, s: nat)
    requires s <= |line| && '\0' !in line
    ensures Tokens(line, s) == [] <==> SkipSpace(line, s) == |line|
    ensures Tokens(line, s) == [] ==> GetToken(line, s).next == |line|
    ensures Tokens(line, |line|) == []
  {
  }

  // ---- everything accepted is a sentence ----

  lemma ErasedNext(line: string, r: Redirection<Span>, rs: seq<Redirection<Span>>)
    ensures Redirected(line, [r] + rs) == [Redirection(Text(line, r.file), r.mode, r.fd)] + Redirected(line, rs)
  {
  }

  lemma ErasedMore(line: string, a: seq<Redirection<Span>>, b: seq<Redirection<Span>>)
    ensures Redirected(line, a + b) == Redirected(line, a) + Redirected(line, b)
  {
  }

  lemma {:induction false} ErasedWrap(line: string, c: Cmd<Span>, rs: seq<Redirection<Span>>)
    ensures Erase(line, Wrap(c, rs)) == Wrap(Erase(line, c), Redirected(line, rs))
    decreases |rs|
  {
    if rs != [] {
      ErasedWrap(line, c, rs[..|rs| - 1]);
      assert Redirected(line, rs)[..|rs| - 1] == Redirected(line, rs[..|rs| - 1]);
    }
  }

  lemma {:induction false} RedirsDerive(line: string, s: nat) returns (part: seq<string>)
    requires s <= |line| && '\0' !in line && Redirs(line, s).Ok?
    ensures Tokens(line, s) == part + Tokens(line, Redirs(line, s).next)
    ensures IsRedirs(part, Redirected(line, Redirs(line, s).value))
    decreases |line| - s
  {
    hide Peek, GetToken, SkipSpace, Tokens, Kind, Word, Text;
    PeekIs(line, s, "<>");
    SkipStays(line, s);
    if !Peek(line, s, "<>") {
      part := [];
    } else {
      var tok := GetToken(line, s);
      Lex(line, s);
      Lex(line, tok.next);
      var file := GetToken(line, tok.next);
      var more := RedirsDerive(line, file.next);
      var a, f := Tokens(line, s)[0], Tokens(line, tok.next)[0];
      part := [a, f] + more;
      var r := RedirTo(tok.kind, file.span);
      ErasedNext(line, r, Redirs(line, file.next).value);
      ArrowKind(a, f, tok.kind);
      assert Tokens(line, s) == [a] + ([f] + Tokens(line, file.next));
      assert part[2..] == more;
      var rs := Redirected(line, Redirs(line, s).value);
      assert rs[0] == Redirection(f, r.mode, r.fd) && rs[1..] == Redirected(line, Redirs(line, file.next).value);
    }
  }

  lemma ArrowKind(a: string, f: string, kind: char)
    requires a != "" && a[0] in "<>" && kind == Kind(a) && Word(f) && (a == ">>" || |a| == 1)
    ensures var r := RedirTo(kind, f); IsRedir(a, f, r)
  {
    assert "<>" == ['<', '>'];
    assert a == ">>" || a == [a[0]];
  }

  lemma {:induction false} RedirsFirst(p: seq<string>, rs: seq<Redirection<string>>, q: seq<string>, args: seq<string>,
                                       more: seq<Redirection<string>>)
    requires IsRedirs(p, rs) && IsSimple(q, args, more)
    ensures IsSimple(p + q, args, rs + more)
    decreases |rs|
  {
    if rs == [] {
      assert p + q == q && rs + more == more;
    } else {
      RedirsFirst(p[2..], rs[1..], q, args, more);
      assert (p + q)[2..] == p[2..] + q && (rs + more)[1..] == rs[1..] + more;
      assert !Word(p[0]) by { ArrowNoWord(p[0], p[1], rs[0]); }
    }
  }

  lemma ArrowNoWord(a: string, f: string, r: Redirection<string>)
    requires IsRedir(a, f, r)
    ensures !Word(a) && a != "" && a[0] in "<>"
  {
    assert a[0] in SYMBOLS;
  }

  lemma WordFirst(w: string, q: seq<string>, args: seq<string>, rs: seq<Redirection<string>>)
    requires Word(w) && IsSimple(q, args, rs)
    ensures IsSimple([w] + q, [w] + args, rs)
  {
    assert ([w] + q)[1..] == q && ([w] + args)[1..] == args;
  }

  lemma TextsMore(line: string, args: seq<Span>, w: Span)
    ensures Texts(line, args + [w]) == Texts(line, args) + [Text(line, w)]
  {
  }

  lemma NoneSimple()
    ensures IsSimple([], [], [])
  {
  }

  lemma ErasedExec(line: string, args: seq<Span>, rs: seq<Redirection<Span>>)
    ensures Erase(line, Wrap(Exec(args), rs)) == Wrap(Exec(Texts(line, args)), Redirected(line, rs))
  {
    ErasedWrap(line, Exec(args), rs);
  }

  lemma {:induction false} ArgsDerive(line: string, s: nat, args: seq<Span>, rs: seq<Redirection<Span>>)
    returns (part: seq<string>, words: seq<string>, more: seq<Redirection<string>>)
    requires s <= |line| && '\0' !in line && |args| < 10 && Args(line, s, args, rs).Ok?
    ensures var r := Args(line, s, args, rs);
      && Tokens(line, s) == part + Tokens(line, r.next) && IsSimple(part, words, more) && |args| + |words| < 10
      && Erase(line, r.value) == Wrap(Exec(Texts(line, args) + words), Redirected(line, rs) + more)
    decreases |line| - s
  {
    hide Peek, GetToken, SkipSpace, Tokens, Kind, Word, Text, Redirs, Wrap, Texts, Redirected, IsRedirs, IsSimple,
      Erase;
    SkipStays(line, s);
    Lex(line, s);
    NoTokens(line, s);
    var tok := GetToken(line, s);
    if Peek(line, s, "|)&;") || tok.kind == '\0' {
      part, words, more := [], [], [];
      assert IsSimple(part, words, more) by { NoneSimple(); }
      ErasedExec(line, args, rs);
      assert Texts(line, args) + [] == Texts(line, args) && Redirected(line, rs) + [] == Redirected(line, rs);
    } else {
      var r := Redirs(line, tok.next);
      var p1 := RedirsDerive(line, tok.next);
      var p2, words2, more2 := ArgsDerive(line, r.next, args + [tok.span], rs + r.value);
      var w := Text(line, tok.span);
      part, words, more := [w] + (p1 + p2), [w] + words2, Redirected(line, r.value) + more2;
      RedirsFirst(p1, Redirected(line, r.value), p2, words2, more2);
      WordFirst(w, p1 + p2, words2, more);
      TextsMore(line, args, tok.span);
      ErasedMore(line, rs, r.value);
      assert Tokens(line, s) == [w] + (p1 + (p2 + Tokens(line, Args(line, s, args, rs).next)));
      assert Texts(line, args) + [w] + words2 == Texts(line, args) + words;
      assert Redirected(line, rs) + Redirected(line, r.value) + more2 == Redirected(line, rs) + more;
    }
  }

  /** A peek for one symbol sees that symbol as a token of its own. */
  lemma PeekSymbol(line: string, s: nat, c: char)
    requires s <= |line| && '\0' !in line && c in SYMBOLS && c != '>'
    ensures Peek(line, s, [c]) <==> Tokens(line, s) != [] && Tokens(line, s)[0] == [c]
    ensures Peek(line, s, [c]) ==> Tokens(line, s) == [[c]] + Tokens(line, GetToken(line, SkipSpace(line, s)).next)
    ensures Peek(line, s, [c]) ==> s < GetToken(line, SkipSpace(line, s)).next
  {
    hide Peek, GetToken, SkipSpace, Tokens, Kind, Word, Text;
    SkipStays(line, s);
    PeekIs(line, s, [c]);
    Lex(line, s);
  }

  lemma {:induction false} ExecDerives(line: string, s: nat) returns (part: seq<string>)
    requires s <= |line| && '\0' !in line && ParseExec(line, s).Ok?
    ensures Tokens(line, s) == part + Tokens(line, ParseExec(line, s).next)
    ensures IsExec(part, Erase(line, ParseExec(line, s).value))
    decreases |line| - s, 2
  {
    hide Peek, GetToken, SkipSpace, Tokens, Redirs, Args, ParseBlock, IsSimple, IsRedirs, Wrap, Erase, IsLine;
    SkipStays(line, s);
    if Peek(line, s, "(") {
      PeekStays(line, s, "(");
      part := BlockDerives(line, SkipSpace(line, s));
    } else {
      var rs := Redirs(line, s);
      var p1 := RedirsDerive(line, s);
      var p2, words, more := ArgsDerive(line, rs.next, [], rs.value);
      part := p1 + p2;
      var all := Redirected(line, rs.value) + more;
      RedirsFirst(p1, Redirected(line, rs.value), p2, words, more);
      assert Texts(line, []) + words == words;
      var t := Erase(line, ParseExec(line, s).value);
      assert SimpleFor(part, t, words, all);
    }
  }

  lemma PeekStays(line: string, s: nat, cs: string)
    requires s <= |line|
    ensures Peek(line, SkipSpace(line, s), cs) <==> Peek(line, s, cs)
  {
  }

  lemma {:induction false} BlockDerives(line: string, s: nat) returns (part: seq<string>)
    requires s <= |line| && '\0' !in line && Peek(line, s, "(") && ParseBlock(line, s).Ok?
    ensures Tokens(line, s) == part + Tokens(line, ParseBlock(line, s).next)
    ensures IsExec(part, Erase(line, ParseBlock(line, s).value))
    decreases |line| - s, 1
  {
    hide Peek, GetToken, SkipSpace, Tokens, Redirs, ParseLine, IsSimple, IsRedirs, Wrap, Erase, IsLine, SimpleFor;
    PeekSymbol(line, s, '(');
    var start := GetToken(line, SkipSpace(line, s)).next;
    var inner := LineDerives(line, start);
    var c := ParseLine(line, start);
    PeekSymbol(line, c.next, ')');
    var last := GetToken(line, SkipSpace(line, c.next)).next;
    var rs := Redirs(line, last);
    var p := RedirsDerive(line, last);
    ErasedWrap(line, c.value, rs.value);
    part := ["("] + inner + [")"] + p;
    var m := |inner| + 1;
    assert part[1..m] == inner && part[m + 1..] == p && part[m] == ")";
    assert BlockFor(part, Erase(line, ParseBlock(line, s).value), m, Erase(line, c.value), Redirected(line, rs.value));
    assert Tokens(line, s) == ["("] + (inner + ([")"] + (p + Tokens(line, rs.next))));
  }

  lemma {:induction false} PipeDerives(line: string, s: nat) returns (part: seq<string>)
    requires s <= |line| && '\0' !in line && ParsePipe(line, s).Ok?
    ensures Tokens(line, s) == part + Tokens(line, ParsePipe(line, s).next)
    ensures IsPipe(part, Erase(line, ParsePipe(line, s).value))
    decreases |line| - s, 3
  {
    hide Peek, GetToken, SkipSpace, Tokens, ParseExec, IsExec;
    var l := ParseExec(line, s);
    part := ExecDerives(line, s);
    SkipStays(line, l.next);
    PeekSymbol(line, l.next, '|');
    if Peek(line, l.next, "|") {
      var n := GetToken(line, SkipSpace(line, l.next)).next;
      var left := part;
      var right := PipeDerives(line, n);
      part := left + ["|"] + right;
      var m := |left|;
      assert part[..m] == left && part[m + 1..] == right && PairAt(part, m, "|");
      assert Tokens(line, s) == left + (["|"] + (right + Tokens(line, ParsePipe(line, n).next)));
    }
  }

  lemma {:induction false} BacksDerive(line: string, s: nat, c: Cmd<Span>, done: seq<string>)
    returns (part: seq<string>)
    requires s <= |line| && '\0' !in line && IsBacked(done, Erase(line, c))
    ensures Tokens(line, s) == part + Tokens(line, Backs(line, s, c).1)
    ensures IsBacked(done + part, Erase(line, Backs(line, s, c).0))
    decreases |line| - s
  {
    hide Peek, GetToken, SkipSpace, Tokens, IsPipe;
    PeekSymbol(line, s, '&');
    SkipStays(line, s);
    if Peek(line, s, "&") {
      var n := GetToken(line, SkipSpace(line, s)).next;
      var more := done + ["&"];
      assert more[..|more| - 1] == done;
      part := BacksDerive(line, n, Back(c), more);
      assert done + (["&"] + part) == more + part;
      assert Tokens(line, s) == (["&"] + part) + Tokens(line, Backs(line, s, c).1);
      part := ["&"] + part;
    } else {
      part := [];
      assert done + [] == done;
    }
  }

  /** Whatever parseline accepts, the tokens it has consumed are a sentence with its tree. */
  lemma {:induction false} LineDerives(line: string, s: nat) returns (part: seq<string>)
    requires s <= |line| && '\0' !in line && ParseLine(line, s).Ok?
    ensures Tokens(line, s) == part + Tokens(line, ParseLine(line, s).next)
    ensures IsLine(part, Erase(line, ParseLine(line, s).value))
    decreases |line| - s, 4
  {
    hide Peek, GetToken, SkipSpace, Tokens, ParsePipe, Backs, IsPipe, IsBacked;
    var first := PipeDerives(line, s);
    var r := ParsePipe(line, s);
    assert IsBacked(first, Erase(line, r.value)) by { PipeIsBacked(first, Erase(line, r.value)); }
    var more := BacksDerive(line, r.next, r.value, first);
    var (left, p) := Backs(line, r.next, r.value);
    part := first + more;
    assert Tokens(line, s) == part + Tokens(line, p);
    SkipStays(line, p);
    PeekSymbol(line, p, ';');
    if Peek(line, p, ";") {
      var n := GetToken(line, SkipSpace(line, p)).next;
      var right := LineDerives(line, n);
      var m := |part|;
      var whole := part + [";"] + right;
      assert whole[..m] == part && whole[m + 1..] == right && PairAt(whole, m, ";");
      assert Tokens(line, s) == part + ([";"] + (right + Tokens(line, ParseLine(line, n).next)));
      part := whole;
    }
  }

  lemma PipeIsBacked(toks: seq<string>, t: Cmd<string>)
    requires IsPipe(toks, t)
    ensures IsBacked(toks, t)
  {
  }
}
