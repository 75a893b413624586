/** The other direction of the grammar's correctness: the parser accepts every sentence, and what it
    accepts has one tree. */
module ShellExact {
  import opened ShellSyntax
  import opened ShellGrammar

  /** The rest of the input starts with one of these characters, if there is a rest. */
  predicate Stops(rest: seq<string>, cs: string) { rest == [] || (rest[0] != "" && rest[0][0] in cs) }

  predicate NoArrow(rest: seq<string>) { rest == [] || (rest[0] != "" && rest[0][0] !in "<>") }

  /** A result that stands for tree t and leaves the given tokens. */
  ghost predicate Yields(line: string, r: Result<Cmd<Span>>, t: Cmd<string>, rest: seq<string>) {
    r.Ok? && r.next <= |line| && Tokens(line, r.next) == rest && Erase(line, r.value) == t
  }

  /** Consuming the first of several tokens. */
  lemma FirstToken(line: string, s: nat, w: string, more: seq<string>)
    requires s <= |line| && '\0' !in line && Tokens(line, s) == [w] + more
    ensures var tok := GetToken(line, s);
      tok.kind != '\0' && w != "" && tok.kind == Kind(w) && (tok.kind == 'a' <==> Word(w)) && Text(line, tok.span) == w
      && Tokens(line, tok.next) == more && s < tok.next
  {
    hide GetToken, Tokens, Kind, Word, Text;
    Lex(line, s);
    assert Tokens(line, s)[0] == w && Tokens(line, s)[1..] == more;
  }

  lemma ArrowMeans(a: string, f: string, r: Redirection<string>, file: Span)
    requires IsRedir(a, f, r)
    ensures a != "" && var x := RedirTo(Kind(a), file); x == Redirection(file, r.mode, r.fd)
  {
    assert a[0] in SYMBOLS;
  }

  lemma {:induction false} RedirsAccept(line: string, s: nat, part: seq<string>, rs: seq<Redirection<string>>,
                                        rest: seq<string>)
    requires s <= |line| && '\0' !in line && Tokens(line, s) == part + rest && IsRedirs(part, rs) && NoArrow(rest)
    ensures var r := Redirs(line, s); r.Ok? && Tokens(line, r.next) == rest && Redirected(line, r.value) == rs
    decreases |line| - s
  {
    hide Peek, GetToken, SkipSpace, Tokens, Kind, Word, Text, RedirTo;
    PeekIs(line, s, "<>");
    SkipStays(line, s);
    if rs == [] {
      assert part + rest == rest;
    } else {
      var a, f := part[0], part[1];
      assert part + rest == [a] + ([f] + (part[2..] + rest));
      ArrowNoWord(a, f, rs[0]);
      FirstToken(line, s, a, [f] + (part[2..] + rest));
      var tok := GetToken(line, s);
      FirstToken(line, tok.next, f, part[2..] + rest);
      var file := GetToken(line, tok.next);
      assert file.kind == 'a';
      RedirsAccept(line, file.next, part[2..], rs[1..], rest);
      ArrowMeans(a, f, rs[0], file.span);
      ErasedNext(line, RedirTo(tok.kind, file.span), Redirs(line, file.next).value);
      assert rs == [rs[0]] + rs[1..];
    }
  }

  lemma {:induction false} SplitRedirs(q: seq<string>, words: seq<string>, rs: seq<Redirection<string>>)
    returns (p1: seq<string>, r1: seq<Redirection<string>>, p2: seq<string>, r2: seq<Redirection<string>>)
    requires IsSimple(q, words, rs)
    ensures q == p1 + p2 && rs == r1 + r2 && IsRedirs(p1, r1) && IsSimple(p2, words, r2)
    ensures p2 == [] || Word(p2[0])
    decreases |q|
  {
    hide Word, IsRedir;
    if q == [] || Word(q[0]) {
      p1, r1, p2, r2 := [], [], q, rs;
    } else {
      p1, r1, p2, r2 := SplitRedirs(q[2..], words, rs[1..]);
      p1, r1 := [q[0], q[1]] + p1, [rs[0]] + r1;
      assert p1[2..] + p2 == q[2..] && r1[1..] + r2 == rs[1..];
      assert q == [q[0], q[1]] + q[2..];
    }
  }

  lemma WordStarts(w: string)
    requires Word(w)
    ensures w != "" && w[0] !in "<>" && w[0] !in "|)&;" && w[0] !in "(" && w[0] !in SYMBOLS
  {
    assert forall c :: c in "<>" || c in "|)&;" || c in "(" ==> c in SYMBOLS;
  }

  lemma ArgsStop(line: string, s: nat, args: seq<Span>, rs: seq<Redirection<Span>>)
    requires s <= |line| && '\0' !in line && Stops(Tokens(line, s), "|)&;")
    ensures Yields(line, Args(line, s, args, rs), Wrap(Exec(Texts(line, args)), Redirected(line, rs)), Tokens(line, s))
  {
    hide GetToken, SkipSpace, Tokens, Wrap, Redirs, Peek;
    SkipStays(line, s);
    PeekIs(line, s, "|)&;");
    NoTokens(line, s);
    Lex(line, s);
    ErasedWrap(line, Exec(args), rs);
  }

  lemma ArgsStep(line: string, s: nat, args: seq<Span>, rs: seq<Redirection<Span>>)
    requires s <= |line| && '\0' !in line && !Peek(line, s, "|)&;") && |args| + 1 < 10 && GetToken(line, s).kind == 'a'
    requires Redirs(line, GetToken(line, s).next).Ok?
    ensures var tok := GetToken(line, s);
      var more := Redirs(line, tok.next);
      Args(line, s, args, rs) == Args(line, more.next, args + [tok.span], rs + more.value)
  {
    hide GetToken, SkipSpace, Wrap, Redirs, Peek;
    SkipStays(line, s);
  }

  lemma {:induction false} ArgsAccept(line: string, s: nat, args: seq<Span>, acc: seq<Redirection<Span>>,
                                      part: seq<string>, words: seq<string>, rs: seq<Redirection<string>>,
                                      rest: seq<string>)
    requires s <= |line| && '\0' !in line && Tokens(line, s) == part + rest && IsSimple(part, words, rs)
    requires (part == [] || Word(part[0])) && |args| + |words| < 10 && Stops(rest, "|)&;")
    ensures Yields(line, Args(line, s, args, acc),
                   Wrap(Exec(Texts(line, args) + words), Redirected(line, acc) + rs), rest)
    decreases |part|
  {
    hide Peek, GetToken, SkipSpace, Tokens, Kind, Text, Redirs, Wrap, Texts, Redirected, IsRedirs, Args, Word;
    if part == [] {
      assert part + rest == rest;
      ArgsStop(line, s, args, acc);
      assert Texts(line, args) + words == Texts(line, args) && Redirected(line, acc) + rs == Redirected(line, acc);
    } else {
      var w := part[0];
      WordStarts(w);
      assert part + rest == [w] + (part[1..] + rest);
      FirstToken(line, s, w, part[1..] + rest);
      PeekIs(line, s, "|)&;");
      var tok := GetToken(line, s);
      var p1, r1, p2, r2 := SplitRedirs(part[1..], words[1..], rs);
      assert p1 + (p2 + rest) == part[1..] + rest;
      assert NoArrow(p2 + rest) by { RestNoArrow(p2, rest); }
      RedirsAccept(line, tok.next, p1, r1, p2 + rest);
      var more := Redirs(line, tok.next);
      ArgsStep(line, s, args, acc);
      ArgsAccept(line, more.next, args + [tok.span], acc + more.value, p2, words[1..], r2, rest);
      TextsMore(line, args, tok.span);
      ErasedMore(line, acc, more.value);
      assert Texts(line, args) + [w] + words[1..] == Texts(line, args) + words;
      assert Redirected(line, acc) + r1 + r2 == Redirected(line, acc) + rs;
    }
  }

  lemma RestNoArrow(p: seq<string>, rest: seq<string>)
    requires (p == [] || Word(p[0])) && Stops(rest, "|)&;")
    ensures NoArrow(p + rest)
  {
    if p != [] { WordStarts(p[0]); }
  }

  lemma SimpleAccept(line: string, s: nat, part: seq<string>, t: Cmd<string>, words: seq<string>,
                     rs: seq<Redirection<string>>, rest: seq<string>)
    requires s <= |line| && '\0' !in line && Tokens(line, s) == part + rest && SimpleFor(part, t, words, rs)
    requires Stops(rest, "|)&;")
    ensures Yields(line, ParseExec(line, s), t, rest)
  {
    hide Peek, GetToken, SkipSpace, Tokens, Kind, Redirs, Wrap, Texts, Redirected, IsRedirs, IsSimple, Args, Word;
    var p1, r1, p2, r2 := SplitRedirs(part, words, rs);
    assert p1 + (p2 + rest) == part + rest;
    assert NoArrow(p2 + rest) by { RestNoArrow(p2, rest); }
    PeekIs(line, s, "(");
    NoParen(part, words, rs, rest);
    RedirsAccept(line, s, p1, r1, p2 + rest);
    var more := Redirs(line, s);
    ArgsAccept(line, more.next, [], more.value, p2, words, r2, rest);
    assert Texts(line, []) + words == words by { NoTexts(line); }
  }

  lemma NoTexts(line: string)
    ensures Texts(line, []) == []
  {
  }

  lemma NoParen(part: seq<string>, words: seq<string>, rs: seq<Redirection<string>>, rest: seq<string>)
    requires IsSimple(part, words, rs) && Stops(rest, "|)&;")
    ensures (part + rest) == [] || ((part + rest)[0] != "" && (part + rest)[0][0] !in "(")
  {
    if part != [] {
      if Word(part[0]) { WordStarts(part[0]); } else { ArrowNoWord(part[0], part[1], rs[0]); }
    }
  }

  lemma {:induction false} ExecAccept(line: string, s: nat, part: seq<string>, t: Cmd<string>, rest: seq<string>)
    requires s <= |line| && '\0' !in line && Tokens(line, s) == part + rest && IsExec(part, t) && Stops(rest, "|)&;")
    ensures Yields(line, ParseExec(line, s), t, rest)
    decreases |part|, 1
  {
    hide Yields, ParseExec, SimpleFor, BlockFor, Stops, Tokens;
    if words, rs :| SimpleFor(part, t, words, rs) {
      SimpleAccept(line, s, part, t, words, rs, rest);
    } else {
      var m, c, rs :| BlockFor(part, t, m, c, rs);
      BlockAccept(line, s, part, t, m, c, rs, rest);
    }
  }

  lemma {:induction false} BlockAccept(line: string, s: nat, part: seq<string>, t: Cmd<string>, m: int, c: Cmd<string>,
                                       rs: seq<Redirection<string>>, rest: seq<string>)
    requires s <= |line| && '\0' !in line && Tokens(line, s) == part + rest && BlockFor(part, t, m, c, rs)
    requires Stops(rest, "|)&;")
    ensures Yields(line, ParseExec(line, s), t, rest)
    decreases |part|, 0
  {
    hide Peek, GetToken, SkipSpace, Tokens, Redirs, ParseLine, IsLine, IsRedirs, Wrap, Erase, Redirected;
    var inner, p := part[1..m], part[m + 1..];
    assert part + rest == ["("] + (inner + ([")"] + (p + rest)));
    PeekSymbol(line, s, '(');
    PeekStays(line, s, "(");
    SkipStays(line, s);
    var start := GetToken(line, s).next;
    assert Tokens(line, s)[1..] == inner + ([")"] + (p + rest));
    assert Tokens(line, start) == Tokens(line, s)[1..];
    LineAccept(line, start, inner, c, [")"] + (p + rest));
    var r := ParseLine(line, start);
    PeekSymbol(line, r.next, ')');
    SkipStays(line, r.next);
    var last := GetToken(line, r.next).next;
    assert Tokens(line, last) == Tokens(line, r.next)[1..] == p + rest;
    RedirsAccept(line, last, p, rs, rest);
    ErasedWrap(line, r.value, Redirs(line, last).value);
  }

  lemma {:induction false} PipeAccept(line: string, s: nat, part: seq<string>, t: Cmd<string>, rest: seq<string>)
    requires s <= |line| && '\0' !in line && Tokens(line, s) == part + rest && IsPipe(part, t) && Stops(rest, ")&;")
    ensures Yields(line, ParsePipe(line, s), t, rest)
    decreases |part|, 2
  {
    hide Peek, GetToken, SkipSpace, Tokens, ParseExec, IsExec;
    if IsExec(part, t) {
      ExecAccept(line, s, part, t, rest);
      var r := ParseExec(line, s);
      PeekSymbol(line, r.next, '|');
      SkipStays(line, r.next);
    } else {
      var m :| PairAt(part, m, "|") && IsExec(part[..m], t.left) && IsPipe(part[m + 1..], t.right);
      assert part + rest == part[..m] + (["|"] + (part[m + 1..] + rest));
      ExecAccept(line, s, part[..m], t.left, ["|"] + (part[m + 1..] + rest));
      var r := ParseExec(line, s);
      PeekSymbol(line, r.next, '|');
      var n := GetToken(line, SkipSpace(line, r.next)).next;
      assert Tokens(line, n) == Tokens(line, r.next)[1..] == part[m + 1..] + rest;
      PipeAccept(line, n, part[m + 1..], t.right, rest);
    }
  }

  /** Up to here parsepipe and the loop over `&` have built c for t, and the loop goes on at n. */
  ghost predicate Loops(line: string, s: nat, t: Cmd<string>, rest: seq<string>, c: Cmd<Span>, n: nat)
    requires s <= |line|
  {
    && n <= |line| && Tokens(line, n) == rest && Erase(line, c) == t
    && var r := ParsePipe(line, s);
    r.Ok? && Backs(line, r.next, r.value) == Backs(line, n, c)
  }

  lemma {:induction false} BackAccept(line: string, s: nat, part: seq<string>, t: Cmd<string>, rest: seq<string>)
    returns (c: Cmd<Span>, n: nat)
    requires s <= |line| && '\0' !in line && Tokens(line, s) == part + rest && IsBacked(part, t) && Stops(rest, ")&;")
    ensures Loops(line, s, t, rest, c, n)
    decreases |part|, 3
  {
    hide Peek, GetToken, SkipSpace, Tokens, ParsePipe, IsPipe;
    if IsPipe(part, t) {
      PipeAccept(line, s, part, t, rest);
      c, n := ParsePipe(line, s).value, ParsePipe(line, s).next;
    } else {
      var k := |part| - 1;
      assert part + rest == part[..k] + (["&"] + rest);
      var d, p := BackAccept(line, s, part[..k], t.cmd, ["&"] + rest);
      PeekSymbol(line, p, '&');
      c, n := Back(d), GetToken(line, SkipSpace(line, p)).next;
      assert Tokens(line, n) == Tokens(line, p)[1..] == rest;
    }
  }

  lemma BacksStop(line: string, s: nat, c: Cmd<Span>)
    requires s <= |line| && '\0' !in line && (Tokens(line, s) == [] || Tokens(line, s)[0] != "&")
    ensures Backs(line, s, c) == (c, SkipSpace(line, s))
  {
    hide Peek, GetToken, SkipSpace, Tokens;
    PeekSymbol(line, s, '&');
  }

  /** Every sentence is accepted with its tree. */
  lemma {:induction false} LineAccept(line: string, s: nat, part: seq<string>, t: Cmd<string>, rest: seq<string>)
    requires s <= |line| && '\0' !in line && Tokens(line, s) == part + rest && IsLine(part, t) && Stops(rest, ")")
    ensures Yields(line, ParseLine(line, s), t, rest)
    decreases |part|, 4
  {
    hide Peek, GetToken, SkipSpace, Tokens, ParsePipe, IsBacked, Backs;
    if IsBacked(part, t) {
      var c, n := BackAccept(line, s, part, t, rest);
      BacksStop(line, n, c);
      SkipStays(line, n);
      PeekSymbol(line, SkipSpace(line, n), ';');
    } else {
      var m :| PairAt(part, m, ";") && IsBacked(part[..m], t.left) && IsLine(part[m + 1..], t.right);
      var more := part[m + 1..] + rest;
      assert part + rest == part[..m] + ([";"] + more);
      var c, n := BackAccept(line, s, part[..m], t.left, [";"] + more);
      BacksStop(line, n, c);
      SkipStays(line, n);
      PeekSymbol(line, SkipSpace(line, n), ';');
      var k := GetToken(line, n).next;
      assert Tokens(line, k) == Tokens(line, n)[1..] == more;
      LineAccept(line, k, part[m + 1..], t.right, rest);
    }
  }

  /** parsecmd is exact: a line is accepted with tree t if and only if its tokens are a sentence for t. */
  lemma ParsesExactly(line: string, t: Cmd<string>)
    requires '\0' !in line
    ensures ParseCmd(line).Ok? && Erase(line, ParseCmd(line).value) == t <==> IsLine(Tokens(line, 0), t)
  {
    hide ParseLine, IsLine, SkipSpace, GetToken, Tokens;
    var toks := Tokens(line, 0);
    var r := ParseLine(line, 0);
    if r.Ok? { NoTokens(line, r.next); }
    if ParseCmd(line).Ok? && Erase(line, ParseCmd(line).value) == t {
      var part := LineDerives(line, 0);
      assert part + [] == part;
    }
    if IsLine(toks, t) {
      assert toks + [] == toks;
      LineAccept(line, 0, toks, t, []);
      NoTokens(line, ParseLine(line, 0).next);
    }
  }

  /** In particular it accepts exactly the sentences. */
  lemma AcceptsSentences(line: string)
    requires '\0' !in line
    ensures ParseCmd(line).Ok? ==> IsLine(Tokens(line, 0), Erase(line, ParseCmd(line).value))
    ensures ParseCmd(line).Panic? ==> forall t: Cmd<string> :: !IsLine(Tokens(line, 0), t)
  {
    hide ParseCmd, IsLine, Tokens;
    if ParseCmd(line).Ok? { ParsesExactly(line, Erase(line, ParseCmd(line).value)); }
    forall t: Cmd<string> ensures ParseCmd(line).Panic? ==> !IsLine(Tokens(line, 0), t) { ParsesExactly(line, t); }
  }

  /** So a line has at most one tree. */
  lemma OneTree(line: string, t: Cmd<string>, u: Cmd<string>)
    requires '\0' !in line && IsLine(Tokens(line, 0), t) && IsLine(Tokens(line, 0), u)
    ensures t == u
  {
    hide ParseCmd, IsLine, Tokens;
    ParsesExactly(line, t);
    ParsesExactly(line, u);
  }
}
