/** sh.c as it runs: a cursor moving over the line, loops in gettoken, peek, parseline, parseredirs and
    parseexec, and NULs written into the line itself. */
module ShellParser {
  import opened ShellSyntax
  import opened ShellGrammar
  import ShellExact
  import opened ShellWords

  // ---- terminating the words ----

  function Words(c: Cmd<Span>): (ws: set<Span>) {
    match c
    case Exec(args) => set i | 0 <= i < |args| :: args[i]
    case Redir(d, file, _, _) => Words(d) + {file}
    case Pipe(l, r) => Words(l) + Words(r)
    case List(l, r) => Words(l) + Words(r)
    case Back(d) => Words(d)
  }

  ghost predicate IsEnd(ws: set<Span>, i: int) { exists w :: w in ws && w.eq == i }

  ghost predicate Terminated(b: seq<char>, b': seq<char>, ws: set<Span>) {
    |b'| == |b| && forall i :: 0 <= i < |b| ==> b'[i] == if IsEnd(ws, i) then '\0' else b[i]
  }

  /** The C string that starts at q. */
  function CString(b: seq<char>, q: nat): (s: string)
    decreases |b| - q
  {
    if q < |b| && b[q] != '\0' then [b[q]] + CString(b, q + 1) else ""
  }

  lemma {:induction false} SoundWords(line: string, c: Cmd<Span>, w: Span)
    requires Sound(line, c) && w in Words(c)
    ensures Whole(line, w)
    decreases c
  {
    match c
    case Exec(args) =>
    case Redir(d, file, _, _) => if w in Words(d) { SoundWords(line, d, w); }
    case Pipe(l, r) => if w in Words(l) { SoundWords(line, l, w); } else { SoundWords(line, r, w); }
    case List(l, r) => if w in Words(l) { SoundWords(line, l, w); } else { SoundWords(line, r, w); }
    case Back(d) => SoundWords(line, d, w);
  }

  /** No end position lies inside a word. */
  lemma EndsOutside(line: string, c: Cmd<Span>, w: Span, i: nat)
    requires Sound(line, c) && w in Words(c) && w.q <= i < w.eq
    ensures !IsEnd(Words(c), i)
  {
    SoundWords(line, c, w);
    if v :| v in Words(c) && v.eq == i { SoundWords(line, c, v); }
  }

  lemma {:induction false} ReadsUpTo(b: seq<char>, q: nat, e: nat)
    requires q <= e < |b| && b[e] == '\0' && forall i :: q <= i < e ==> b[i] != '\0'
    ensures CString(b, q) == b[q..e]
    decreases e - q
  {
    if q < e { ReadsUpTo(b, q + 1, e); }
  }

  /** Each word of an accepted command reads as the token it was, once all of them are terminated. */
  lemma WordsExact(b: seq<char>, b': seq<char>, n: nat, c: Cmd<Span>, w: Span)
    requires n < |b| && b[n] == '\0' && '\0' !in b[..n]
    requires Sound(b[..n], c) && w in Words(c) && Terminated(b, b', Words(c))
    ensures CString(b', w.q) == Text(b[..n], w)
  {
    var line := b[..n];
    SoundWords(line, c, w);
    assert IsEnd(Words(c), w.eq);
    forall i | w.q <= i < w.eq ensures b'[i] == line[i] != '\0' { EndsOutside(line, c, w, i); }
    ReadsUpTo(b', w.q, w.eq);
    assert b'[w.q..w.eq] == line[w.q..w.eq];
  }

  ghost predicate Fits(c: Cmd<Span>, n: nat) { forall w :: w in Words(c) ==> w.eq < n }

  lemma TerminatedTwice(b: seq<char>, b1: seq<char>, b2: seq<char>, v: set<Span>, w: set<Span>)
    requires Terminated(b, b1, v) && Terminated(b1, b2, w)
    ensures Terminated(b, b2, v + w)
  {
    forall i | 0 <= i < |b| ensures IsEnd(v + w, i) <==> IsEnd(v, i) || IsEnd(w, i) {
      if x :| x in v && x.eq == i { assert x in v + w; }
      if x :| x in w && x.eq == i { assert x in v + w; }
    }
  }

  /** nulterminate. */
  method NulTerminate(c: Cmd<Span>, buf: array<char>)
    requires Fits(c, buf.Length)
    modifies buf
    ensures Terminated(old(buf[..]), buf[..], Words(c))
    decreases c, 1
  {
    match c
    case Exec(args) => TerminateArgs(args, buf);
    case Redir(d, file, _, _) =>
      assert file in Words(c) && forall w :: w in Words(d) ==> w in Words(c);
      NulTerminate(d, buf);
      ghost var b := buf[..];
      buf[file.eq] := '\0';
      TerminateOne(b, buf[..], file);
      TerminatedTwice(old(buf[..]), b, buf[..], Words(d), {file});
    case Pipe(_, _) => TerminateBoth(c, buf);
    case List(_, _) => TerminateBoth(c, buf);
    case Back(d) =>
      assert Words(d) == Words(c);
      NulTerminate(d, buf);
  }

  lemma TerminateOne(b: seq<char>, b': seq<char>, w: Span)
    requires w.eq < |b| && b' == b[w.eq := '\0']
    ensures Terminated(b, b', {w})
  {
    assert w in {w};
    assert forall i :: IsEnd({w}, i) <==> i == w.eq;
  }

  method TerminateBoth(c: Cmd<Span>, buf: array<char>)
    requires (c.Pipe? || c.List?) && Fits(c, buf.Length)
    modifies buf
    ensures Terminated(old(buf[..]), buf[..], Words(c))
    decreases c, 0
  {
    assert forall w :: w in Words(c.left) || w in Words(c.right) <==> w in Words(c);
    NulTerminate(c.left, buf);
    ghost var b := buf[..];
    NulTerminate(c.right, buf);
    TerminatedTwice(old(buf[..]), b, buf[..], Words(c.left), Words(c.right));
    assert Words(c) == Words(c.left) + Words(c.right);
  }

  /** The loop over argv. */
  method TerminateArgs(args: seq<Span>, buf: array<char>)
    requires Fits(Exec(args), buf.Length)
    modifies buf
    ensures Terminated(old(buf[..]), buf[..], Words(Exec(args)))
  {
    var i := 0;
    while i < |args|
      invariant 0 <= i <= |args|
      invariant Terminated(old(buf[..]), buf[..], Words(Exec(args[..i])))
    {
      ghost var b := buf[..];
      assert args[i] in Words(Exec(args));
      buf[args[i].eq] := '\0';
      TerminateOne(b, buf[..], args[i]);
      TerminatedTwice(old(buf[..]), b, buf[..], Words(Exec(args[..i])), {args[i]});
      assert Words(Exec(args[..i + 1])) == Words(Exec(args[..i])) + {args[i]} by { WordsNext(args, i); }
      i := i + 1;
    }
    assert args[..i] == args;
  }

  lemma WordsNext(args: seq<Span>, i: nat)
    requires i < |args|
    ensures Words(Exec(args[..i + 1])) == Words(Exec(args[..i])) + {args[i]}
  {
    var a, b := args[..i], args[..i + 1];
    assert b == a + [args[i]];
    forall w | w in Words(Exec(a)) ensures w in Words(Exec(b)) {
      var k :| 0 <= k < |a| && a[k] == w;
      assert b[k] == w;
    }
    assert b[i] == args[i];
  }

  // ---- parsing ----

  /** Replaces the arguments of the exec node at the core of redirections, the node parseexec keeps a
      pointer to. */
  function WithArgs(c: Cmd<Span>, args: seq<Span>): (d: Cmd<Span>) {
    match c
    case Exec(_) => Exec(args)
    case Redir(e, file, mode, fd) => Redir(WithArgs(e, args), file, mode, fd)
    case _ => c
  }

  lemma {:induction false} WithArgsWrap(a: seq<Span>, b: seq<Span>, rs: seq<Redirection<Span>>)
    ensures WithArgs(Wrap(Exec(a), rs), b) == Wrap(Exec(b), rs)
    decreases |rs|
  {
    if rs != [] { WithArgsWrap(a, b, rs[..|rs| - 1]); }
  }

  lemma {:induction false} WrapTwice<W>(c: Cmd<W>, a: seq<Redirection<W>>, b: seq<Redirection<W>>)
    ensures Wrap(Wrap(c, a), b) == Wrap(c, a + b)
    decreases |b|
  {
    if b == [] {
      assert a + b == a;
    } else {
      WrapTwice(c, a, b[..|b| - 1]);
      assert (a + b)[..|a + b| - 1] == a + b[..|b| - 1];
    }
  }

  /** A command, or the message the shell dies with. */
  datatype Outcome = Done(cmd: Cmd<Span>) | Died(error: Error)

  /** The outcome and the cursor agree with a result of the grammar. */
  ghost predicate Agrees(r: Result<Cmd<Span>>, o: Outcome, s: nat) {
    match r
    case Panic(e) => o == Died(e)
    case Ok(c, next) => o == Done(c) && s == next
  }

  /** What parseredirs has collected, followed by what is left to collect. */
  ghost function After(acc: seq<Redirection<Span>>, r: Result<seq<Redirection<Span>>>): Result<seq<Redirection<Span>>> {
    match r
    case Panic(e) => Panic(e)
    case Ok(more, next) => Ok(acc + more, next)
  }

  lemma RedirsNext(line: string, s: nat, acc: seq<Redirection<Span>>)
    requires s <= |line| && SkipSpace(line, s) == s && ShellSyntax.Peek(line, s, "<>")
    ensures var tok := ShellSyntax.GetToken(line, s);
      var file := ShellSyntax.GetToken(line, tok.next);
      After(acc, Redirs(line, s)) == (if file.kind != 'a' then Panic(MissingFile)
                                      else After(acc + [RedirTo(tok.kind, file.span)], Redirs(line, file.next)))
  {
    hide ShellSyntax.GetToken, ShellSyntax.Peek, SkipSpace;
    var tok := ShellSyntax.GetToken(line, s);
    var file := ShellSyntax.GetToken(line, tok.next);
    if file.kind == 'a' && Redirs(line, file.next).Ok? {
      var more := Redirs(line, file.next).value;
      assert acc + ([RedirTo(tok.kind, file.span)] + more) == acc + [RedirTo(tok.kind, file.span)] + more;
    }
  }

  lemma RedirsDone(line: string, s: nat, acc: seq<Redirection<Span>>)
    requires s <= |line| && SkipSpace(line, s) == s && !ShellSyntax.Peek(line, s, "<>")
    ensures After(acc, Redirs(line, s)) == Ok(acc, s)
  {
    assert acc + [] == acc;
  }

  lemma RedirsSkip(line: string, s: nat)
    requires s <= |line|
    ensures Redirs(line, SkipSpace(line, s)) == Redirs(line, s)
    ensures SkipSpace(line, SkipSpace(line, s)) == SkipSpace(line, s)
    ensures ShellSyntax.Peek(line, SkipSpace(line, s), "<>") == ShellSyntax.Peek(line, s, "<>")
  {
  }

  lemma WrapNext<W>(c: Cmd<W>, acc: seq<Redirection<W>>, r: Redirection<W>)
    ensures Wrap(c, acc + [r]) == Redir(Wrap(c, acc), r.file, r.mode, r.fd)
  {
    assert (acc + [r])[..|acc + [r]| - 1] == acc;
  }

  lemma AfterNone(r: Result<seq<Redirection<Span>>>)
    ensures After([], r) == r
  {
    if r.Ok? { assert [] + r.value == r.value; }
  }

  class Parser {
    const line: string
    var s: nat // *ps

    constructor (line: string)
      ensures this.line == line && s == 0
    {
      this.line := line;
      s := 0;
    }

    method Skip()
      requires s <= |line|
      modifies this
      ensures s == SkipSpace(line, old(s))
    {
      while s < |line| && line[s] in WHITESPACE
        invariant s <= |line| && SkipSpace(line, s) == SkipSpace(line, old(s))
      {
        s := s + 1;
      }
    }

    method GetToken() returns (kind: char, w: Span)
      requires s <= |line|
      modifies this
      ensures var t := ShellSyntax.GetToken(line, old(s)); kind == t.kind && w == t.span && s == t.next
    {
      Skip();
      var q := s;
      kind := CharAt(line, s);
      if kind == '\0' {
      } else if kind == '>' {
        s := s + 1;
        if CharAt(line, s) == '>' {
          kind := '+';
          s := s + 1;
        }
      } else if kind in SYMBOLS {
        s := s + 1;
      } else {
        kind := 'a';
        while s < |line| && IsWord(line[s])
          invariant q <= s <= |line| && WordEnd(line, s) == WordEnd(line, q)
        {
          s := s + 1;
        }
      }
      w := Span(q, s);
      Skip();
    }

    method Peek(toks: string) returns (yes: bool)
      requires s <= |line|
      modifies this
      ensures s == SkipSpace(line, old(s)) && yes == ShellSyntax.Peek(line, old(s), toks)
    {
      Skip();
      yes := CharAt(line, s) != '\0' && CharAt(line, s) in toks;
    }

    /** parseredirs. */
    method ParseRedirs(cmd: Cmd<Span>) returns (o: Outcome)
      requires s <= |line|
      modifies this
      ensures match Redirs(line, old(s)) {
                case Panic(e) => o == Died(e)
                case Ok(rs, next) => o == Done(Wrap(cmd, rs)) && s == next
              }
    {
      hide ShellSyntax.GetToken, ShellSyntax.Peek, SkipSpace, Redirs, Wrap;
      var c := cmd;
      ghost var acc: seq<Redirection<Span>> := [];
      assert c == Wrap(cmd, acc) by { WrapNone(cmd); }
      RedirsSkip(line, s);
      AfterNone(Redirs(line, s));
      var more := Peek("<>");
      while more
        invariant s <= |line| && SkipSpace(line, s) == s && more == ShellSyntax.Peek(line, s, "<>")
        invariant c == Wrap(cmd, acc) && After(acc, Redirs(line, s)) == Redirs(line, old(s))
        decreases |line| - s, more
      {
        RedirsNext(line, s, acc);
        PeekToken(line, s, "<>");
        var kind, _ := GetToken();
        var file, w := GetToken();
        if file != 'a' { return Died(MissingFile); }
        if kind == '<' {
          c := Redir(c, w, O_RDONLY, 0);
        } else {
          c := Redir(c, w, O_WRONLY_CREATE, 1);
        }
        WrapNext(cmd, acc, RedirTo(kind, w));
        acc := acc + [RedirTo(kind, w)];
        RedirsSkip(line, s);
        more := Peek("<>");
      }
      RedirsDone(line, s, acc);
      o := Done(c);
    }

    /** parseexec's loop, with `cmd` the tree built so far around the exec node. */
    method ParseArgs(cmd: Cmd<Span>, ghost rs0: seq<Redirection<Span>>) returns (o: Outcome)
      requires s <= |line| && cmd == Wrap(Exec([]), rs0)
      modifies this
      ensures Agrees(Args(line, old(s), [], rs0), o, s)
    {
      hide ShellSyntax.GetToken, ShellSyntax.Peek, SkipSpace, Redirs, Wrap, Args;
      var c := cmd;
      var args: seq<Span> := [];
      ghost var rs := rs0;
      while true
        invariant s <= |line| && |args| < MAXARGS && c == Wrap(Exec(args), rs)
        invariant Args(line, s, args, rs) == Args(line, old(s), [], rs0)
        decreases |line| - s
      {
        ArgsNow(line, s, args, rs);
        SkipStays(line, s);
        var stop := Peek("|)&;");
        if stop { return Done(c); }
        var kind, w := GetToken();
        if kind == '\0' { return Done(c); }
        if kind != 'a' { return Died(Syntax); }
        WithArgsWrap(args, args + [w], rs);
        args := args + [w];
        c := WithArgs(c, args);
        if |args| >= MAXARGS { return Died(TooManyArgs); }
        ghost var more := Redirs(line, s);
        var p := ParseRedirs(c);
        if p.Died? { return p; }
        WrapTwice(Exec(args), rs, more.value);
        c := p.cmd;
        rs := rs + more.value;
      }
    }

    method ParseExec() returns (o: Outcome)
      requires s <= |line|
      modifies this
      ensures Agrees(ShellSyntax.ParseExec(line, old(s)), o, s)
      decreases |line| - s, 2
    {
      hide ShellSyntax.GetToken, ShellSyntax.Peek, SkipSpace, Redirs, Wrap, Args, ShellSyntax.ParseBlock;
      PeekStays(line, s, "(");
      RedirsSkip(line, s);
      var block := Peek("(");
      if block {
        o := ParseBlock();
        return;
      }
      ghost var rs := Redirs(line, s);
      o := ParseRedirs(Exec([]));
      if o.Died? { return; }
      o := ParseArgs(o.cmd, rs.value);
    }

    method ParseBlock() returns (o: Outcome)
      requires s <= |line| && SkipSpace(line, s) == s && ShellSyntax.Peek(line, s, "(")
      modifies this
      ensures Agrees(ShellSyntax.ParseBlock(line, old(s)), o, s)
      decreases |line| - s, 1
    {
      hide ShellSyntax.GetToken, ShellSyntax.Peek, SkipSpace, Redirs, Wrap, ShellSyntax.ParseLine;
      PeekToken(line, s, "(");
      var _, _ := GetToken();
      o := ParseLine();
      if o.Died? { return; }
      SkipStays(line, s);
      var close := Peek(")");
      if !close { return Died(MissingParen); }
      var _, _ := GetToken();
      o := ParseRedirs(o.cmd);
    }

    method ParsePipe() returns (o: Outcome)
      requires s <= |line|
      modifies this
      ensures Agrees(ShellSyntax.ParsePipe(line, old(s)), o, s)
      decreases |line| - s, 3
    {
      hide ShellSyntax.GetToken, ShellSyntax.Peek, SkipSpace, ShellSyntax.ParseExec;
      o := ParseExec();
      if o.Died? { return; }
      SkipStays(line, s);
      ghost var s1 := s;
      var more := Peek("|");
      if more {
        PeekToken(line, s1, "|");
        var left := o.cmd;
        var _, _ := GetToken();
        o := ParsePipe();
        if o.Died? { return; }
        o := Done(Pipe(left, o.cmd));
      }
    }

    method ParseLine() returns (o: Outcome)
      requires s <= |line|
      modifies this
      ensures Agrees(ShellSyntax.ParseLine(line, old(s)), o, s)
      decreases |line| - s, 4
    {
      hide ShellSyntax.GetToken, ShellSyntax.Peek, SkipSpace, ShellSyntax.ParsePipe, Backs;
      o := ParsePipe();
      if o.Died? { return; }
      var left := ParseBacks(o.cmd);
      SkipStays(line, s);
      ghost var s1 := s;
      var more := Peek(";");
      if more {
        PeekToken(line, s1, ";");
        var _, _ := GetToken();
        o := ParseLine();
        if o.Died? { return; }
        o := Done(List(left, o.cmd));
      } else {
        o := Done(left);
      }
    }

    /** parseline's loop. */
    method ParseBacks(cmd: Cmd<Span>) returns (c: Cmd<Span>)
      requires s <= |line|
      modifies this
      ensures (c, s) == Backs(line, old(s), cmd)
    {
      hide ShellSyntax.GetToken, ShellSyntax.Peek, SkipSpace;
      c := cmd;
      SkipStays(line, s);
      BacksSkip(line, s, c);
      var more := Peek("&");
      while more
        invariant s <= |line| && SkipSpace(line, s) == s && more == ShellSyntax.Peek(line, s, "&")
        invariant Backs(line, s, c) == Backs(line, old(s), cmd)
        decreases |line| - s, more
      {
        PeekToken(line, s, "&");
        var _, _ := GetToken();
        c := Back(c);
        SkipStays(line, s);
        BacksSkip(line, s, c);
        more := Peek("&");
      }
    }
  }

  lemma BacksSkip(line: string, s: nat, c: Cmd<Span>)
    requires s <= |line|
    ensures Backs(line, SkipSpace(line, s), c) == Backs(line, s, c)
    ensures ShellSyntax.Peek(line, SkipSpace(line, s), "&") == ShellSyntax.Peek(line, s, "&")
  {
    SkipStays(line, s);
  }

  /** The rest of parseexec's loop after the redirections behind an argument. */
  function ArgsFrom(line: string, more: Result<seq<Redirection<Span>>>, args: seq<Span>,
                    rs: seq<Redirection<Span>>): (r: Result<Cmd<Span>>)
    requires more.Ok? ==> more.next <= |line|
  {
    if more.Panic? then Panic(more.error) else Args(line, more.next, args, rs + more.value)
  }

  /** One round of parseexec's loop. */
  lemma ArgsNow(line: string, s: nat, args: seq<Span>, rs: seq<Redirection<Span>>)
    requires s <= |line|
    ensures ShellSyntax.Peek(line, s, "|)&;") ==>
      Args(line, s, args, rs) == Ok(Wrap(Exec(args), rs), SkipSpace(line, s))
    ensures !ShellSyntax.Peek(line, s, "|)&;") ==>
      && var tok := ShellSyntax.GetToken(line, SkipSpace(line, s));
      && var r := Args(line, s, args, rs);
      && (tok.kind == '\0' ==> r == Ok(Wrap(Exec(args), rs), tok.next))
      && (tok.kind != '\0' && tok.kind != 'a' ==> r == Panic(Syntax))
      && (tok.kind == 'a' && |args| + 1 >= MAXARGS ==> r == Panic(TooManyArgs))
      && (tok.kind == 'a' && |args| + 1 < MAXARGS ==>
            r == ArgsFrom(line, Redirs(line, tok.next), args + [tok.span], rs))
  {
    hide ShellSyntax.GetToken, ShellSyntax.Peek, SkipSpace, Redirs, Wrap;
  }

  lemma WrapNone<W>(c: Cmd<W>)
    ensures Wrap(c, []) == c
  {
  }

  method StrLen(buf: array<char>) returns (n: nat)
    requires '\0' in buf[..]
    ensures n < buf.Length && buf[n] == '\0' && '\0' !in buf[..n] && buf[..n] == CString(buf[..], 0)
  {
    ghost var z :| 0 <= z < buf.Length && buf[..][z] == '\0';
    n := 0;
    while buf[n] != '\0'
      invariant n <= z && '\0' !in buf[..n]
      decreases buf.Length - n
    {
      assert buf[..n + 1] == buf[..n] + [buf[n]];
      n := n + 1;
    }
    forall i | 0 <= i < n ensures buf[..][i] != '\0' { assert buf[..n][i] == buf[i]; }
    ReadsUpTo(buf[..], 0, n);
  }

  /** parsecmd: it fails exactly if the line is no sentence of the grammar, and otherwise gives the sentence's
      tree, each word of which reads back as its token. */
  method ParseCmd(buf: array<char>) returns (o: Outcome)
    requires '\0' in buf[..]
    modifies buf
    ensures var line := CString(old(buf[..]), 0);
      var r := ShellSyntax.ParseCmd(line);
      && (r.Panic? ==> o == Died(r.error) && buf[..] == old(buf[..]))
      && (r.Ok? ==> o == Done(r.value) && forall w :: w in Words(r.value) ==> CString(buf[..], w.q) == Text(line, w))
    ensures var line := CString(old(buf[..]), 0);
      && (o.Done? ==> IsLine(Tokens(line, 0), Erase(line, o.cmd)))
      && (o.Died? ==> forall t: Cmd<string> :: !IsLine(Tokens(line, 0), t))
  {
    hide ShellSyntax.ParseLine, CString, Sound, SkipSpace, Words, IsLine, Tokens, Erase;
    var n := StrLen(buf);
    ghost var b := buf[..];
    var line := buf[..n];
    assert line == b[..n];
    ShellExact.AcceptsSentences(line);
    var parser := new Parser(line);
    o := parser.ParseLine();
    if o.Died? { return; }
    var _ := parser.Peek("");
    if parser.s != n { return Died(Leftovers); }
    AcceptedSound(line);
    SoundFits(line, o.cmd, buf.Length);
    NulTerminate(o.cmd, buf);
    forall w | w in Words(o.cmd) ensures CString(buf[..], w.q) == Text(line, w) {
      WordsExact(b, buf[..], n, o.cmd, w);
    }
  }

  lemma SoundFits(line: string, c: Cmd<Span>, n: nat)
    requires Sound(line, c) && |line| < n
    ensures Fits(c, n)
  {
    forall w | w in Words(c) ensures w.eq < n { SoundWords(line, c, w); }
  }
}
