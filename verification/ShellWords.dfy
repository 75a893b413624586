/** What the parser hands to exec and open: every accepted word is a whole token, and terminating the
    words in place with NULs makes each of them read as exactly that token. */
module ShellWords {
  import opened ShellSyntax
  import opened ShellGrammar
  import opened ShellRoundTrip

  /** A run of word characters that goes on as far as it can. */
  ghost predicate Whole(line: string, w: Span) {
    && w.q < w.eq <= |line| && (forall i :: w.q <= i < w.eq ==> IsWord(line[i]))
    && (w.eq < |line| ==> !IsWord(line[w.eq]))
  }

  predicate Opens(mode: int, fd: int) { (mode, fd) == (O_RDONLY, 0) || (mode, fd) == (O_WRONLY_CREATE, 1) }

  /** Every word of the tree is a whole token, no exec overflows argv, every redirection is one of the
      shell's. */
  ghost predicate Sound(line: string, c: Cmd<Span>) {
    match c
    case Exec(args) => AllWhole(line, args) && |args| < MAXARGS
    case Redir(d, file, mode, fd) => Sound(line, d) && Whole(line, file) && Opens(mode, fd)
    case Pipe(l, r) => Sound(line, l) && Sound(line, r)
    case List(l, r) => Sound(line, l) && Sound(line, r)
    case Back(d) => Sound(line, d)
  }

  ghost predicate AllWhole(line: string, ws: seq<Span>) {
    forall i :: 0 <= i < |ws| ==> Whole(line, ws[i])
  }

  ghost predicate AllRedirs(line: string, rs: seq<Redirection<Span>>) {
    forall i :: 0 <= i < |rs| ==> Whole(line, rs[i].file) && Opens(rs[i].mode, rs[i].fd)
  }

  lemma TokenWhole(line: string, s: nat)
    requires s <= |line| && GetToken(line, s).kind == 'a'
    ensures Whole(line, GetToken(line, s).span)
  {
    WordRun(line, SkipSpace(line, s));
  }

  lemma {:induction false} RedirsSound(line: string, s: nat)
    requires s <= |line| && Redirs(line, s).Ok?
    ensures AllRedirs(line, Redirs(line, s).value)
    decreases |line| - s
  {
    hide Peek, GetToken, SkipSpace, Whole;
    if Peek(line, s, "<>") {
      var file := GetToken(line, GetToken(line, SkipSpace(line, s)).next);
      TokenWhole(line, GetToken(line, SkipSpace(line, s)).next);
      RedirsSound(line, file.next);
    }
  }

  lemma {:induction false} WrapSound(line: string, c: Cmd<Span>, rs: seq<Redirection<Span>>)
    requires Sound(line, c) && AllRedirs(line, rs)
    ensures Sound(line, Wrap(c, rs))
    decreases |rs|
  {
    hide Whole, Opens;
    if rs != [] { WrapSound(line, c, rs[..|rs| - 1]); }
  }

  lemma {:induction false} ArgsSound(line: string, s: nat, args: seq<Span>, rs: seq<Redirection<Span>>)
    requires s <= |line| && |args| < MAXARGS && AllWhole(line, args) && AllRedirs(line, rs)
    ensures Args(line, s, args, rs).Ok? ==> Sound(line, Args(line, s, args, rs).value)
    decreases |line| - s
  {
    hide Peek, GetToken, SkipSpace, Redirs, Whole, Wrap, Opens;
    WrapSound(line, Exec(args), rs);
    var tok := GetToken(line, SkipSpace(line, s));
    if !Peek(line, s, "|)&;") && tok.kind == 'a' && |args| + 1 < MAXARGS && Redirs(line, tok.next).Ok? {
      TokenWhole(line, SkipSpace(line, s));
      RedirsSound(line, tok.next);
      var more := Redirs(line, tok.next);
      ArgsSound(line, more.next, args + [tok.span], rs + more.value);
    }
  }

  lemma {:induction false} ExecSound(line: string, s: nat)
    requires s <= |line|
    ensures ParseExec(line, s).Ok? ==> Sound(line, ParseExec(line, s).value)
    decreases |line| - s, 2
  {
    hide Peek, GetToken, SkipSpace, Redirs, Args, ParseBlock, Sound;
    if Peek(line, s, "(") {
      PeekStays(line, s, "(");
      BlockSound(line, SkipSpace(line, s));
    } else if Redirs(line, s).Ok? {
      RedirsSound(line, s);
      ArgsSound(line, Redirs(line, s).next, [], Redirs(line, s).value);
    }
  }

  lemma {:induction false} BlockSound(line: string, s: nat)
    requires s <= |line| && Peek(line, s, "(")
    ensures ParseBlock(line, s).Ok? ==> Sound(line, ParseBlock(line, s).value)
    decreases |line| - s, 1
  {
    hide GetToken, SkipSpace, Redirs, ParseLine, Sound, Wrap;
    assert GetToken(line, SkipSpace(line, s)).next > s by { PeekToken(line, s, "("); }
    hide Peek;
    var start := GetToken(line, SkipSpace(line, s)).next;
    LineSound(line, start);
    if ParseLine(line, start).Ok? && Peek(line, ParseLine(line, start).next, ")") {
      var last := GetToken(line, SkipSpace(line, ParseLine(line, start).next)).next;
      if Redirs(line, last).Ok? {
        RedirsSound(line, last);
        WrapSound(line, ParseLine(line, start).value, Redirs(line, last).value);
      }
    }
  }

  /** After a successful peek, gettoken moves on. */
  lemma PeekToken(line: string, s: nat, toks: string)
    requires s <= |line| && Peek(line, s, toks)
    ensures GetToken(line, SkipSpace(line, s)).next > SkipSpace(line, s) >= s
  {
  }

  lemma {:induction false} PipeSound(line: string, s: nat)
    requires s <= |line|
    ensures ParsePipe(line, s).Ok? ==> Sound(line, ParsePipe(line, s).value)
    decreases |line| - s, 3
  {
    hide Peek, GetToken, SkipSpace, ParseExec;
    ExecSound(line, s);
    if ParseExec(line, s).Ok? && Peek(line, ParseExec(line, s).next, "|") {
      PeekToken(line, ParseExec(line, s).next, "|");
      PipeSound(line, GetToken(line, SkipSpace(line, ParseExec(line, s).next)).next);
    }
  }

  lemma {:induction false} BacksSound(line: string, s: nat, c: Cmd<Span>)
    requires s <= |line| && Sound(line, c)
    ensures Sound(line, Backs(line, s, c).0)
    decreases |line| - s
  {
    hide Peek, GetToken, SkipSpace;
    if Peek(line, s, "&") {
      PeekToken(line, s, "&");
      BacksSound(line, GetToken(line, SkipSpace(line, s)).next, Back(c));
    }
  }

  lemma {:induction false} LineSound(line: string, s: nat)
    requires s <= |line|
    ensures ParseLine(line, s).Ok? ==> Sound(line, ParseLine(line, s).value)
    decreases |line| - s, 4
  {
    hide Peek, GetToken, SkipSpace, ParsePipe, Backs;
    PipeSound(line, s);
    var r := ParsePipe(line, s);
    if r.Ok? {
      BacksSound(line, r.next, r.value);
      var p := Backs(line, r.next, r.value).1;
      if Peek(line, p, ";") {
        PeekToken(line, p, ";");
        LineSound(line, GetToken(line, SkipSpace(line, p)).next);
      }
    }
  }

  /** Everything parsecmd accepts is sound. */
  lemma AcceptedSound(line: string)
    requires ParseCmd(line).Ok?
    ensures Sound(line, ParseCmd(line).value)
  {
    LineSound(line, 0);
  }

  lemma {:induction false} SoundGood(line: string, c: Cmd<Span>)
    requires Sound(line, c) && '\0' !in line
    ensures Good(Erase(line, c))
    decreases c
  {
    match c
    case Exec(args) => forall i | 0 <= i < |args| ensures Word(Text(line, args[i])) { WholeWord(line, args[i]); }
    case Redir(d, file, _, _) => SoundGood(line, d); WholeWord(line, file);
    case Pipe(l, r) => SoundGood(line, l); SoundGood(line, r);
    case List(l, r) => SoundGood(line, l); SoundGood(line, r);
    case Back(d) => SoundGood(line, d);
  }

  lemma WholeWord(line: string, w: Span)
    requires Whole(line, w) && '\0' !in line
    ensures Word(Text(line, w))
  {
    assert forall i :: 0 <= i < w.eq - w.q ==> line[w.q..w.eq][i] == line[w.q + i];
  }

  /** Printing what was parsed from any line and parsing that gives the same tree again. */
  lemma Reparse(line: string)
    requires ParseCmd(line).Ok? && '\0' !in line
    ensures var t := Erase(line, ParseCmd(line).value);
      ParseCmd(Render(t)).Ok? && Erase(Render(t), ParseCmd(Render(t)).value) == t
  {
    hide ParseCmd, Erase, Render, Good, Sound;
    AcceptedSound(line);
    SoundGood(line, ParseCmd(line).value);
    RenderBack(Erase(line, ParseCmd(line).value));
  }
}
