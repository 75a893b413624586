/** sh.c: the recursive-descent parser of command lines and its in-place string termination.

    A line is a string; position |line| is its terminating NUL. */
module ShellSyntax {

  const WHITESPACE := " \t\r\n\U{000B}"
  const SYMBOLS := "<|>&;()"
  const MAXARGS := 10
  const O_RDONLY := 0x000
  const O_WRONLY_CREATE := 0x201

  /** Command trees over words: spans of the line while parsing, strings afterwards. */
  datatype Cmd<W> =
    | Exec(args: seq<W>)
    | Redir(cmd: Cmd<W>, file: W, mode: int, fd: int)
    | Pipe(left: Cmd<W>, right: Cmd<W>)
    | List(left: Cmd<W>, right: Cmd<W>)
    | Back(cmd: Cmd<W>)

  /** The pair of pointers q, eq that gettoken hands out. */
  datatype Span = Span(q: nat, eq: nat)

  datatype Error = MissingFile | MissingParen | Syntax | TooManyArgs | Leftovers

  datatype Result<T> = Ok(value: T, next: nat) | Panic(error: Error)

  datatype Token = Token(kind: char, span: Span, next: nat)

  datatype Redirection<W> = Redirection(file: W, mode: int, fd: int)

  function CharAt(line: string, s: nat): (c: char) { if s < |line| then line[s] else '\0' }

  predicate IsWord(c: char) { c !in WHITESPACE && c !in SYMBOLS }

  function SkipSpace(line: string, s: nat): (r: nat)
    requires s <= |line|
    ensures s <= r <= |line| && (r < |line| ==> line[r] !in WHITESPACE)
    decreases |line| - s
  {
    if s < |line| && line[s] in WHITESPACE then SkipSpace(line, s + 1) else s
  }

  function WordEnd(line: string, s: nat): (r: nat)
    requires s <= |line|
    ensures s <= r <= |line| && (s < |line| && IsWord(line[s]) ==> s < r)
    decreases |line| - s
  {
    if s < |line| && IsWord(line[s]) then WordEnd(line, s + 1) else s
  }

  /** The kind of the token at q and where it ends. */
  function TokenAt(line: string, q: nat): (t: (char, nat))
    requires q <= |line|
    ensures q <= t.1 <= |line| && (t.0 != '\0' && (q < |line| ==> line[q] !in WHITESPACE) ==> q < t.1)
  {
    var c := CharAt(line, q);
    if c == '\0' then ('\0', q)
    else if c == '>' then (if CharAt(line, q + 1) == '>' then ('+', q + 2) else ('>', q + 1))
    else if c in SYMBOLS then (c, q + 1)
    else ('a', WordEnd(line, q))
  }

  function GetToken(line: string, s: nat): (t: Token)
    requires s <= |line|
    ensures s <= t.span.q <= t.span.eq <= t.next <= |line| && (t.kind != '\0' ==> s < t.next)
    ensures t.next < |line| ==> line[t.next] !in WHITESPACE
  {
    var q := SkipSpace(line, s);
    var (kind, eq) := TokenAt(line, q);
    Token(kind, Span(q, eq), SkipSpace(line, eq))
  }

  predicate Peek(line: string, s: nat, toks: string)
    requires s <= |line|
  {
    var p := SkipSpace(line, s);
    CharAt(line, p) != '\0' && CharAt(line, p) in toks
  }

  /** parseredirs: the redirections at s, in order. */
  function Redirs(line: string, s: nat): (r: Result<seq<Redirection<Span>>>)
    requires s <= |line|
    ensures r.Ok? ==> s <= r.next <= |line|
    decreases |line| - s
  {
    if !Peek(line, s, "<>") then Ok([], SkipSpace(line, s))
    else
      var tok := GetToken(line, SkipSpace(line, s));
      var file := GetToken(line, tok.next);
      if file.kind != 'a' then Panic(MissingFile)
      else
        match Redirs(line, file.next)
        case Panic(e) => Panic(e)
        case Ok(more, next) => Ok([RedirTo(tok.kind, file.span)] + more, next)
  }

  function RedirTo<W>(kind: char, file: W): (r: Redirection<W>) {
    if kind == '<' then Redirection(file, O_RDONLY, 0) else Redirection(file, O_WRONLY_CREATE, 1)
  }

  /** Each redirection wraps the command built so far. */
  function Wrap<W>(c: Cmd<W>, rs: seq<Redirection<W>>): (r: Cmd<W>) {
    if rs == [] then c
    else Redir(Wrap(c, rs[..|rs| - 1]), rs[|rs| - 1].file, rs[|rs| - 1].mode, rs[|rs| - 1].fd)
  }

  /** parseexec's argument loop: the arguments go to the exec node at the core, whatever wraps it. */
  function Args(line: string, s: nat, args: seq<Span>, rs: seq<Redirection<Span>>): (r: Result<Cmd<Span>>)
    requires s <= |line|
    ensures r.Ok? ==> s <= r.next <= |line|
    decreases |line| - s
  {
    if Peek(line, s, "|)&;") then Ok(Wrap(Exec(args), rs), SkipSpace(line, s))
    else
      var tok := GetToken(line, SkipSpace(line, s));
      if tok.kind == '\0' then Ok(Wrap(Exec(args), rs), tok.next)
      else if tok.kind != 'a' then Panic(Syntax)
      else if |args| + 1 >= MAXARGS then Panic(TooManyArgs)
      else
        match Redirs(line, tok.next)
        case Panic(e) => Panic(e)
        case Ok(more, next) => Args(line, next, args + [tok.span], rs + more)
  }

  function ParseExec(line: string, s: nat): (r: Result<Cmd<Span>>)
    requires s <= |line|
    ensures r.Ok? ==> s <= r.next <= |line|
    decreases |line| - s, 2
  {
    if Peek(line, s, "(") then ParseBlock(line, SkipSpace(line, s))
    else
      match Redirs(line, s)
      case Panic(e) => Panic(e)
      case Ok(rs, next) => Args(line, next, [], rs)
  }

  function ParseBlock(line: string, s: nat): (r: Result<Cmd<Span>>)
    requires s <= |line| && Peek(line, s, "(")
    ensures r.Ok? ==> s <= r.next <= |line|
    decreases |line| - s, 1
  {
    match ParseLine(line, GetToken(line, SkipSpace(line, s)).next)
    case Panic(e) => Panic(e)
    case Ok(c, next) =>
      if !Peek(line, next, ")") then Panic(MissingParen)
      else
        match Redirs(line, GetToken(line, SkipSpace(line, next)).next)
        case Panic(e) => Panic(e)
        case Ok(rs, last) => Ok(Wrap(c, rs), last)
  }

  function ParsePipe(line: string, s: nat): (r: Result<Cmd<Span>>)
    requires s <= |line|
    ensures r.Ok? ==> s <= r.next <= |line|
    decreases |line| - s, 3
  {
    match ParseExec(line, s)
    case Panic(e) => Panic(e)
    case Ok(left, next) =>
      if !Peek(line, next, "|") then Ok(left, SkipSpace(line, next))
      else
        match ParsePipe(line, GetToken(line, SkipSpace(line, next)).next)
        case Panic(e) => Panic(e)
        case Ok(right, last) => Ok(Pipe(left, right), last)
  }

  /** parseline's loop over `&`. */
  function Backs(line: string, s: nat, c: Cmd<Span>): (r: (Cmd<Span>, nat))
    requires s <= |line|
    ensures s <= r.1 <= |line|
    decreases |line| - s
  {
    if !Peek(line, s, "&") then (c, SkipSpace(line, s))
    else Backs(line, GetToken(line, SkipSpace(line, s)).next, Back(c))
  }

  function ParseLine(line: string, s: nat): (r: Result<Cmd<Span>>)
    requires s <= |line|
    ensures r.Ok? ==> s <= r.next <= |line|
    decreases |line| - s, 4
  {
    match ParsePipe(line, s)
    case Panic(e) => Panic(e)
    case Ok(c, next) =>
      var (left, p) := Backs(line, next, c);
      if !Peek(line, p, ";") then Ok(left, SkipSpace(line, p))
      else
        match ParseLine(line, GetToken(line, SkipSpace(line, p)).next)
        case Panic(e) => Panic(e)
        case Ok(right, last) => Ok(List(left, right), last)
  }

  function ParseCmd(line: string): (r: Result<Cmd<Span>>)
  {
    match ParseLine(line, 0)
    case Panic(e) => Panic(e)
    case Ok(c, next) => if SkipSpace(line, next) != |line| then Panic(Leftovers) else Ok(c, |line|)
  }
}
