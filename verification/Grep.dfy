/** grep.c: the regular-expression matcher of chapter 9 of Kernighan and Pike, The Practice of
    Programming. */
module Grep {

  /** C strings: the terminating NUL is the position after the last character. */
  type CString = s: string | '\0' !in s witness ""

  /** One character (`.` is any), or any number of them. */
  datatype Item = One(c: char) | Star(c: char)

  /** A list of items, and whether the text must end where they do. */
  datatype Pattern = Pattern(items: seq<Item>, toEnd: bool)

  /** The pattern a regular expression without its leading `^` stands for. */
  function Compile(re: string): (p: Pattern) {
    if re == "" then Pattern([], false)
    else if |re| > 1 && re[1] == '*' then Prepend(Star(re[0]), Compile(re[2..]))
    else if re == "$" then Pattern([], true)
    else Prepend(One(re[0]), Compile(re[1..]))
  }

  function Prepend(i: Item, p: Pattern): (q: Pattern) { Pattern([i] + p.items, p.toEnd) }

  predicate Fits(c: char, x: char) { c == '.' || x == c }

  ghost predicate InItem(i: Item, s: string) {
    match i
    case One(c) => |s| == 1 && Fits(c, s[0])
    case Star(c) => forall k :: 0 <= k < |s| ==> Fits(c, s[k])
  }

  /** The strings a list of items denotes: concatenations of strings its items denote. */
  ghost predicate InItems(items: seq<Item>, s: string)
    decreases |items|
  {
    if items == [] then s == ""
    else exists k :: 0 <= k <= |s| && InItem(items[0], s[..k]) && InItems(items[1..], s[k..])
  }

  /** text[i..k] belongs to the pattern. */
  ghost predicate MatchesSpan(p: Pattern, text: string, i: nat, k: int) {
    i <= k <= |text| && InItems(p.items, text[i..k]) && (p.toEnd ==> k == |text|)
  }

  ghost predicate MatchesAt(p: Pattern, text: string, i: nat) {
    exists k :: MatchesSpan(p, text, i, k)
  }

  /** What the manual promises of a whole expression: some substring belongs to the pattern, one that
      starts the text if `^` leads. */
  ghost predicate Matches(re: string, text: string) {
    if re != "" && re[0] == '^' then MatchesAt(Compile(re[1..]), text, 0)
    else exists i :: 0 <= i <= |text| && MatchesAt(Compile(re), text, i)
  }

  // ---- how patterns are written ----

  function ShowItem(i: Item): (s: string) { if i.Star? then [i.c, '*'] else [i.c] }

  /** The text of a pattern. */
  function Show(items: seq<Item>, toEnd: bool): (re: string) {
    if items == [] then (if toEnd then "$" else "") else ShowItem(items[0]) + Show(items[1..], toEnd)
  }

  /** The patterns that can be written: a plain item does not stand before a `*`, and a plain `$` does not
      come last. */
  ghost predicate Writable(items: seq<Item>, toEnd: bool) {
    && (forall i :: 0 <= i < |items| - 1 && items[i].One? ==> items[i + 1].c != '*')
    && (items != [] && items[|items| - 1] == One('$') ==> toEnd)
  }

  lemma ShowStart(items: seq<Item>, toEnd: bool)
    ensures var re := Show(items, toEnd);
      && (items != [] ==> re != "" && re[0] == items[0].c)
      && (items == [] ==> re == if toEnd then "$" else "")
  {
  }

  /** The item an expression starts with. */
  lemma CompileNext(i: Item, more: string)
    requires i.One? && more != "" ==> more[0] != '*'
    requires i == One('$') ==> more != ""
    ensures Compile(ShowItem(i) + more) == Prepend(i, Compile(more))
  {
    var re := ShowItem(i) + more;
    assert re[0] == i.c && re[|ShowItem(i)|..] == more;
  }

  lemma WritableTail(items: seq<Item>, toEnd: bool)
    requires Writable(items, toEnd) && items != []
    ensures Writable(items[1..], toEnd)
  {
    assert forall i :: 0 <= i < |items[1..]| ==> items[1..][i] == items[i + 1];
  }

  /** What is written is read. */
  lemma {:induction false} CompileShow(items: seq<Item>, toEnd: bool)
    requires Writable(items, toEnd)
    ensures Compile(Show(items, toEnd)) == Pattern(items, toEnd)
    decreases |items|
  {
    hide Compile;
    if items == [] {
      CompileEnd(toEnd);
    } else {
      WritableTail(items, toEnd);
      CompileShow(items[1..], toEnd);
      ShowStart(items[1..], toEnd);
      if |items| > 1 { assert items[1] == items[1..][0]; }
      CompileNext(items[0], Show(items[1..], toEnd));
      assert [items[0]] + items[1..] == items;
    }
  }

  lemma CompileEnd(toEnd: bool)
    ensures Compile(if toEnd then "$" else "") == Pattern([], toEnd)
  {
  }

  lemma WritableMore(i: Item, items: seq<Item>, toEnd: bool)
    requires Writable(items, toEnd) && (i.One? && items != [] ==> items[0].c != '*')
    requires i == One('$') ==> items != [] || toEnd
    ensures Writable([i] + items, toEnd)
  {
    var all := [i] + items;
    assert forall k :: 0 < k < |all| ==> all[k] == items[k - 1];
  }

  /** Every expression is written that way, so Compile is the inverse of Show. */
  lemma {:induction false} ShowCompile(re: string)
    ensures var p := Compile(re); Show(p.items, p.toEnd) == re && Writable(p.items, p.toEnd)
    decreases |re|
  {
    hide Show, Writable;
    if re == "" || re == "$" {
      ShowStart([], re == "$");
      assert Writable([], re == "$") by { NoneWritable(re == "$"); }
    } else {
      var star := |re| > 1 && re[1] == '*';
      var i := if star then Star(re[0]) else One(re[0]);
      var more := re[|ShowItem(i)|..];
      var p := Compile(more);
      ShowCompile(more);
      ShowStart(p.items, p.toEnd);
      assert re == ShowItem(i) + more;
      ShowNext(i, p.items, p.toEnd);
      WritableMore(i, p.items, p.toEnd);
    }
  }

  lemma NoneWritable(toEnd: bool)
    ensures Writable([], toEnd)
  {
  }

  lemma ShowNext(i: Item, items: seq<Item>, toEnd: bool)
    ensures Show([i] + items, toEnd) == ShowItem(i) + Show(items, toEnd)
  {
    assert ([i] + items)[1..] == items;
  }

  // ---- what plain words match ----

  /** No character with a meaning of its own. */
  predicate Plain(w: string) { forall i :: 0 <= i < |w| ==> w[i] !in ".*$^" }

  function Ones(w: string): (items: seq<Item>)
    ensures |items| == |w| && forall i :: 0 <= i < |w| ==> items[i] == One(w[i])
  {
    seq(|w|, i requires 0 <= i < |w| => One(w[i]))
  }

  lemma {:induction false} ShowOnes(w: string, toEnd: bool)
    ensures Show(Ones(w), toEnd) == w + if toEnd then "$" else ""
    decreases |w|
  {
    if w != "" {
      assert Ones(w)[1..] == Ones(w[1..]);
      ShowOnes(w[1..], toEnd);
      assert w == [w[0]] + w[1..];
    }
  }

  lemma CompilePlain(w: string, toEnd: bool)
    requires Plain(w)
    ensures Compile(w + if toEnd then "$" else "") == Pattern(Ones(w), toEnd)
  {
    hide Compile, Show;
    ShowOnes(w, toEnd);
    CompileShow(Ones(w), toEnd);
  }

  lemma {:induction false} OnesDenote(w: string, s: string)
    requires Plain(w)
    ensures InItems(Ones(w), s) <==> s == w
    decreases |w|
  {
    if w != "" {
      assert Ones(w)[1..] == Ones(w[1..]);
      if s != "" {
        OnesDenote(w[1..], s[1..]);
        assert s == [s[0]] + s[1..] && w == [w[0]] + w[1..];
        if s == w { assert InItem(Ones(w)[0], s[..1]); }
      }
    }
  }

  /** w stands in the text at i. */
  ghost predicate At(w: string, text: string, i: int) { 0 <= i <= i + |w| <= |text| && text[i..i + |w|] == w }

  lemma PlainAt(w: string, toEnd: bool, text: string, i: nat)
    requires Plain(w)
    ensures MatchesAt(Pattern(Ones(w), toEnd), text, i) <==> At(w, text, i) && (toEnd ==> i + |w| == |text|)
  {
    hide InItems;
    var p := Pattern(Ones(w), toEnd);
    if k :| MatchesSpan(p, text, i, k) { OnesDenote(w, text[i..k]); }
    if At(w, text, i) && (toEnd ==> i + |w| == |text|) {
      OnesDenote(w, text[i..i + |w|]);
      assert MatchesSpan(p, text, i, i + |w|);
    }
  }

  lemma WordFound(w: string, text: string)
    requires Plain(w)
    ensures Matches(w, text) <==> exists i :: At(w, text, i)
  {
    hide MatchesAt, Compile;
    CompilePlain(w, false);
    assert w + "" == w;
    forall i: nat ensures MatchesAt(Compile(w), text, i) <==> At(w, text, i) { PlainAt(w, false, text, i); }
    if i :| At(w, text, i) { assert MatchesAt(Compile(w), text, i); }
  }

  lemma WordStarts(w: string, text: string)
    requires Plain(w)
    ensures Matches("^" + w, text) <==> w <= text
  {
    hide MatchesAt, Compile;
    CompilePlain(w, false);
    assert w + "" == w && ("^" + w)[1..] == w;
    PlainAt(w, false, text, 0);
    if |w| <= |text| { assert text[0..|w|] == text[..|w|]; }
  }

  lemma WordEnds(w: string, text: string)
    requires Plain(w)
    ensures Matches(w + "$", text) <==> At(w, text, |text| - |w|)
  {
    hide MatchesAt, Compile;
    CompilePlain(w, true);
    assert (w + "$")[0] != '^';
    forall i: nat
      ensures MatchesAt(Compile(w + "$"), text, i) <==> At(w, text, i) && i + |w| == |text|
    {
      PlainAt(w, true, text, i);
    }
    if At(w, text, |text| - |w|) { assert MatchesAt(Compile(w + "$"), text, |text| - |w|); }
  }

  lemma WordWhole(w: string, text: string)
    requires Plain(w)
    ensures Matches("^" + w + "$", text) <==> text == w
  {
    hide MatchesAt, Compile;
    CompilePlain(w, true);
    assert ("^" + w + "$")[1..] == w + "$";
    PlainAt(w, true, text, 0);
    assert text[0..|text|] == text;
  }

  /** A plain word is found where it occurs, with `^` at the start, with `$` at the end, with both if it is
      the whole text. */
  lemma WordMatches(w: string, text: string)
    requires Plain(w)
    ensures Matches(w, text) <==> exists i :: At(w, text, i)
    ensures Matches("^" + w, text) <==> w <= text
    ensures Matches(w + "$", text) <==> At(w, text, |text| - |w|)
    ensures Matches("^" + w + "$", text) <==> text == w
  {
    hide Matches, Plain;
    WordFound(w, text);
    WordStarts(w, text);
    WordEnds(w, text);
    WordWhole(w, text);
  }

  // ---- one item at a time ----

  lemma EmptyMatches(text: string, i: nat, toEnd: bool)
    requires i <= |text|
    ensures MatchesAt(Pattern([], toEnd), text, i) <==> !toEnd || i == |text|
  {
    var p := Pattern([], toEnd);
    assert text[i..i] == "";
    if !toEnd || i == |text| { assert MatchesSpan(p, text, i, i); }
    if k :| MatchesSpan(p, text, i, k) { assert |text[i..k]| == k - i; }
  }

  /** A first part up to j and the rest from there. */
  lemma Cut(text: string, i: nat, j: nat, k: nat)
    requires i <= j <= k <= |text|
    ensures text[i..k][..j - i] == text[i..j] && text[i..k][j - i..] == text[j..k]
  {
  }

  lemma Splits(i: Item, p: Pattern, text: string, s: nat)
    requires s <= |text|
    ensures MatchesAt(Prepend(i, p), text, s) <==>
      exists j :: s <= j <= |text| && InItem(i, text[s..j]) && MatchesAt(p, text, j)
  {
    hide InItem;
    var q := Prepend(i, p);
    assert q.items[0] == i && q.items[1..] == p.items;
    if k :| MatchesSpan(q, text, s, k) {
      var w := text[s..k];
      var n :| 0 <= n <= |w| && InItem(i, w[..n]) && InItems(p.items, w[n..]);
      Cut(text, s, s + n, k);
      assert MatchesSpan(p, text, s + n, k);
      assert InItem(i, text[s..s + n]);
    }
    if j :| s <= j <= |text| && InItem(i, text[s..j]) && MatchesAt(p, text, j) {
      var k :| MatchesSpan(p, text, j, k);
      Cut(text, s, j, k);
      var w := text[s..k];
      assert InItem(i, w[..j - s]) && InItems(p.items, w[j - s..]);
      assert MatchesSpan(q, text, s, k);
    }
  }

  lemma OneMatches(c: char, p: Pattern, text: string, s: nat)
    requires s <= |text|
    ensures MatchesAt(Prepend(One(c), p), text, s) <==> s < |text| && Fits(c, text[s]) && MatchesAt(p, text, s + 1)
  {
    hide MatchesAt, Prepend;
    Splits(One(c), p, text, s);
    if s < |text| && Fits(c, text[s]) && MatchesAt(p, text, s + 1) { assert InItem(One(c), text[s..s + 1]); }
  }

  lemma StarMatches(c: char, p: Pattern, text: string, s: nat)
    requires s <= |text|
    ensures MatchesAt(Prepend(Star(c), p), text, s) <==> StarFrom(c, p, text, s)
  {
    hide MatchesAt, Prepend;
    Splits(Star(c), p, text, s);
    if j :| s <= j <= |text| && InItem(Star(c), text[s..j]) && MatchesAt(p, text, j) {
      forall k | s <= k < j ensures Fits(c, text[k]) { assert text[s..j][k - s] == text[k]; }
      assert StarTo(c, p, text, s, j);
    }
    if j :| StarTo(c, p, text, s, j) { assert InItem(Star(c), text[s..j]); }
  }

  ghost predicate StarTo(c: char, p: Pattern, text: string, s: nat, j: int) {
    s <= j <= |text| && (forall k :: s <= k < j ==> Fits(c, text[k])) && MatchesAt(p, text, j)
  }

  ghost predicate StarFrom(c: char, p: Pattern, text: string, s: nat) {
    exists j :: StarTo(c, p, text, s, j)
  }

  lemma AtNext(w: string, text: string, i: nat)
    requires w != "" && i < |text|
    ensures At(w, text, i) <==> text[i] == w[0] && At(w[1..], text, i + 1)
  {
    if i + |w| <= |text| { assert text[i..i + |w|] == [text[i]] + text[i + 1..i + |w|]; }
    assert w == [w[0]] + w[1..];
  }

  lemma {:induction false} WordThen(w: string, p: Pattern, text: string, i: nat)
    requires Plain(w) && i <= |text|
    ensures MatchesAt(Pattern(Ones(w) + p.items, p.toEnd), text, i) <==> At(w, text, i) && MatchesAt(p, text, i + |w|)
    decreases |w|
  {
    hide MatchesAt;
    if w == "" {
      assert Ones(w) + p.items == p.items;
    } else {
      var q := Pattern(Ones(w[1..]) + p.items, p.toEnd);
      assert Ones(w) + p.items == [One(w[0])] + (Ones(w[1..]) + p.items);
      OneMatches(w[0], q, text, i);
      if i < |text| {
        WordThen(w[1..], p, text, i + 1);
        AtNext(w, text, i);
      }
    }
  }

  lemma CompileGap(u: string, c: char, v: string)
    requires Plain(u) && Plain(v) && c != '*'
    ensures Compile(u + [c, '*'] + v) == Pattern(Ones(u) + ([Star(c)] + Ones(v)), false)
  {
    hide Compile, Show;
    ShowOnes(v, false);
    var tail := [Star(c)] + Ones(v);
    assert Show(tail, false) == [c, '*'] + v by { ShowNext(Star(c), Ones(v), false); }
    ShowAfter(u, tail, false);
    assert u + ([c, '*'] + v) == u + [c, '*'] + v;
    CompileShow(Ones(u) + tail, false);
  }

  lemma {:induction false} ShowAfter(u: string, items: seq<Item>, toEnd: bool)
    ensures Show(Ones(u) + items, toEnd) == u + Show(items, toEnd)
    decreases |u|
  {
    hide Show;
    if u == "" {
      assert Ones(u) + items == items;
    } else {
      assert Ones(u) + items == [One(u[0])] + (Ones(u[1..]) + items);
      ShowNext(One(u[0]), Ones(u[1..]) + items, toEnd);
      ShowAfter(u[1..], items, toEnd);
      assert u == [u[0]] + u[1..];
    }
  }

  /** u stands at i and v at j, with nothing but c between, or with anything if c is `.`. */
  ghost predicate Around(u: string, c: char, v: string, text: string, i: int, j: int) {
    && At(u, text, i) && i + |u| <= j && At(v, text, j)
    && forall k :: i + |u| <= k < j ==> c == '.' || text[k] == c
  }

  /** A character with `*` between two plain words stands for any number of it, `.` for any character. */
  lemma GapMatches(u: string, c: char, v: string, text: string)
    requires Plain(u) && Plain(v) && c != '*' && c != '^'
    ensures Matches(u + [c, '*'] + v, text) <==> exists i, j :: Around(u, c, v, text, i, j)
  {
    hide MatchesAt, Compile;
    var re, q, p := u + [c, '*'] + v, Pattern(Ones(v), false), Pattern([Star(c)] + Ones(v), false);
    CompileGap(u, c, v);
    assert re[0] != '^';
    forall i: nat | i <= |text|
      ensures MatchesAt(Compile(re), text, i) <==> exists j :: Around(u, c, v, text, i, j)
    {
      WordThen(u, p, text, i);
      if i + |u| <= |text| { GapAt(u, c, v, text, i); }
    }
    if i, j :| Around(u, c, v, text, i, j) { assert MatchesAt(Compile(re), text, i); }
    if Matches(re, text) {
      var i :| 0 <= i <= |text| && MatchesAt(Compile(re), text, i);
      var j :| Around(u, c, v, text, i, j);
    }
  }

  lemma GapAt(u: string, c: char, v: string, text: string, i: nat)
    requires Plain(v) && i + |u| <= |text|
    ensures At(u, text, i) && MatchesAt(Pattern([Star(c)] + Ones(v), false), text, i + |u|) <==>
      exists j :: Around(u, c, v, text, i, j)
  {
    hide MatchesAt;
    var q, s := Pattern(Ones(v), false), i + |u|;
    StarMatches(c, q, text, s);
    if j :| StarTo(c, q, text, s, j) && At(u, text, i) {
      PlainAt(v, false, text, j);
      assert Around(u, c, v, text, i, j);
    }
    if j :| Around(u, c, v, text, i, j) {
      PlainAt(v, false, text, j);
      assert StarTo(c, q, text, s, j);
    }
  }

  // ---- the matcher ----

  /** matchhere: sound and complete at one position. */
  method MatchHere(re: CString, text: CString, s: nat) returns (yes: bool)
    requires s <= |text|
    ensures yes <==> MatchesAt(Compile(re), text, s)
    decreases |re|, 0
  {
    hide MatchesAt, Prepend;
    if re == "" {
      EmptyMatches(text, s, false);
      return true;
    }
    if |re| > 1 && re[1] == '*' {
      StarMatches(re[0], Compile(re[2..]), text, s);
      yes := MatchStar(re[0], re[2..], text, s);
      return;
    }
    if re == "$" {
      EmptyMatches(text, s, true);
      return s == |text|;
    }
    OneMatches(re[0], Compile(re[1..]), text, s);
    if s < |text| && (re[0] == '.' || re[0] == text[s]) {
      yes := MatchHere(re[1..], text, s + 1);
      return;
    }
    return false;
  }

  /** matchstar: tries every number of leading characters that fit c, fewest first. */
  method MatchStar(c: char, re: CString, text: CString, s: nat) returns (yes: bool)
    requires s <= |text|
    ensures yes <==> StarFrom(c, Compile(re), text, s)
    decreases |re|, 1
  {
    hide MatchesAt, Compile;
    var t := s;
    while true
      invariant s <= t <= |text| && (forall k :: s <= k < t ==> Fits(c, text[k]))
      invariant forall j :: s <= j < t ==> !MatchesAt(Compile(re), text, j)
      decreases |text| - t
    {
      var here := MatchHere(re, text, t);
      if here {
        assert StarTo(c, Compile(re), text, s, t);
        return true;
      }
      if !(t < |text| && (text[t] == c || c == '.')) { return false; }
      t := t + 1;
    }
  }

  /** match: true exactly when the text contains what the expression denotes. */
  method Match(re: CString, text: CString) returns (yes: bool)
    ensures yes <==> Matches(re, text)
  {
    hide MatchesAt, Compile;
    if re != "" && re[0] == '^' {
      yes := MatchHere(re[1..], text, 0);
      return;
    }
    var t := 0;
    while true
      invariant 0 <= t <= |text| && forall i :: 0 <= i < t ==> !MatchesAt(Compile(re), text, i)
      decreases |text| - t
    {
      yes := MatchHere(re, text, t);
      if yes { return; }
      if t == |text| { return; }
      t := t + 1;
    }
  }
}
