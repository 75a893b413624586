/** Path names of fs.c: skipelem takes a path apart, namex walks the directories it names. */
module Path {
  import opened Words
  import opened FsSpec
  import opened FileSystem
  import opened Directory
  import opened Wrappers

  const SLASH: byte := 47

  type Bytes = seq<byte>

  /** A path element: not empty, no slash. */
  predicate Element(w: Bytes) { w != [] && SLASH !in w }

  /** The first position from s on that holds a slash, or the end. */
  function ElementEnd(path: Bytes, s: nat): (e: nat)
    requires s <= |path|
    ensures s <= e <= |path| && SLASH !in path[s..e] && (e < |path| ==> path[e] == SLASH)
    decreases |path| - s
  {
    if s < |path| && path[s] != SLASH then
      var e := ElementEnd(path, s + 1);
      assert path[s..e] == [path[s]] + path[s + 1..e];
      e
    else s
  }

  /** The elements of a path, in order. */
  function Elements(path: Bytes): (es: seq<Bytes>)
    ensures forall i :: 0 <= i < |es| ==> Element(es[i])
    decreases |path|
  {
    if path == [] then []
    else if path[0] == SLASH then Elements(path[1..])
    else
      var e := ElementEnd(path, 0);
      assert path[..e] == path[0..e];
      [path[..e]] + Elements(path[e..])
  }

  function Joined(es: seq<Bytes>): (path: Bytes) {
    if es == [] then [] else [SLASH] + es[0] + Joined(es[1..])
  }

  lemma {:induction false} EndsAt(path: Bytes, s: nat, e: nat)
    requires s <= e <= |path| && (forall i :: s <= i < e ==> path[i] != SLASH) && (e < |path| ==> path[e] == SLASH)
    ensures ElementEnd(path, s) == e
    decreases e - s
  {
    if s < e { EndsAt(path, s + 1, e); }
  }

  /** An element in front of a slash or the end is split off whole. */
  lemma FirstElement(w: Bytes, rest: Bytes)
    requires Element(w) && (rest != [] ==> rest[0] == SLASH)
    ensures Elements(w + rest) == [w] + Elements(rest)
  {
    var path := w + rest;
    EndsAt(path, 0, |w|);
    assert path[..|w|] == w && path[|w|..] == rest;
  }

  /** Taking apart what was put together. */
  lemma {:induction false} ElementsJoined(es: seq<Bytes>)
    requires forall i :: 0 <= i < |es| ==> Element(es[i])
    ensures Elements(Joined(es)) == es
    decreases |es|
  {
    if es != [] {
      ElementsJoined(es[1..]);
      FirstElement(es[0], Joined(es[1..]));
      assert Joined(es) == [SLASH] + (es[0] + Joined(es[1..]));
      assert Joined(es)[1..] == es[0] + Joined(es[1..]);
    }
  }

  lemma {:induction false} NoSlashes(path: Bytes, s: nat)
    requires s <= |path| && forall i :: 0 <= i < s ==> path[i] == SLASH
    ensures Elements(path) == Elements(path[s..])
    decreases s
  {
    if s == 0 {
      assert path[0..] == path;
    } else {
      NoSlashes(path[1..], s - 1);
      assert path[1..][s - 1..] == path[s..];
    }
  }

  /** The name field skipelem fills: cut at DIRSIZ bytes, or ended by a NUL. */
  function Field(w: Bytes): (name: Bytes) {
    if |w| >= DIRSIZ then w[..DIRSIZ] else w + [0]
  }

  ghost predicate Slashes(path: Bytes, a: nat, b: nat) {
    a <= b <= |path| && forall i :: a <= i < b ==> path[i] == SLASH
  }

  /** The loops over slashes. */
  method SkipSlashes(path: Bytes, s: nat) returns (p: nat)
    requires s <= |path|
    ensures Slashes(path, s, p) && (p < |path| ==> path[p] != SLASH)
  {
    p := s;
    while p < |path| && path[p] == SLASH
      invariant Slashes(path, s, p)
    {
      p := p + 1;
    }
  }

  /** The loop over the element itself. */
  method SkipName(path: Bytes, s: nat) returns (p: nat)
    requires s < |path| && path[s] != SLASH
    ensures s < p <= |path| && Element(path[s..p]) && (p < |path| ==> path[p] == SLASH)
  {
    p := s;
    while p < |path| && path[p] != SLASH
      invariant s <= p <= |path| && SLASH !in path[s..p]
    {
      assert path[s..p + 1] == path[s..p] + [path[p]];
      p := p + 1;
    }
  }

  lemma TakenApart(path: Bytes, a: nat, b: nat, c: nat)
    requires Slashes(path, 0, a) && a < b <= |path| && Element(path[a..b]) && (b < |path| ==> path[b] == SLASH)
    requires Slashes(path, b, c)
    ensures Elements(path) == [path[a..b]] + Elements(path[c..])
  {
    hide Elements;
    NoSlashes(path, a);
    assert path[a..] == path[a..b] + path[b..];
    FirstElement(path[a..b], path[b..]);
    NoSlashes(path[b..], c - b);
    assert path[b..][c - b..] == path[c..];
  }

  /** skipelem: no element is left, or the first one and a rest without leading slashes. */
  method SkipElem(path: Bytes) returns (r: Option<Bytes>, name: Bytes)
    requires 0 !in path
    ensures r.None? <==> Elements(path) == []
    ensures r.Some? ==>
      && name == Field(Elements(path)[0]) && Elements(r.value) == Elements(path)[1..]
      && (r.value == [] || r.value[0] != SLASH) && |r.value| < |path| && 0 !in r.value && 0 !in Elements(path)[0]
  {
    hide Elements;
    var a := SkipSlashes(path, 0);
    if a == |path| {
      NoSlashes(path, a);
      assert path[a..] == [];
      assert Elements([]) == [] by { NoElements(); }
      return None, [];
    }
    var b := SkipName(path, a);
    var w := path[a..b];
    name := if |w| >= DIRSIZ then w[..DIRSIZ] else w + [0];
    var c := SkipSlashes(path, b);
    TakenApart(path, a, b, c);
    return Some(path[c..]), name;
  }

  lemma NoElements()
    ensures Elements([]) == []
  {
  }

  // ---- walking the directories ----

  /** Every directory is well-formed and every name in one is the number of an inode. */
  ghost predicate Closed(fs: FileSystem)
    reads fs
  {
    && fs.Valid()
    && forall d :: 0 <= d < |fs.inodes| && fs.inodes[d].typ == T_DIR ==>
         OpenDir(fs, d) && LeadsOn(fs, Names(Content(fs.inodes[d], fs.blocks)))
  }

  ghost predicate LeadsOn(fs: FileSystem, m: Dir)
    reads fs
  {
    forall k :: k in m ==> m[k] < |fs.inodes|
  }

  /** Where a path leads; `NoType` is ilock's panic on a free inode. */
  datatype Walked = Reached(ip: nat) | NotFound | NoType

  /** Locking ip and asking for a directory. */
  ghost function Enters(fs: FileSystem, ip: nat): (r: Walked)
    reads fs
    ensures r.Reached? ==> r.ip == ip < |fs.inodes| && fs.inodes[ip].typ == T_DIR
  {
    if ip >= |fs.inodes| then NotFound
    else if fs.inodes[ip].typ == 0 then NoType
    else if fs.inodes[ip].typ != T_DIR then NotFound
    else Reached(ip)
  }

  /** The inode reached from ip by one name after the other. */
  ghost function Resolve(fs: FileSystem, ip: nat, es: seq<Bytes>): (r: Walked)
    requires Closed(fs)
    reads fs
    decreases |es|
  {
    if es == [] then Reached(ip)
    else if !Enters(fs, ip).Reached? then Enters(fs, ip)
    else
      var m := Names(Content(fs.inodes[ip], fs.blocks));
      if Key(es[0]) in m then Resolve(fs, m[Key(es[0])], es[1..]) else NotFound
  }

  /** One name is one lookup in the directory's map ... */
  lemma ResolveOne(fs: FileSystem, ip: nat, w: Bytes)
    requires Closed(fs) && ip < |fs.inodes| && fs.inodes[ip].typ == T_DIR
    ensures var m := Names(Content(fs.inodes[ip], fs.blocks));
      Resolve(fs, ip, [w]) == if Key(w) in m then Reached(m[Key(w)]) else NotFound
  {
    hide Content, DirMap, Key, OpenDir, LeadsOn, FileSystem.Valid, Closed;
    ClosedFacts(fs);
  }

  /** ... and a path can be cut anywhere and followed from where its first part leads. */
  lemma {:induction false} ResolveSplit(fs: FileSystem, ip: nat, a: seq<Bytes>, b: seq<Bytes>)
    requires Closed(fs)
    ensures var r := Resolve(fs, ip, a); Resolve(fs, ip, a + b) == if r.Reached? then Resolve(fs, r.ip, b) else r
    decreases |a|
  {
    hide Content, DirMap, Key, OpenDir, LeadsOn, FileSystem.Valid, Closed;
    ClosedFacts(fs);
    if a == [] {
      assert a + b == b;
    } else {
      assert (a + b)[1..] == a[1..] + b && (a + b)[0] == a[0];
      if Enters(fs, ip).Reached? {
        var m := Names(Content(fs.inodes[ip], fs.blocks));
        if Key(a[0]) in m { ResolveSplit(fs, m[Key(a[0])], a[1..], b); }
      }
    }
  }

  /** namex's walk: with `parent` it stops one name early, in the directory that holds the last name. */
  ghost function Walk(fs: FileSystem, ip: nat, es: seq<Bytes>, parent: bool): (r: Walked)
    requires Closed(fs)
    reads fs
    decreases |es|
  {
    if es == [] then (if parent then NotFound else Reached(ip))
    else if !Enters(fs, ip).Reached? then Enters(fs, ip)
    else if parent && |es| == 1 then Reached(ip)
    else
      var m := Names(Content(fs.inodes[ip], fs.blocks));
      if Key(es[0]) in m then Walk(fs, m[Key(es[0])], es[1..], parent) else NotFound
  }

  lemma ClosedFacts(fs: FileSystem)
    requires Closed(fs)
    ensures forall d :: 0 <= d < |fs.inodes| && fs.inodes[d].typ == T_DIR ==> WellFormed(fs.inodes[d])
  {
  }

  /** namei reaches what the names lead to; nameiparent reaches the directory before the last name. */
  lemma {:induction false} WalkResolves(fs: FileSystem, ip: nat, es: seq<Bytes>)
    requires Closed(fs)
    ensures Walk(fs, ip, es, false) == Resolve(fs, ip, es)
    ensures es != [] ==>
      && var dir := Resolve(fs, ip, es[..|es| - 1]);
      && Walk(fs, ip, es, true) == if dir.Reached? then Enters(fs, dir.ip) else dir
    decreases |es|
  {
    hide Content, DirMap, Key, OpenDir, LeadsOn, FileSystem.Valid, Closed;
    ClosedFacts(fs);
    if es != [] && Enters(fs, ip).Reached? {
      var m := Names(Content(fs.inodes[ip], fs.blocks));
      if Key(es[0]) in m { WalkResolves(fs, m[Key(es[0])], es[1..]); }
      if |es| > 1 { assert es[..|es| - 1][1..] == es[1..][..|es[1..]| - 1]; }
    }
  }

  lemma FieldKey(w: Bytes)
    requires 0 !in w
    ensures Key(Field(w)) == Key(w) && Readable(Field(w), DIRSIZ)
  {
    hide Prefix;
    var f, k, l := Field(w), Key(Field(w)), Key(w);
    assert forall i :: 0 <= i < |w| ==> w[i] != 0;
    if |w| >= DIRSIZ {
      assert |k| == DIRSIZ && |l| == DIRSIZ;
      assert k == f == l;
    } else {
      assert f[|w|] == 0;
      assert |k| == |w| && |l| == |w|;
      assert k == f[..|w|] == w && l == w;
    }
  }

  lemma Leads(fs: FileSystem, ip: nat, key: Bytes)
    requires Closed(fs) && ip < |fs.inodes| && fs.inodes[ip].typ == T_DIR
    requires key in Names(Content(fs.inodes[ip], fs.blocks))
    ensures Names(Content(fs.inodes[ip], fs.blocks))[key] < |fs.inodes|
  {
    hide Content, DirMap, OpenDir, FileSystem.Valid;
  }

  lemma RestEmpty(rest: Bytes)
    requires rest == [] || rest[0] != SLASH
    ensures rest == [] <==> Elements(rest) == []
  {
  }

  const ROOTINO := 1

  /** What namex answers for the elements of a path, starting at ip: the inode they lead to, or with
      `parent` the directory that holds the last of them. */
  ghost function Answer(fs: FileSystem, ip: nat, es: seq<Bytes>, parent: bool): (r: Walked)
    requires Closed(fs)
    reads fs
  {
    if !parent then Resolve(fs, ip, es)
    else if es == [] then NotFound
    else
      var dir := Resolve(fs, ip, es[..|es| - 1]);
      if dir.Reached? then Enters(fs, dir.ip) else dir
  }

  lemma WalkAnswers(fs: FileSystem, ip: nat, es: seq<Bytes>, parent: bool)
    requires Closed(fs)
    ensures Walk(fs, ip, es, parent) == Answer(fs, ip, es, parent)
  {
    WalkResolves(fs, ip, es);
  }

  /** namex: an absolute path starts at inode 1, whatever the current directory is, any other path at the
      current directory. */
  method NameX(fs: FileSystem, path: Bytes, cwd: nat, parent: bool) returns (r: Walked, name: Bytes)
    requires Closed(fs) && 0 !in path
    requires (if path != [] && path[0] == 47 then 1 else cwd) < |fs.inodes|
    modifies fs`bitmap, fs`blocks, fs`inodes, fs`owner
    ensures fs.inodes == old(fs.inodes) && fs.blocks == old(fs.blocks)
    ensures fs.bitmap == old(fs.bitmap) && fs.owner == old(fs.owner)
    ensures Closed(fs)
    ensures path != [] && path[0] == 47 ==> r == Answer(fs, 1, Elements(path), parent)
    ensures path == [] || path[0] != 47 ==> r == Answer(fs, cwd, Elements(path), parent)
    ensures parent && r.Reached? ==> name == Field(Elements(path)[|Elements(path)| - 1])
  {
    hide Elements, Closed, Walk, Answer, Field;
    var ip := cwd;
    if path != [] && path[0] == SLASH {
      ip := ROOTINO;
    }
    r, name := Follow(fs, path, ip, parent);
    WalkAnswers(fs, ip, Elements(path), parent);
  }

  /** namex's loop. */
  method Follow(fs: FileSystem, path: Bytes, start: nat, parent: bool) returns (r: Walked, name: Bytes)
    requires Closed(fs) && 0 !in path && start < |fs.inodes|
    modifies fs`bitmap, fs`blocks, fs`inodes, fs`owner
    ensures fs.inodes == old(fs.inodes) && fs.blocks == old(fs.blocks)
    ensures fs.bitmap == old(fs.bitmap) && fs.owner == old(fs.owner)
    ensures Closed(fs) && r == Walk(fs, start, Elements(path), parent)
    ensures r.Reached? && parent ==> Elements(path) != []
    ensures parent && r.Reached? ==> name == Field(Elements(path)[|Elements(path)| - 1])
  {
    hide Elements, Content, Key, Field, OpenDir, LeadsOn, Element, FileSystem.Valid, DirMap;
    var ip: nat := start;
    var p := path;
    name := [];
    while true
      invariant fs.inodes == old(fs.inodes) && fs.blocks == old(fs.blocks)
      invariant fs.bitmap == old(fs.bitmap) && fs.owner == old(fs.owner)
      invariant Closed(fs) && 0 !in p && ip < |fs.inodes|
      invariant Walk(fs, ip, Elements(p), parent) == Walk(fs, start, Elements(path), parent)
      invariant Ends(Elements(p), Elements(path), parent)
      decreases |p|
    {
      var rest, elem := SkipElem(p);
      if rest.None? {
        return if parent then NotFound else Reached(ip), name;
      }
      ghost var es := Elements(p);
      name := elem;
      RestEmpty(rest.value);
      FieldKey(es[0]);
      if fs.inodes[ip].typ == 0 {
        return NoType, name;
      }
      if fs.inodes[ip].typ != T_DIR {
        return NotFound, name;
      }
      if parent && rest.value == [] {
        assert es == [es[0]];
        return Reached(ip), name;
      }
      var next := DirLookup(fs, ip, name);
      if next.None? {
        return NotFound, name;
      }
      Leads(fs, ip, Key(name));
      ip := next.value.0;
      p := rest.value;
    }
  }

  /** A closed file system after one directory has changed. */
  lemma StillClosed(fs: FileSystem, inodes: seq<Inode>, blocks: seq<Block>, dp: nat)
    requires OpenDir(fs, dp) && LeadsOn(fs, Names(Content(fs.inodes[dp], fs.blocks)))
    requires OtherFiles(inodes, blocks, fs.inodes, fs.blocks, dp)
    requires forall d :: 0 <= d < |inodes| && d != dp && inodes[d].typ == T_DIR ==>
      var s := Content(inodes[d], blocks); IsDir(s) && LeadsOn(fs, Names(s))
    ensures Closed(fs)
  {
    hide Content, DirMap, FileSystem.Valid, IsDir, LeadsOn;
  }

  /** dirlink of an inode that exists: the file system stays closed, and the new name leads there. */
  method Link(fs: FileSystem, dp: nat, name: Bytes, inum: nat) returns (r: Option<int>)
    requires Closed(fs) && dp < |fs.inodes| && fs.inodes[dp].typ == T_DIR && Readable(name, DIRSIZ)
    requires inum % 0x1_0000 < |fs.inodes|
    modifies fs`bitmap, fs`blocks, fs`inodes, fs`dinodes, fs`owner
    ensures r.Some? ==> Closed(fs)
    ensures r == Some(0) && inum % 0x1_0000 != 0 ==> Resolve(fs, dp, [name]) == Reached(inum % 0x1_0000)
  {
    hide Content, DirMap, FileSystem.Valid, IsDir, Key, FileSystem.DiskFull;
    ghost var inodes, blocks := fs.inodes, fs.blocks;
    r := DirLink(fs, dp, name, inum);
    if r == Some(0) {
      StillClosed(fs, inodes, blocks, dp);
    }
  }

  lemma RootElement(name: Bytes)
    requires Element(name)
    ensures Elements([47] + name) == [name]
  {
    assert ([47] + name)[1..] == name;
    FirstElement(name, []);
    assert name + [] == name;
  }

  /** A name linked in the root directory is found from everywhere. */
  method LinkThenLookup(fs: FileSystem, name: Bytes, inum: nat, cwd: nat) returns (linked: Option<int>, r: Walked)
    requires Closed(fs) && 1 < |fs.inodes| && fs.inodes[1].typ == T_DIR
    requires Element(name) && 0 !in name && Readable(name, DIRSIZ) && 0 < inum < 0x1_0000 && inum < |fs.inodes|
    modifies fs`bitmap, fs`blocks, fs`inodes, fs`dinodes, fs`owner
    ensures linked == Some(0) ==> r == Reached(inum)
  {
    hide Elements, Content, Key, OpenDir, LeadsOn, Element, FileSystem.Valid, DirMap, Closed;
    linked := Link(fs, 1, name, inum);
    r := NotFound;
    if linked == Some(0) {
      RootElement(name);
      var last: Bytes;
      r, last := NameX(fs, [47] + name, cwd, false);
    }
  }

  /** nameiparent has not yet passed the last name. */
  ghost predicate Ends(es: seq<Bytes>, all: seq<Bytes>, parent: bool) {
    parent && es != [] ==> all != [] && es[|es| - 1] == all[|all| - 1]
  }
}
