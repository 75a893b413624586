/** Directories of fs.c: sixteen-byte entries in a file, as a map from names to inode numbers. */
module Directory {
  import opened Words
  import opened FsSpec
  import opened FileSystem
  import opened Wrappers

  const DIRSIZ := 14
  const DESIZE := 16          // sizeof(struct dirent)

  // ---------------------------------------------------------------- names

  /** The bytes of a C string before its NUL, at most n of them. */
  function Prefix(s: seq<byte>, n: nat): (k: seq<byte>)
    ensures |k| <= n && |k| <= |s| && k == s[..|k|] && 0 !in k
    ensures |k| == n || |k| == |s| || s[|k|] == 0
    decreases n
  {
    if n == 0 || s == [] || s[0] == 0 then [] else [s[0]] + Prefix(s[1..], n - 1)
  }

  lemma PrefixIs(s: seq<byte>, n: nat, j: nat)
    requires j <= n && j <= |s| && 0 !in s[..j] && (j == n || j == |s| || s[j] == 0)
    ensures Prefix(s, n) == s[..j]
  {
    hide Prefix;
    var k := Prefix(s, n);
    assert forall i :: 0 <= i < j ==> s[..j][i] == s[i];
    assert forall i :: 0 <= i < |k| ==> k[i] == s[i] != 0;
    assert |k| == j;
  }

  lemma PrefixesDiffer(p: seq<byte>, q: seq<byte>, n: nat, i: nat)
    requires i < n && i < |p| && i < |q| && p[..i] == q[..i] && 0 !in p[..i] && p[i] != q[i]
    ensures Prefix(p, n) != Prefix(q, n)
  {
    hide Prefix;
    var k := Prefix(p, n);
    assert forall j :: 0 <= j < i ==> p[..i][j] == p[j];
    assert |k| >= i;
    assert |Prefix(q, n)| == |k| ==> k[..i] == p[..i] && (|k| > i ==> Prefix(q, n)[i] != k[i]);
  }

  function Key(s: seq<byte>): (k: seq<byte>) { Prefix(s, DIRSIZ) }

  /** Long enough for a scan of n bytes to stop inside it. */
  predicate Readable(s: seq<byte>, n: nat) { |s| >= n || 0 in s }

  /** strncmp: 0 exactly when the names agree up to the NUL or the limit. */
  method StrNCmp(p: seq<byte>, q: seq<byte>, n: nat) returns (r: int)
    requires Readable(p, n) && Readable(q, n)
    ensures r == 0 <==> Prefix(p, n) == Prefix(q, n)
  {
    hide Prefix;
    var i := 0;
    while i < n && p[i] != 0 && p[i] == q[i]
      invariant i <= n && i <= |p| && i <= |q|
      invariant i < n ==> i < |p| && i < |q|
      invariant p[..i] == q[..i] && 0 !in p[..i]
      decreases n - i
    {
      assert p[..i + 1] == p[..i] + [p[i]] && q[..i + 1] == q[..i] + [q[i]];
      i := i + 1;
    }
    if i == n {
      PrefixIs(p, n, n);
      PrefixIs(q, n, n);
      return 0;
    }
    var a: int, b: int := p[i], q[i];
    if a == b {
      PrefixIs(p, n, i);
      PrefixIs(q, n, i);
    } else {
      PrefixesDiffer(p, q, n, i);
    }
    return a - b;
  }

  /** strncpy into a field of n bytes: the name, then zeros. */
  method StrNCpy(t: seq<byte>, n: nat) returns (s: seq<byte>)
    requires Readable(t, n)
    ensures s == Prefix(t, n) + Zeros(n - |Prefix(t, n)|)
  {
    s := [];
    while |s| < n && t[|s|] != 0
      invariant |s| <= n && |s| <= |t|
      invariant s == t[..|s|] && 0 !in s
      decreases n - |s|
    {
      s := s + [t[|s|]];
    }
    ghost var k := |s|;
    while |s| < n
      invariant k <= |s| <= n
      invariant s == t[..k] + Zeros(|s| - k)
      decreases n - |s|
    {
      s := s + [0];
    }
  }

  // ---------------------------------------------------------------- entries

  function Inum(de: seq<byte>): (n: nat)
    requires |de| == DESIZE
    ensures n < 0x1_0000
  {
    var lo: int, hi: int := de[0], de[1];
    lo + 0x100 * hi
  }

  function Name(de: seq<byte>): (s: seq<byte>)
    requires |de| == DESIZE
    ensures |s| == DIRSIZ
  {
    de[2..]
  }

  lemma LowBytes(n: nat)
    ensures n % 0x100 + 0x100 * (n / 0x100 % 0x100) == n % 0x1_0000
  {
    var q, lo := n / 0x100, n % 0x100;
    var h, mid := q / 0x100, q % 0x100;
    assert n == 0x1_0000 * h + (0x100 * mid + lo);
  }

  /** The entry dirlink builds; the inode number is cut to the sixteen bits of its field. */
  function Entry(name: seq<byte>, inum: nat): (de: seq<byte>)
    requires |name| == DIRSIZ
    ensures |de| == DESIZE && Inum(de) == inum % 0x1_0000 && Name(de) == name
    ensures de[0] == inum % 0x100 && de[1] == inum / 0x100 % 0x100 && de[2..] == name
  {
    LowBytes(inum);
    [inum % 0x100, inum / 0x100 % 0x100] + name
  }

  predicate WholeEntries(s: seq<byte>) { |s| % DESIZE == 0 }

  function Count(s: seq<byte>): (n: nat) { |s| / DESIZE }

  function Nth(s: seq<byte>, k: nat): (de: seq<byte>)
    requires k < Count(s)
    ensures |de| == DESIZE
  {
    s[DESIZE * k..DESIZE * k + DESIZE]
  }

  predicate Live(s: seq<byte>, k: nat)
    requires k < Count(s)
  {
    Inum(Nth(s, k)) != 0
  }

  /** No two live entries have the same name. */
  ghost predicate Unique(s: seq<byte>) {
    forall j: nat, k: nat :: j < k < Count(s) && Live(s, j) && Live(s, k) ==>
      Key(Name(Nth(s, j))) != Key(Name(Nth(s, k)))
  }

  ghost predicate IsDir(s: seq<byte>) { WholeEntries(s) && Unique(s) }

  type Dir = map<seq<byte>, nat>

  /** The map that the first n entries stand for. */
  ghost function DirMap(s: seq<byte>, n: nat): (m: Dir)
    requires n <= Count(s)
  {
    if n == 0 then map[]
    else if Live(s, n - 1) then DirMap(s, n - 1)[Key(Name(Nth(s, n - 1))) := Inum(Nth(s, n - 1))]
    else DirMap(s, n - 1)
  }

  ghost function Names(s: seq<byte>): (m: Dir) { DirMap(s, Count(s)) }

  /** A name is bound exactly if a live entry carries it, to that entry's inode number. */
  lemma {:induction false} DirMapAt(s: seq<byte>, n: nat, key: seq<byte>)
    requires n <= Count(s) && Unique(s)
    ensures key in DirMap(s, n) <==> exists k: nat :: k < n && Live(s, k) && Key(Name(Nth(s, k))) == key
    ensures forall k: nat :: k < n && Live(s, k) && Key(Name(Nth(s, k))) == key ==>
      key in DirMap(s, n) && DirMap(s, n)[key] == Inum(Nth(s, k))
  {
    hide Nth, Inum, Name, Key;
    if n > 0 {
      DirMapAt(s, n - 1, key);
    }
  }

  /** t is s with entry i, so far free or just past the end, replaced by de. */
  ghost predicate Placed(s: seq<byte>, t: seq<byte>, i: nat, de: seq<byte>) {
    && |de| == DESIZE && WholeEntries(s) && WholeEntries(t) && i <= Count(s)
    && Count(t) == (if i == Count(s) then i + 1 else Count(s))
    && (i < Count(s) ==> !Live(s, i))
    && forall k: nat :: k < Count(t) ==> Nth(t, k) == if k == i then de else Nth(s, k)
  }

  lemma SplicePlaces(s: seq<byte>, i: nat, de: seq<byte>)
    requires |de| == DESIZE && WholeEntries(s) && i <= Count(s) && (i < Count(s) ==> !Live(s, i))
    ensures DESIZE * i <= |s| && Placed(s, Splice(s, DESIZE * i, de), i, de)
  {
    var t := Splice(s, DESIZE * i, de);
    forall k: nat | k < Count(t) ensures Nth(t, k) == if k == i then de else Nth(s, k) {
      if k < i { assert DESIZE * k + DESIZE <= DESIZE * i; }
      else if k > i { assert DESIZE * k >= DESIZE * i + DESIZE; }
    }
  }

  lemma PlacedUnique(s: seq<byte>, t: seq<byte>, i: nat, de: seq<byte>)
    requires Placed(s, t, i, de) && Unique(s) && Key(Name(de)) !in Names(s)
    ensures Unique(t)
  {
    hide Nth, Inum, Name, Key, DirMap;
    forall j: nat, k: nat | j < k < Count(t) && Live(t, j) && Live(t, k)
      ensures Key(Name(Nth(t, j))) != Key(Name(Nth(t, k)))
    {
      DirMapAt(s, Count(s), Key(Name(de)));
      assert Nth(t, j) == (if j == i then de else Nth(s, j)) && Nth(t, k) == if k == i then de else Nth(s, k);
    }
  }

  /** Placing a new name is inserting it in the map. */
  lemma PlacedInserts(s: seq<byte>, t: seq<byte>, i: nat, de: seq<byte>)
    requires Placed(s, t, i, de) && Unique(s) && Unique(t) && Key(Name(de)) !in Names(s)
    ensures Names(t) == if Inum(de) == 0 then Names(s) else Names(s)[Key(Name(de)) := Inum(de)]
  {
    hide DirMap;
    var m := if Inum(de) == 0 then Names(s) else Names(s)[Key(Name(de)) := Inum(de)];
    forall x ensures (x in Names(t) <==> x in m) && (x in m ==> x in Names(t) && Names(t)[x] == m[x]) {
      PlacedAt(s, t, i, de, x);
    }
  }

  lemma PlacedAt(s: seq<byte>, t: seq<byte>, i: nat, de: seq<byte>, x: seq<byte>)
    requires Placed(s, t, i, de) && Unique(s) && Unique(t) && Key(Name(de)) !in Names(s)
    ensures Inum(de) != 0 && x == Key(Name(de)) ==> x in Names(t) && Names(t)[x] == Inum(de)
    ensures !(Inum(de) != 0 && x == Key(Name(de))) ==>
      (x in Names(t) <==> x in Names(s)) && (x in Names(s) ==> Names(t)[x] == Names(s)[x])
  {
    hide Nth, Inum, Name, Key, DirMap;
    DirMapAt(s, Count(s), x);
    DirMapAt(t, Count(t), x);
    assert Nth(t, i) == de;
    if !(Inum(de) != 0 && x == Key(Name(de))) {
      if k: nat :| k < Count(s) && Live(s, k) && Key(Name(Nth(s, k))) == x {
        assert k != i && Nth(t, k) == Nth(s, k);
      }
      if k: nat :| k < Count(t) && Live(t, k) && Key(Name(Nth(t, k))) == x {
        assert k != i && Nth(t, k) == Nth(s, k);
      }
    }
  }

  // ---------------------------------------------------------------- the operations

  /** The directory file dp and its bytes. */
  ghost predicate OpenDir(fs: FileSystem, dp: nat)
    reads fs
  {
    fs.Valid() && dp < |fs.inodes| && fs.inodes[dp].typ == T_DIR && IsDir(Content(fs.inodes[dp], fs.blocks))
  }

  lemma OpenFacts(fs: FileSystem, dp: nat)
    requires OpenDir(fs, dp)
    ensures dp < |fs.inodes| && WellFormed(fs.inodes[dp]) && fs.inodes[dp].typ == T_DIR
    ensures var s := Content(fs.inodes[dp], fs.blocks);
      IsDir(s) && fs.inodes[dp].size == DESIZE * Count(s)
  {
  }

  /** readi of entry k; the "dirlink read" panics are out of reach. */
  method ReadEntry(fs: FileSystem, dp: nat, k: nat) returns (de: seq<byte>)
    requires OpenDir(fs, dp) && k < Count(Content(fs.inodes[dp], fs.blocks))
    modifies fs`bitmap, fs`blocks, fs`inodes, fs`owner
    ensures fs.inodes == old(fs.inodes) && fs.blocks == old(fs.blocks)
    ensures fs.bitmap == old(fs.bitmap) && fs.owner == old(fs.owner)
    ensures OpenDir(fs, dp) && de == Nth(Content(fs.inodes[dp], fs.blocks), k)
  {
    hide Content, Unique, Owns;
    DirSize(fs.inodes[dp], fs.blocks);
    var r;
    r, de := fs.Readi(dp, DESIZE * k, DESIZE, None);
    assert r == DESIZE;
  }

  lemma DirSize(d: Inode, blocks: seq<Block>)
    requires Sized(d, blocks) && Mapped(d)
    ensures d.size <= MAXFILE * BSIZE < 0x8000_0000 && |Content(d, blocks)| == d.size
  {
  }

  /** dirlookup: a name is found exactly if the map binds it; the entry's offset comes back too. */
  method DirLookup(fs: FileSystem, dp: nat, name: seq<byte>) returns (r: Option<(nat, nat)>)
    requires OpenDir(fs, dp) && Readable(name, DIRSIZ)
    modifies fs`bitmap, fs`blocks, fs`inodes, fs`owner
    ensures fs.inodes == old(fs.inodes) && fs.blocks == old(fs.blocks)
    ensures fs.bitmap == old(fs.bitmap) && fs.owner == old(fs.owner)
    ensures OpenDir(fs, dp)
    ensures var s := Content(fs.inodes[dp], fs.blocks);
      && (r.Some? <==> Key(name) in Names(s))
      && (r.Some? ==>
           && r.value.0 == Names(s)[Key(name)]
           && exists k: nat ::
             k < Count(s) && Live(s, k) && Key(Name(Nth(s, k))) == Key(name) && r.value.1 == DESIZE * k)
  {
    hide Content, DirMap, Nth, Name, Inum, Key, Prefix, Unique, Count, OpenDir;
    OpenFacts(fs, dp);
    ghost var s := Content(fs.inodes[dp], fs.blocks);
    ghost var n := Count(s);
    var size := fs.inodes[dp].size;
    DirMapAt(s, n, Key(name));
    var k := 0;
    while DESIZE * k < size
      invariant k <= n
      invariant OpenDir(fs, dp) && fs.inodes == old(fs.inodes) && fs.blocks == old(fs.blocks)
      invariant fs.bitmap == old(fs.bitmap) && fs.owner == old(fs.owner)
      invariant forall j: nat :: j < k && Live(s, j) ==> Key(Name(Nth(s, j))) != Key(name)
    {
      var de := ReadEntry(fs, dp, k);
      if Inum(de) != 0 {
        var c := StrNCmp(name, Name(de), DIRSIZ);
        assert c == 0 <==> Key(name) == Key(Name(de)) by { KeyIsPrefix(name); KeyIsPrefix(Name(de)); }
        if c == 0 {
          assert Live(s, k) && Key(Name(Nth(s, k))) == Key(name);
          return Some((Inum(de), DESIZE * k));
        }
      }
      k := k + 1;
    }
    return None;
  }

  lemma KeyIsPrefix(s: seq<byte>)
    ensures Key(s) == Prefix(s, DIRSIZ)
  {
  }

  /** A name field holds the key of the name it was copied from. */
  lemma PaddedKey(t: seq<byte>, n: nat)
    ensures Prefix(Prefix(t, n) + Zeros(n - |Prefix(t, n)|), n) == Prefix(t, n)
  {
    hide Prefix, Zeros;
    var k := Prefix(t, n);
    var s := k + Zeros(n - |k|);
    assert s[..|k|] == k;
    PrefixIs(s, n, |k|);
  }

  function Padded(name: seq<byte>): (s: seq<byte>)
    ensures |s| == DIRSIZ
  {
    Key(name) + Zeros(DIRSIZ - |Key(name)|)
  }

  lemma PaddedIs(name: seq<byte>)
    ensures Padded(name) == Prefix(name, DIRSIZ) + Zeros(DIRSIZ - |Prefix(name, DIRSIZ)|)
  {
    hide Prefix, Zeros;
  }

  /** The first free entry, or the end. */
  ghost predicate FirstFree(s: seq<byte>, i: nat) {
    && i <= Count(s)
    && (forall j: nat :: j < i ==> Live(s, j))
    && (i < Count(s) ==> !Live(s, i))
  }

  /** dirlink's search loop. */
  method FindFree(fs: FileSystem, dp: nat) returns (i: nat)
    requires OpenDir(fs, dp)
    modifies fs`bitmap, fs`blocks, fs`inodes, fs`owner
    ensures fs.inodes == old(fs.inodes) && fs.blocks == old(fs.blocks)
    ensures fs.bitmap == old(fs.bitmap) && fs.owner == old(fs.owner)
    ensures OpenDir(fs, dp) && FirstFree(Content(fs.inodes[dp], fs.blocks), i)
  {
    hide Content, Nth, Inum, OpenDir, Count, IsDir;
    OpenFacts(fs, dp);
    ghost var s := Content(fs.inodes[dp], fs.blocks);
    ghost var n := Count(s);
    var size := fs.inodes[dp].size;
    i := 0;
    while DESIZE * i < size
      invariant i <= n
      invariant OpenDir(fs, dp) && fs.inodes == old(fs.inodes) && fs.blocks == old(fs.blocks)
      invariant fs.bitmap == old(fs.bitmap) && fs.owner == old(fs.owner)
      invariant forall j: nat :: j < i ==> Live(s, j)
    {
      var de := ReadEntry(fs, dp, i);
      if Inum(de) == 0 {
        break;
      }
      i := i + 1;
    }
  }

  /** s with the new entry in its place. */
  ghost predicate Linked(s: seq<byte>, t: seq<byte>, name: seq<byte>, inum: nat) {
    && (exists i: nat :: FirstFree(s, i) && DESIZE * i <= |s| && t == Splice(s, DESIZE * i, Entry(Padded(name), inum)))
    && Names(t) == if inum % 0x1_0000 == 0 then Names(s) else Names(s)[Key(name) := inum % 0x1_0000]
  }

  /** dirlink: -1 exactly when the name is bound; otherwise the entry goes into the first free slot, or
      at the end, and the map gains that one binding.  None is a panic: no block or no room left. */
  method DirLink(fs: FileSystem, dp: nat, name: seq<byte>, inum: nat) returns (r: Option<int>)
    requires OpenDir(fs, dp) && Readable(name, DIRSIZ)
    modifies fs`bitmap, fs`blocks, fs`inodes, fs`dinodes, fs`owner
    ensures var s := old(Content(fs.inodes[dp], fs.blocks));
      if Key(name) in Names(s) then
        && r == Some(-1) && OpenDir(fs, dp)
        && fs.inodes == old(fs.inodes) && fs.blocks == old(fs.blocks) && fs.bitmap == old(fs.bitmap)
      else r.Some? ==>
        && r.value == 0 && OpenDir(fs, dp)
        && OtherFiles(old(fs.inodes), old(fs.blocks), fs.inodes, fs.blocks, dp)
        && Linked(s, Content(fs.inodes[dp], fs.blocks), name, inum)
    ensures r.None? ==> fs.DiskFull() || old(fs.inodes[dp].size) == MAXFILE * BSIZE
  {
    hide FileSystem.DiskFull, Content, Names, Key, Linked, OtherFiles;
    var found := DirLookup(fs, dp, name);
    if found.Some? {
      return Some(-1);
    }
    var ok := Insert(fs, dp, name, inum);
    return if ok then Some(0) else None;
  }

  /** dirlink once the name is known to be new. */
  method Insert(fs: FileSystem, dp: nat, name: seq<byte>, inum: nat) returns (ok: bool)
    requires OpenDir(fs, dp) && Readable(name, DIRSIZ) && Key(name) !in Names(Content(fs.inodes[dp], fs.blocks))
    modifies fs`bitmap, fs`blocks, fs`inodes, fs`dinodes, fs`owner
    ensures ok ==>
      && OpenDir(fs, dp)
      && OtherFiles(old(fs.inodes), old(fs.blocks), fs.inodes, fs.blocks, dp)
      && Linked(old(Content(fs.inodes[dp], fs.blocks)), Content(fs.inodes[dp], fs.blocks), name, inum)
    ensures !ok ==> fs.DiskFull() || old(fs.inodes[dp].size) == MAXFILE * BSIZE
  {
    hide FileSystem.DiskFull, Content, Names, Unique, Entry, Splice, Linked, OtherFiles, FileSystem.Valid, Count,
      Zeros, Key, Prefix, WholeEntries;
    OpenFacts(fs, dp);
    ghost var s := Content(fs.inodes[dp], fs.blocks);
    var i := FindFree(fs, dp);
    var field := StrNCpy(name, DIRSIZ);
    PaddedIs(name);
    Links(s, i, name, inum);
    ok := WriteEntry(fs, dp, Entry(field, inum), i);
  }

  /** dirlink's write of a whole entry; anything shorter is its panic. */
  method WriteEntry(fs: FileSystem, dp: nat, de: seq<byte>, i: nat) returns (ok: bool)
    requires OpenDir(fs, dp) && |de| == DESIZE && i <= Count(Content(fs.inodes[dp], fs.blocks))
    requires DESIZE * i <= |Content(fs.inodes[dp], fs.blocks)|
    modifies fs`bitmap, fs`blocks, fs`inodes, fs`dinodes, fs`owner
    ensures ok ==>
      && fs.Valid() && |fs.inodes| == old(|fs.inodes|) && fs.inodes[dp].typ == T_DIR
      && OtherFiles(old(fs.inodes), old(fs.blocks), fs.inodes, fs.blocks, dp)
      && Content(fs.inodes[dp], fs.blocks) == Splice(old(Content(fs.inodes[dp], fs.blocks)), DESIZE * i, de)
    ensures !ok ==> fs.DiskFull() || old(fs.inodes[dp].size) == MAXFILE * BSIZE
  {
    hide FileSystem.DiskFull, FileSystem.Valid, OpenDir, Content, OtherFiles, Splice, Count, WellFormed, IsDir;
    EntryFits(fs, dp, i);
    ghost var size := fs.inodes[dp].size;
    var w := fs.Writei(dp, de, DESIZE * i, DESIZE, None);
    ok := w.Some? && w.value == DESIZE;
    WholeSlice(de);
    if w.Some? && !ok { ShortWrite(DESIZE * i, size); }
    if ok { OthersCount(old(fs.inodes), old(fs.blocks), fs.inodes, fs.blocks, dp); }
  }

  lemma OthersCount(inodes: seq<Inode>, blocks: seq<Block>, inodes': seq<Inode>, blocks': seq<Block>, ip: nat)
    requires OtherFiles(inodes, blocks, inodes', blocks', ip)
    ensures |inodes'| == |inodes|
  {
  }

  lemma WholeSlice(de: seq<byte>)
    requires |de| == DESIZE
    ensures de[..DESIZE] == de
  {
  }

  /** The place of entry i lies within a directory's range of offsets. */
  lemma EntryFits(fs: FileSystem, dp: nat, i: nat)
    requires OpenDir(fs, dp) && i <= Count(Content(fs.inodes[dp], fs.blocks))
    ensures fs.Valid() && dp < |fs.inodes| && fs.inodes[dp].typ == T_DIR && WellFormed(fs.inodes[dp])
    ensures var d := fs.inodes[dp];
      DESIZE * i <= d.size <= MAXFILE * BSIZE < 0x8000_0000 && d.size % DESIZE == 0 && |Content(d, fs.blocks)| == d.size
  {
    hide Content, Unique;
    DirSize(fs.inodes[dp], fs.blocks);
  }

  /** A write that stops inside an entry means a directory of maximal size. */
  lemma ShortWrite(off: nat, size: nat)
    requires off % DESIZE == 0 && size % DESIZE == 0 && off <= size <= MAXFILE * BSIZE && MAXFILE * BSIZE - off < DESIZE
    ensures size == MAXFILE * BSIZE
  {
  }

  /** What the write amounts to. */
  lemma Links(s: seq<byte>, i: nat, name: seq<byte>, inum: nat)
    requires IsDir(s) && FirstFree(s, i) && Key(name) !in Names(s)
    ensures DESIZE * i <= |s|
    ensures var t := Splice(s, DESIZE * i, Entry(Padded(name), inum));
      IsDir(t) && Linked(s, t, name, inum)
  {
    hide Entry, Splice, DirMap, Nth, Unique, Prefix;
    var de := Entry(Padded(name), inum);
    PaddedKey(name, DIRSIZ);
    assert Key(Name(de)) == Key(name);
    SplicePlaces(s, i, de);
    PlacedUnique(s, Splice(s, DESIZE * i, de), i, de);
    PlacedInserts(s, Splice(s, DESIZE * i, de), i, de);
  }
}
