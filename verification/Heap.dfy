/** umalloc.c: the user-level allocator of section 8.7 of Kernighan and Ritchie.

    An address counts header-sized units.  Every block starts with a header holding its size in units
    and, while it is free, the next block of a circular list kept in address order.  `base` is the
    statically allocated empty header that anchors the list. */
module Heap {
  import opened Wrappers

  const NALLOC := 4096     // fewest units morecore asks for
  const MAX_REQUEST := 0x7FFF_FFF0

  /** The size of a request in header units, its own header included, in 32-bit unsigned arithmetic. */
  function Units(nbytes: nat): (n: int)
    requires nbytes < 0x1_0000_0000
    ensures n >= 1
  {
    (nbytes + 7) % 0x1_0000_0000 / 8 + 1
  }

  /** A request is served faithfully exactly up to MAX_REQUEST: from there on the byte count handed to
      sbrk is not a positive int, or the unit count itself has wrapped. */
  lemma UnitsFaithful(nbytes: nat)
    requires nbytes < 0x1_0000_0000
    ensures nbytes <= MAX_REQUEST <==> 8 * Units(nbytes) >= nbytes + 8 && 8 * Units(nbytes) < 0x8000_0000
  {
  }

  /** The seven largest requests wrap to one unit: malloc hands out a header with no room behind it. */
  lemma UnitsWrap(nbytes: nat)
    requires nbytes < 0x1_0000_0000
    ensures Units(nbytes) == 1 <==> nbytes == 0 || nbytes > 0xFFFF_FFF8
    ensures 8 * Units(nbytes) < 0x8000_0000 <==> nbytes <= MAX_REQUEST || nbytes > 0xFFFF_FFF8
  {
  }

  // ---------------------------------------------------------------- blocks as intervals

  /** Blocks do not overlap. */
  ghost predicate Apart(size: map<int, int>, blocks: set<int>) {
    && blocks <= size.Keys
    && forall a, b :: a in blocks && b in blocks && a < b ==> a + size[a] <= b
  }

  ghost predicate Within(size: map<int, int>, blocks: set<int>, u: int) {
    exists b :: b in blocks && b in size && b <= u < b + size[b]
  }

  /** The units of the blocks are exactly the arena. */
  ghost predicate Covers(size: map<int, int>, blocks: set<int>, arena: set<int>) {
    forall u :: u in arena <==> Within(size, blocks, u)
  }

  ghost predicate Owner(size: map<int, int>, blocks: set<int>, u: int, b: int) {
    b in blocks && b in size && b <= u < b + size[b]
  }

  /** Apart and covering together mean a partition: each unit of the arena is in exactly one block. */
  lemma Partition(size: map<int, int>, blocks: set<int>, arena: set<int>, u: int)
    requires Apart(size, blocks) && Covers(size, blocks, arena)
    ensures u in arena <==> exists b :: Owner(size, blocks, u, b)
    ensures forall b, c :: Owner(size, blocks, u, b) && Owner(size, blocks, u, c) ==> b == c
  {
    assert u in arena <==> Within(size, blocks, u);
    if b :| b in blocks && b in size && b <= u < b + size[b] { assert Owner(size, blocks, u, b); }
  }

  /** Two neighbouring blocks become one. */
  lemma Merge(size: map<int, int>, size': map<int, int>, blocks: set<int>, arena: set<int>, a: int, b: int)
    requires Apart(size, blocks) && Covers(size, blocks, arena)
    requires a in blocks && b in blocks && a != b && size[a] > 0 && size[b] > 0 && a + size[a] == b
    requires blocks <= size'.Keys && size'[a] == size[a] + size[b]
    requires forall c :: c in blocks && c != a ==> size'[c] == size[c]
    ensures Apart(size', blocks - {b}) && Covers(size', blocks - {b}, arena)
  {
    hide Within;
    forall u ensures Within(size, blocks, u) <==> Within(size', blocks - {b}, u) {
      MergedAt(size, size', blocks, a, b, u);
    }
  }

  lemma MergedAt(size: map<int, int>, size': map<int, int>, blocks: set<int>, a: int, b: int, u: int)
    requires blocks <= size.Keys && blocks <= size'.Keys
    requires a in blocks && b in blocks && a != b && size[a] > 0 && size[b] > 0 && a + size[a] == b
    requires size'[a] == size[a] + size[b] && forall c :: c in blocks && c != a ==> size'[c] == size[c]
    ensures Within(size, blocks, u) <==> Within(size', blocks - {b}, u)
  {
    if Within(size, blocks, u) || Within(size', blocks - {b}, u) {
      if c :| c in blocks && c in size && c <= u < c + size[c] {
        var d := if c == b then a else c;
        assert d in blocks - {b} && d <= u < d + size'[d];
      }
      if c :| c in blocks - {b} && c in size' && c <= u < c + size'[c] {
        var d := if c == a && u >= b then b else c;
        assert d in blocks && d <= u < d + size[d];
      }
    }
  }

  /** A block gives its tail to a new block. */
  lemma Split(size: map<int, int>, size': map<int, int>, blocks: set<int>, arena: set<int>, a: int, b: int)
    requires Apart(size, blocks) && Covers(size, blocks, arena)
    requires a in blocks && a < b < a + size[a]
    requires blocks + {b} <= size'.Keys && size'[a] == b - a && size'[b] == size[a] - (b - a)
    requires forall c :: c in blocks && c != a ==> size'[c] == size[c]
    ensures b !in blocks
    ensures Apart(size', blocks + {b}) && Covers(size', blocks + {b}, arena)
  {
    hide Within;
    forall u ensures Within(size, blocks, u) <==> Within(size', blocks + {b}, u) {
      SplitAt(size, size', blocks, a, b, u);
    }
  }

  lemma SplitAt(size: map<int, int>, size': map<int, int>, blocks: set<int>, a: int, b: int, u: int)
    requires blocks <= size.Keys && a in blocks && a < b < a + size[a]
    requires blocks + {b} <= size'.Keys && size'[a] == b - a && size'[b] == size[a] - (b - a)
    requires forall c :: c in blocks && c != a && c != b ==> size'[c] == size[c]
    requires b !in blocks
    ensures Within(size, blocks, u) <==> Within(size', blocks + {b}, u)
  {
    if Within(size, blocks, u) || Within(size', blocks + {b}, u) {
      if c :| c in blocks && c in size && c <= u < c + size[c] {
        var d := if c == a && u >= b then b else c;
        assert d in blocks + {b} && d <= u < d + size'[d];
      }
      if c :| c in blocks + {b} && c in size' && c <= u < c + size'[c] {
        var d := if c == b then a else c;
        assert d in blocks && d <= u < d + size[d];
      }
    }
  }

  /** A region beyond every block joins the arena as one block. */
  lemma Grow(size: map<int, int>, size': map<int, int>, blocks: set<int>, arena: set<int>, a: int)
    requires Apart(size, blocks) && Covers(size, blocks, arena)
    requires a !in blocks && forall b :: b in blocks ==> b < a && b + size[b] <= a
    requires blocks + {a} <= size'.Keys && size'[a] > 0
    requires forall c :: c in blocks ==> size'[c] == size[c]
    ensures Apart(size', blocks + {a})
    ensures Covers(size', blocks + {a}, arena + Region(a, size'[a]))
  {
    var arena' := arena + Region(a, size'[a]);
    forall u ensures u in arena' <==> Within(size', blocks + {a}, u) {
      if u in Region(a, size'[a]) {
        assert a in blocks + {a} && a <= u < a + size'[a];
      } else if c :| c in blocks && c in size && c <= u < c + size[c] {
        assert c in blocks + {a} && c <= u < c + size'[c];
      }
      if c :| c in blocks + {a} && c in size' && c <= u < c + size'[c] {
        assert c == a || (c in blocks && c <= u < c + size[c]);
      }
    }
  }

  function Region(a: int, n: int): (r: set<int>)
    ensures forall u :: u in r <==> a <= u < a + n
  {
    if n <= 0 then {} else Region(a, n - 1) + {a + n - 1}
  }

  // ---------------------------------------------------------------- the free list

  /** `free` is one cycle of next pointers. */
  ghost predicate Linked(ptr: map<int, int>, free: seq<int>) {
    && |free| > 0
    && (forall i :: 0 <= i < |free| ==> free[i] in ptr)
    && (forall i :: 0 <= i < |free| - 1 ==> ptr[free[i]] == free[i + 1])
    && ptr[free[|free| - 1]] == free[0]
  }

  ghost predicate Sorted(free: seq<int>) {
    forall i, j :: 0 <= i < j < |free| ==> free[i] < free[j]
  }

  /** Free block i ends where the next one starts. */
  ghost predicate Adjacent(size: map<int, int>, free: seq<int>, i: int)
    requires 0 <= i < |free| - 1
  {
    free[i] in size && free[i] + size[free[i]] == free[i + 1]
  }

  ghost predicate NonAdjacent(size: map<int, int>, free: seq<int>) {
    forall i :: 0 <= i < |free| - 1 ==> !Adjacent(size, free, i)
  }

  function Elements(s: seq<int>): (r: set<int>)
    ensures forall x :: x in r <==> x in s
  {
    set x | x in s
  }

  /** The allocator between calls: the free list is one address-ordered cycle from `base` without
      adjacent blocks, and the free and the live blocks partition the memory obtained from sbrk. */
  ghost predicate Invariant(base: int, ptr: map<int, int>, size: map<int, int>, free: seq<int>,
                            live: set<int>, arena: set<int>, brk: int)
  {
    && Linked(ptr, free) && Sorted(free) && NonAdjacent(size, free)
    && Blocks(base, size, free, live, arena, brk)
  }

  /** Everything the invariant says about sizes. */
  ghost predicate Blocks(base: int, size: map<int, int>, free: seq<int>, live: set<int>, arena: set<int>, brk: int) {
    var blocks := Elements(free) + live;
    && |free| > 0 && free[0] == base && 0 < base < brk
    && Elements(free) !! live
    && Apart(size, blocks) && Covers(size, blocks, arena)
    && size[base] == 0
    && (forall b :: b in blocks && b != base ==> base < b && size[b] > 0)
    && (forall b :: b in blocks ==> b + size[b] <= brk)
  }

  function Inserted(free: seq<int>, k: nat, b: int): (r: seq<int>)
    requires k < |free|
  {
    free[..k + 1] + [b] + free[k + 1..]
  }

  function Removed(free: seq<int>, i: nat): (r: seq<int>)
    requires i < |free|
  {
    free[..i] + free[i + 1..]
  }

  lemma SortedInsert(free: seq<int>, k: nat, b: int)
    requires Sorted(free) && k < |free|
    requires free[k] < b && (k + 1 < |free| ==> b < free[k + 1])
    ensures Sorted(Inserted(free, k, b))
  {
    var r := Inserted(free, k, b);
    assert forall i :: 0 <= i <= k ==> r[i] == free[i];
    assert forall i :: k + 1 < i < |r| ==> r[i] == free[i - 1];
  }

  lemma LinkInsert(ptr: map<int, int>, free: seq<int>, k: nat, b: int)
    requires Linked(ptr, free) && Sorted(free) && k < |free| && b !in free
    ensures Linked(ptr[b := ptr[free[k]]][free[k] := b], Inserted(free, k, b))
  {
    var r := Inserted(free, k, b);
    var ptr' := ptr[b := ptr[free[k]]][free[k] := b];
    assert forall i :: 0 <= i <= k ==> r[i] == free[i];
    assert forall i :: k + 1 < i < |r| ==> r[i] == free[i - 1];
    forall i | 0 <= i < |r| - 1 ensures ptr'[r[i]] == r[i + 1] {
      if i < k { assert free[i] != free[k]; }
      else if i > k + 1 { assert free[i - 1] != free[k]; }
    }
    if k + 1 < |free| { assert free[|free| - 1] != free[k]; }
  }

  lemma LinkRemove(ptr: map<int, int>, free: seq<int>, i: nat)
    requires Linked(ptr, free) && Sorted(free) && 1 <= i < |free|
    ensures Linked(ptr[free[i - 1] := ptr[free[i]]], Removed(free, i))
    ensures Sorted(Removed(free, i))
  {
    var r := Removed(free, i);
    assert forall j :: 0 <= j < i ==> r[j] == free[j];
    assert forall j :: i <= j < |r| ==> r[j] == free[j + 1];
    assert forall j :: 0 <= j < |free| && j != i - 1 ==> free[j] != free[i - 1];
  }

  // ---------------------------------------------------------------- what free does to the list

  /** A live block joins the list behind its predecessor; only its own two seams may be adjacent. */
  lemma InsertFree(base: int, ptr: map<int, int>, size: map<int, int>, free: seq<int>, live: set<int>,
                   arena: set<int>, brk: int, k: nat, b: int)
    requires Invariant(base, ptr, size, free, live, arena, brk) && b in live && k < |free|
    requires free[k] < b && (k + 1 < |free| ==> b < free[k + 1])
    ensures var f := Inserted(free, k, b);
      && Linked(ptr[b := ptr[free[k]]][free[k] := b], f) && Sorted(f)
      && Blocks(base, size, f, live - {b}, arena, brk)
      && forall i :: 0 <= i < |f| - 1 && i != k && i != k + 1 ==> !Adjacent(size, f, i)
  {
    var f := Inserted(free, k, b);
    LinkInsert(ptr, free, k, b);
    SortedInsert(free, k, b);
    assert Elements(f) == Elements(free) + {b};
    assert Elements(f) + (live - {b}) == Elements(free) + live;
    forall i | 0 <= i < |f| - 1 && i != k && i != k + 1 ensures !Adjacent(size, f, i) {
      assert !Adjacent(size, free, if i < k then i else i - 1);
    }
  }

  /** Free block i swallows its adjacent successor. */
  lemma MergeFree(base: int, ptr: map<int, int>, size: map<int, int>, free: seq<int>, live: set<int>,
                  arena: set<int>, brk: int, i: nat)
    requires Linked(ptr, free) && Sorted(free) && Blocks(base, size, free, live, arena, brk)
    requires 1 <= i < |free| - 1 && Adjacent(size, free, i)
    ensures free[i + 1] in size
    ensures var f, size' := Removed(free, i + 1), size[free[i] := size[free[i]] + size[free[i + 1]]];
      && Linked(ptr[free[i] := ptr[free[i + 1]]], f) && Sorted(f)
      && Blocks(base, size', f, live, arena, brk)
      && forall j :: 0 <= j < |f| - 1 ==> Adjacent(size', f, j) == Adjacent(size, free, if j < i then j else j + 1)
  {
    var a, b := free[i], free[i + 1];
    assert a in Elements(free) && b in Elements(free) && free[0] < a < b;
    var f, size' := Removed(free, i + 1), size[a := size[a] + size[b]];
    LinkRemove(ptr, free, i + 1);
    MergeBlocks(base, size, free, live, arena, brk, i);
    MergeSeams(size, free, i);
  }

  lemma MergeBlocks(base: int, size: map<int, int>, free: seq<int>, live: set<int>, arena: set<int>, brk: int, i: nat)
    requires Sorted(free) && Blocks(base, size, free, live, arena, brk)
    requires 1 <= i < |free| - 1 && Adjacent(size, free, i)
    ensures free[i + 1] in size
    ensures Blocks(base, size[free[i] := size[free[i]] + size[free[i + 1]]], Removed(free, i + 1), live, arena, brk)
  {
    var a, b := free[i], free[i + 1];
    assert a in Elements(free) && b in Elements(free) && free[0] < a < b;
    var f, size' := Removed(free, i + 1), size[a := size[a] + size[b]];
    assert forall j :: 0 <= j < |free| && j != i + 1 ==> free[j] != b;
    assert Elements(f) == Elements(free) - {b} by { ElementsRemoved(free, i + 1); }
    Merge(size, size', Elements(free) + live, arena, a, b);
    assert Elements(f) + live == Elements(free) + live - {b};
    assert f[0] == free[0];
  }

  lemma ElementsRemoved(free: seq<int>, i: nat)
    requires Sorted(free) && i < |free|
    ensures Elements(Removed(free, i)) == Elements(free) - {free[i]}
  {
    var r := Removed(free, i);
    forall x ensures x in r <==> x in free && x != free[i] {
      if x in free && x != free[i] {
        var j :| 0 <= j < |free| && free[j] == x;
        assert r[if j < i then j else j - 1] == x;
      }
      if x in r {
        var j :| 0 <= j < |r| && r[j] == x;
        assert x == free[if j < i then j else j + 1];
      }
    }
  }

  lemma MergeSeams(size: map<int, int>, free: seq<int>, i: nat)
    requires Sorted(free) && 1 <= i < |free| - 1 && Adjacent(size, free, i) && free[i + 1] in size
    ensures var f, size' := Removed(free, i + 1), size[free[i] := size[free[i]] + size[free[i + 1]]];
      forall j :: 0 <= j < |f| - 1 ==> Adjacent(size', f, j) == Adjacent(size, free, if j < i then j else j + 1)
  {
    var f, size' := Removed(free, i + 1), size[free[i] := size[free[i]] + size[free[i + 1]]];
    forall j | 0 <= j < |f| - 1
      ensures Adjacent(size', f, j) == Adjacent(size, free, if j < i then j else j + 1)
    {
      assert f[j + 1] == free[if j < i then j + 1 else j + 2];
      if j < i { assert f[j] == free[j] && free[j] != free[i]; }
      else if j > i { assert f[j] == free[j + 1] && free[j + 1] != free[i]; }
    }
  }

  lemma ListFacts(base: int, ptr: map<int, int>, size: map<int, int>, free: seq<int>, live: set<int>,
                  arena: set<int>, brk: int, k: nat)
    requires Invariant(base, ptr, size, free, live, arena, brk) && k < |free|
    ensures free[0] == base && base > 0 && free[k] in ptr && free[k] in size
    ensures ptr[free[k]] == if k + 1 < |free| then free[k + 1] else base
    ensures ptr[free[k]] in ptr && ptr[free[k]] in size && size[ptr[free[k]]] >= 0
    ensures forall b :: b in live ==> b in size && b !in free && base < b && size[b] > 0
    ensures size[free[k]] >= 0 && free[k] >= base && (size[free[k]] > 0 <==> k > 0)
  {
    assert free[k] in Elements(free) && base in Elements(free);
    if k + 1 < |free| { assert free[k + 1] in Elements(free); }
    assert forall b :: b in live ==> b in Elements(free) + live && b !in Elements(free);
  }

  /** A freshly listed block merges with its successor if they touch. */
  lemma JoinNext(base: int, ptr: map<int, int>, size: map<int, int>, free: seq<int>, live: set<int>,
                 arena: set<int>, brk: int, k: nat, b: int)
    returns (ptr': map<int, int>, size': map<int, int>, f: seq<int>)
    requires Invariant(base, ptr, size, free, live, arena, brk) && b in live && k < |free|
    requires free[k] < b && (k + 1 < |free| ==> b < free[k + 1])
    ensures ptr[free[k]] in size && ptr[free[k]] in ptr && free[k] in size && b in size
    ensures var next := ptr[free[k]];
      if b + size[b] == next then
        ptr' == ptr[b := ptr[next]][free[k] := b] && size' == size[b := size[b] + size[next]]
      else ptr' == ptr[b := next][free[k] := b] && size' == size
    ensures Linked(ptr', f) && Sorted(f) && Blocks(base, size', f, live - {b}, arena, brk)
    ensures k + 1 < |f| && f[k] == free[k] && f[k + 1] == b
    ensures forall i :: 0 <= i < |f| - 1 && i != k ==> !Adjacent(size', f, i)
  {
    hide Invariant, Linked, Sorted, Blocks;
    ListFacts(base, ptr, size, free, live, arena, brk, k);
    var p, next := free[k], ptr[free[k]];
    var f1 := Inserted(free, k, b);
    InsertFree(base, ptr, size, free, live, arena, brk, k, b);
    assert f1[k] == p && f1[k + 1] == b && (k + 2 < |f1| ==> f1[k + 2] == next);
    var ptr1 := ptr[b := next][p := b];
    if b + size[b] == next {
      assert next != base;
      MergeFree(base, ptr1, size, f1, live - {b}, arena, brk, k + 1);
      f := Removed(f1, k + 2);
      ptr', size' := ptr[b := ptr[next]][p := b], size[b := size[b] + size[next]];
      assert next != p && ptr1[b := ptr1[next]] == ptr';
    } else {
      f, ptr', size' := f1, ptr1, size;
    }
  }

  /** ... and then with its predecessor if they touch, which restores the invariant. */
  lemma JoinPrev(base: int, ptr: map<int, int>, size: map<int, int>, free: seq<int>, live: set<int>,
                 arena: set<int>, brk: int, k: nat)
    returns (f: seq<int>)
    requires Linked(ptr, free) && Sorted(free) && Blocks(base, size, free, live, arena, brk)
    requires k + 1 < |free| && forall i :: 0 <= i < |free| - 1 && i != k ==> !Adjacent(size, free, i)
    ensures free[k] in f && free[k] in size && free[k + 1] in size
    ensures if Adjacent(size, free, k)
      then Invariant(base, ptr[free[k] := ptr[free[k + 1]]], size[free[k] := size[free[k]] + size[free[k + 1]]],
                     f, live, arena, brk)
      else Invariant(base, ptr, size, f, live, arena, brk)
  {
    assert free[k] in Elements(free) && free[k + 1] in Elements(free);
    if Adjacent(size, free, k) {
      assert k >= 1 by { assert free[0] == base && size[base] == 0; }
      MergeFree(base, ptr, size, free, live, arena, brk, k);
      f := Removed(free, k + 1);
      assert f[k] == free[k];
    } else {
      f := free;
    }
  }

  // ---------------------------------------------------------------- what malloc does to the list

  /** A block of exactly the right size leaves the list. */
  lemma TakeWhole(base: int, ptr: map<int, int>, size: map<int, int>, free: seq<int>, live: set<int>,
                  arena: set<int>, brk: int, i: nat)
    requires Invariant(base, ptr, size, free, live, arena, brk) && 1 <= i < |free|
    ensures Invariant(base, ptr[free[i - 1] := ptr[free[i]]], size, Removed(free, i), live + {free[i]}, arena, brk)
    ensures free[i] !in live
  {
    var r := Removed(free, i);
    assert free[i] in Elements(free) && free[i] != base;
    LinkRemove(ptr, free, i);
    ElementsRemoved(free, i);
    assert Elements(r) + (live + {free[i]}) == Elements(free) + live;
    assert r[0] == free[0];
    forall j | 0 <= j < |r| - 1 ensures !Adjacent(size, r, j) {
      if j < i - 1 {
        assert !Adjacent(size, free, j);
      } else if j >= i {
        assert !Adjacent(size, free, j + 1);
      } else {
        assert free[j] in Elements(free) && free[i + 1] in Elements(free);
        assert r[j] == free[j] && r[j + 1] == free[i + 1];
      }
    }
  }

  /** A larger block keeps its head and hands out its last n units. */
  lemma TakeTail(base: int, ptr: map<int, int>, size: map<int, int>, free: seq<int>, live: set<int>,
                 arena: set<int>, brk: int, i: nat, n: int)
    requires Invariant(base, ptr, size, free, live, arena, brk)
    requires i < |free| && free[i] in size && 0 < n < size[free[i]]
    ensures var p := free[i];
      var q := p + size[p] - n;
      && q !in live && q > base
      && Invariant(base, ptr, size[p := size[p] - n][q := n], free, live + {q}, arena, brk)
  {
    var p := free[i];
    assert p in Elements(free);
    var q := p + size[p] - n;
    var size' := size[p := size[p] - n][q := n];
    Split(size, size', Elements(free) + live, arena, p, q);
    assert Elements(free) + (live + {q}) == Elements(free) + live + {q};
    forall j | 0 <= j < |free| - 1 ensures !Adjacent(size', free, j) {
      assert free[j] in Elements(free) && free[j + 1] in Elements(free) && !Adjacent(size, free, j);
    }
  }

  /** A region fresh from sbrk enters as one live block. */
  lemma TakeRegion(base: int, ptr: map<int, int>, size: map<int, int>, free: seq<int>, live: set<int>,
                   arena: set<int>, brk: int, a: int, n: int)
    requires Invariant(base, ptr, size, free, live, arena, brk) && a >= brk && n > 0
    ensures Invariant(base, ptr, size[a := n], free, live + {a}, arena + Region(a, n), a + n)
    ensures a !in live
  {
    var size' := size[a := n];
    assert a !in Elements(free) + live;
    Grow(size, size', Elements(free) + live, arena, a);
    assert Elements(free) + (live + {a}) == Elements(free) + live + {a};
    forall j | 0 <= j < |free| - 1 ensures !Adjacent(size', free, j) {
      assert free[j] in Elements(free) && !Adjacent(size, free, j);
    }
  }

  // ---------------------------------------------------------------- the allocator

  /** The list position behind i. */
  function Succ(i: nat, n: nat): (j: nat)
    requires i < n
    ensures j < n
  {
    if i + 1 == n then 0 else i + 1
  }

  /** Steps from i round to f, a whole turn if they are the same. */
  function Turn(i: nat, f: nat, n: nat): (d: nat)
    requires i < n && f < n
  {
    if i < f then f - i else n - (i - f)
  }

  /** Position j lies behind f and not behind i, going round. */
  predicate Passed(f: int, i: int, j: int) {
    if f <= i then f < j <= i else f < j || j <= i
  }

  ghost predicate AllSmaller(size: map<int, int>, free: seq<int>, n: int) {
    forall j :: 0 <= j < |free| && free[j] in size ==> size[free[j]] < n
  }

  /** Going round from f back to f passes every block. */
  lemma FullTurn(base: int, ptr: map<int, int>, size: map<int, int>, free: seq<int>, live: set<int>,
                 arena: set<int>, brk: int, f: nat, i: nat, n: int)
    requires Invariant(base, ptr, size, free, live, arena, brk) && f < |free| && i < |free|
    requires free[Succ(i, |free|)] == free[f] && free[f] in size && size[free[f]] < n
    requires forall j :: 0 <= j < |free| && Passed(f, i, j) && free[j] in size ==> size[free[j]] < n
    ensures AllSmaller(size, free, n)
  {
    assert Succ(i, |free|) == f;
  }

  ghost function LastBelow(free: seq<int>, b: int): (k: nat)
    requires |free| > 0 && free[0] < b && Sorted(free)
    ensures k < |free| && free[k] < b && (k + 1 < |free| ==> b <= free[k + 1])
    decreases |free|
  {
    if |free| == 1 || b <= free[1] then 0 else 1 + LastBelow(free[1..], b)
  }

  /** The place of a block in the list. */
  ghost function PlaceOf(base: int, ptr: map<int, int>, size: map<int, int>, free: seq<int>, live: set<int>,
                         arena: set<int>, brk: int, bp: int): (k: nat)
    requires Invariant(base, ptr, size, free, live, arena, brk) && base < bp && bp !in free
    ensures k < |free| && free[k] < bp && (k + 1 < |free| ==> bp < free[k + 1])
  {
    LastBelow(free, bp)
  }

  lemma NextFree(base: int, ptr: map<int, int>, size: map<int, int>, free: seq<int>, live: set<int>, arena: set<int>,
                 brk: int, i: nat)
    requires Invariant(base, ptr, size, free, live, arena, brk) && i < |free|
    ensures free[i] in ptr && ptr[free[i]] == free[Succ(i, |free|)]
  {
    hide Invariant;
    ListFacts(base, ptr, size, free, live, arena, brk, i);
  }

  /** The two tests of free's search loop, between them, succeed at that place and nowhere else. */
  lemma StopsAt(base: int, ptr: map<int, int>, size: map<int, int>, free: seq<int>, live: set<int>, arena: set<int>,
                brk: int, bp: int, last: nat, i: nat)
    requires Invariant(base, ptr, size, free, live, arena, brk) && base < bp && bp !in free && i < |free|
    requires last < |free| && free[last] < bp && (last + 1 < |free| ==> bp < free[last + 1])
    ensures var p, next := free[i], free[Succ(i, |free|)];
      (bp > p && bp < next) || (p >= next && (bp > p || bp < next)) <==> i == last
  {
    hide Linked, Blocks;
    ListFacts(base, ptr, size, free, live, arena, brk, i);
    assert i < last ==> free[i] < free[i + 1] <= free[last] < bp;
    assert last < i ==> bp < free[last + 1] <= free[i];
  }

  class Allocator {
    const base: int
    var ptr: map<int, int>     // s.ptr of the header at an address
    var size: map<int, int>    // s.size of the header at an address
    var freep: int             // 0 before the first call
    ghost var free: seq<int>   // the free list in address order, from base
    ghost var live: set<int>   // blocks handed out and not yet freed
    ghost var arena: set<int>  // every unit obtained from sbrk
    ghost var brk: int         // sbrk never returns less than this

    ghost predicate Valid()
      reads this
    {
      && 0 < base < brk
      && if freep == 0 then free == [] && live == {} && arena == {} else
           freep in free && Invariant(base, ptr, size, free, live, arena, brk)
    }

    constructor (base: int, brk: int)
      requires 0 < base < brk
      ensures Valid() && freep == 0 && this.base == base && this.brk == brk
    {
      this.base, this.brk := base, brk;
      ptr, size, freep := map[], map[], 0;
      free, live, arena := [], {}, {};
    }

    /** The search loop of free: the last list block below bp. */
    method FindPlace(bp: int) returns (p: int, ghost k: nat)
      requires Valid() && freep != 0 && base < bp && bp !in free
      ensures k < |free| && p == free[k]
      ensures free[k] < bp && (k + 1 < |free| ==> bp < free[k + 1])
    {
      hide Invariant, Sorted, Linked, Blocks, PlaceOf, LastBelow;
      ghost var last := PlaceOf(base, ptr, size, free, live, arena, brk, bp);
      ghost var n := |free|;
      ghost var i: nat :| i < n && free[i] == freep;
      p := freep;
      NextFree(base, ptr, size, free, live, arena, brk, i);
      while !(bp > p && bp < ptr[p])
        invariant i < n && p == free[i] && p in ptr && ptr[p] == free[Succ(i, n)]
        decreases if i <= last then last - i else last - i + n
      {
        StopsAt(base, ptr, size, free, live, arena, brk, bp, last, i);
        if p >= ptr[p] && (bp > p || bp < ptr[p]) {
          break;
        }
        NextFree(base, ptr, size, free, live, arena, brk, Succ(i, n));
        p := ptr[p];
        i := Succ(i, n);
      }
      StopsAt(base, ptr, size, free, live, arena, brk, bp, last, i);
      k := i;
    }

    /** free: the block rejoins the list, merged with each free neighbour. */
    method Free(ap: int)
      requires Valid() && freep != 0 && ap - 1 in live
      modifies this`ptr, this`size, this`freep, this`free, this`live
      ensures Valid() && freep != 0 && live == old(live) - {ap - 1}
      ensures forall b :: b in live ==> b in size && size[b] == old(size[b])
      ensures freep in ptr && freep in size && ptr[freep] in size
      ensures size[freep] >= old(size[ap - 1]) || size[ptr[freep]] >= old(size[ap - 1])
    {
      hide Invariant, Linked, Sorted, Blocks;
      var bp := ap - 1;
      ListFacts(base, ptr, size, free, live, arena, brk, 0);
      var p; ghost var k;
      p, k := FindPlace(bp);
      ghost var ptr0, size0 := ptr, size;
      ghost var ptr1, size1, f1 := JoinNext(base, ptr, size, free, live, arena, brk, k, bp);
      ListFacts(base, ptr, size, free, live, arena, brk, k);
      live := live - {bp};
      free := JoinPrev(base, ptr1, size1, f1, live, arena, brk, k);
      LinkUp(bp, p);
      assert size == size1 && ptr[p := bp] == ptr1;
      LinkDown(bp, p);
      assert p + size1[p] == bp ==> ptr == ptr1[p := ptr1[bp]];
      freep := p;
      ghost var j: nat :| j < |free| && free[j] == p;
      ListFacts(base, ptr, size, free, live, arena, brk, j);
    }

    /** free's first branch: join with the block above, or point to it. */
    method LinkUp(bp: int, p: int)
      requires bp in size && p in ptr && ptr[p] in size && ptr[p] in ptr
      modifies this`ptr, this`size
      ensures var next := old(ptr)[p];
        if bp + old(size)[bp] == next then
          size == old(size)[bp := old(size)[bp] + old(size)[next]] && ptr == old(ptr)[bp := old(ptr)[next]]
        else size == old(size) && ptr == old(ptr)[bp := next]
    {
      if bp + size[bp] == ptr[p] {
        size := size[bp := size[bp] + size[ptr[p]]];
        ptr := ptr[bp := ptr[ptr[p]]];
      } else {
        ptr := ptr[bp := ptr[p]];
      }
    }

    /** free's second branch: the block below absorbs this one, or points to it. */
    method LinkDown(bp: int, p: int)
      requires p in size && bp in size && bp in ptr
      modifies this`ptr, this`size
      ensures if p + old(size)[p] == bp then
          size == old(size)[p := old(size)[p] + old(size)[bp]] && ptr == old(ptr)[p := old(ptr)[bp]]
        else size == old(size) && ptr == old(ptr)[p := bp]
    {
      if p + size[p] == bp {
        size := size[p := size[p] + size[bp]];
        ptr := ptr[p := ptr[bp]];
      } else {
        ptr := ptr[p := bp];
      }
    }

    lemma LargeEnough(nunits: int)
      requires Valid() && freep != 0 && freep in ptr && freep in size && ptr[freep] in size
      requires size[freep] >= nunits || size[ptr[freep]] >= nunits
      ensures !AllSmaller(size, free, nunits)
    {
      var j: nat :| j < |free| && free[j] == freep;
      ListFacts(base, ptr, size, free, live, arena, brk, j);
      if size[freep] < nunits {
        assert ptr[freep] == free[Succ(j, |free|)];
      }
    }

    lemma LiveSized()
      requires Valid()
      ensures forall b :: b in live ==> b in size
    {
      if freep != 0 { ListFacts(base, ptr, size, free, live, arena, brk, 0); }
    }

    /** morecore: extend the arena by the region sbrk grants, if any, and free it into the list. */
    method MoreCore(nunits: int, grant: Option<int>) returns (p: int)
      requires Valid() && freep != 0 && nunits >= 1
      requires grant.Some? ==> grant.value >= brk
      modifies this`ptr, this`size, this`freep, this`free, this`live, this`arena, this`brk
      ensures Valid() && freep != 0 && live == old(live)
      ensures forall b :: b in live ==> b in size && size[b] == old(size[b])
      ensures p == if grant.Some? then freep else 0
      ensures grant.None? ==> unchanged(this)
      ensures grant.Some? ==> arena == old(arena) + Region(grant.value, Max(nunits, NALLOC))
      ensures grant.Some? ==> !AllSmaller(size, free, nunits)
    {
      hide Invariant;
      LiveSized();
      var nu := nunits;
      if nu < NALLOC {
        nu := NALLOC;
      }
      if grant.None? {
        return 0;
      }
      var hp := grant.value;
      TakeRegion(base, ptr, size, free, live, arena, brk, hp, nu);
      ListFacts(base, ptr, size, free, live, arena, brk, 0);
      size := size[hp := nu];
      live, arena, brk := live + {hp}, arena + Region(hp, nu), hp + nu;
      Free(hp + 1);
      LargeEnough(nunits);
      return freep;
    }

    /** First call: the list is the empty base block alone. */
    method Start()
      requires Valid() && freep == 0
      modifies this`ptr, this`size, this`freep, this`free
      ensures Valid() && freep == base && free == [base]
    {
      ptr, size, freep := ptr[base := base], size[base := 0], base;
      free := [base];
      assert Elements(free) + live == {base};
    }

    /** malloc's success branch: hand out all of p, or its last nunits units. */
    method Take(prevp: int, p: int, nunits: int, ghost i: nat) returns (r: int)
      requires Valid() && freep != 0 && i < |free| && prevp == free[i] && p == free[Succ(i, |free|)]
      requires p in size && size[p] >= nunits >= 1
      modifies this`ptr, this`size, this`freep, this`free, this`live
      ensures Valid() && freep == prevp && r != 0
      ensures r - 1 in size && size[r - 1] == nunits && r - 1 !in old(live) && live == old(live) + {r - 1}
      ensures forall b :: b in old(live) ==> b in size && size[b] == old(size[b])
    {
      hide Invariant, Blocks, Linked, Sorted;
      var q := p;
      ListFacts(base, ptr, size, free, live, arena, brk, i);
      ListFacts(base, ptr, size, free, live, arena, brk, Succ(i, |free|));
      if size[p] == nunits {
        TakeWhole(base, ptr, size, free, live, arena, brk, i + 1);
        assert Removed(free, i + 1)[i] == prevp;
        free := Removed(free, i + 1);
        ptr := ptr[prevp := ptr[p]];
      } else {
        TakeTail(base, ptr, size, free, live, arena, brk, i + 1, nunits);
        size := size[p := size[p] - nunits];
        q := q + size[p];
        size := size[q := nunits];
      }
      live := live + {q};
      freep := prevp;
      r := q + 1;
    }

    static function Max(a: int, b: int): (m: int) { if a < b then b else a }

    /** One turn of malloc's search loop round the list, from freep: stop at the first block that is
        large enough, or on coming back to freep. */
    method Search(nunits: int) returns (found: bool, prevp: int, p: int, ghost i: nat)
      requires Valid() && freep != 0
      ensures i < |free| && prevp == free[i] && p == free[Succ(i, |free|)] && p in size
      ensures found <==> size[p] >= nunits
      ensures found <==> !AllSmaller(size, free, nunits)
    {
      hide Invariant, Blocks, Linked, Sorted;
      ghost var f: nat :| f < |free| && free[f] == freep;
      ghost var n := |free|;
      i := f;
      ListFacts(base, ptr, size, free, live, arena, brk, i);
      prevp, p := freep, ptr[freep];
      while true
        invariant i < n && prevp == free[i] && p == free[Succ(i, n)]
        invariant forall j :: 0 <= j < n && Passed(f, i, j) && free[j] in size ==> size[free[j]] < nunits
        decreases Turn(i, f, n)
      {
        ListFacts(base, ptr, size, free, live, arena, brk, Succ(i, n));
        if size[p] >= nunits {
          return true, prevp, p, i;
        }
        if p == freep {
          FullTurn(base, ptr, size, free, live, arena, brk, f, i, nunits);
          return false, prevp, p, i;
        }
        i := Succ(i, n);
        prevp := p;
        p := ptr[p];
      }
    }

    /** malloc: 0 only when no free block is large enough and sbrk refuses; otherwise a block of the
        right size, new to the caller, taken from the free list.  Each pass of the loop is one turn
        round the list; the turn after morecore always finds a block, so sbrk is asked at most once. */
    method Malloc(nbytes: nat, grant: Option<int>) returns (r: int, grown: bool)
      requires Valid() && nbytes < 0x1_0000_0000 && 8 * Units(nbytes) < 0x8000_0000
      requires grant.Some? ==> grant.value >= brk
      modifies this`ptr, this`size, this`freep, this`free, this`live, this`arena, this`brk
      ensures Valid() && freep != 0
      ensures r == 0 ==> grant.None? && live == old(live) && arena == old(arena)
      ensures r != 0 ==>
        && r - 1 in size && size[r - 1] == Units(nbytes)
        && r - 1 !in old(live) && live == old(live) + {r - 1}
      ensures forall b :: b in old(live) ==> b in size && size[b] == old(size[b])
      ensures grown || r == 0 <==> AllSmaller(old(size), old(free), Units(nbytes))
      ensures grown ==> grant.Some?
      ensures arena == old(arena) + if grown then Region(grant.value, Max(Units(nbytes), NALLOC)) else {}
    {
      hide Invariant;
      var nunits := Units(nbytes);
      if freep == 0 {
        Start();
        ListFacts(base, ptr, size, free, live, arena, brk, 0);
      } else {
        LiveSized();
      }
      grown := false;
      while true
        invariant Valid() && freep != 0 && live == old(live)
        invariant forall b :: b in live ==> b in size && size[b] == old(size[b])
        invariant grown ==> grant.Some? && AllSmaller(old(size), old(free), nunits)
        invariant grown ==> !AllSmaller(size, free, nunits)
        invariant grown ==> arena == old(arena) + Region(grant.value, Max(nunits, NALLOC))
        invariant !grown ==> arena == old(arena) && brk == old(brk)
        invariant !grown ==> (AllSmaller(size, free, nunits) <==> AllSmaller(old(size), old(free), nunits))
        decreases !grown
      {
        var found, prevp, p; ghost var i;
        found, prevp, p, i := Search(nunits);
        if found {
          r := Take(prevp, p, nunits, i);
          return;
        }
        p := MoreCore(nunits, grant);
        if p == 0 {
          return 0, false;
        }
        grown := true;
      }
    }
  }
}
