/** vm.c over kalloc.c: two-level page tables as a flat map from page numbers to frames.

    A frame is a physical page number.  A page directory and its tables are frames holding 1024
    entries.  The kernel half of a directory (entries 512 and up) is represented by its table pages
    only. */
module PageTable {
  import opened Words
  import opened Wrappers

  const PGSIZE := 4096
  const NENTRIES := 1024
  const KERNBASE := 0x8000_0000
  const NUSER := KERNBASE / PGSIZE       // user pages

  type Frame = nat

  datatype Pte = Absent | Present(frame: Frame, flags: nat)

  /** Contents of the frames used as directories and tables. */
  type Tables = map<Frame, seq<Pte>>

  /** What a frame of the pool is in use for; `Loaned` frames are in the hands of the running code. */
  datatype Place = Free | Dir | Table(dir: Frame, index: nat) | User(dir: Frame, page: nat) | Loaned

  type Owner = map<Frame, Place>

  function EmptyTable(): (t: seq<Pte>)
    ensures |t| == NENTRIES
  {
    seq(NENTRIES, _ => Absent)
  }

  // ---------------------------------------------------------------- the flat view

  predicate IsTable(tabs: Tables, f: Frame) { f in tabs && |tabs[f]| == NENTRIES }

  /** The directory entry for page p. */
  function Pde(tabs: Tables, d: Frame, p: nat): (e: Pte) {
    if IsTable(tabs, d) && p / NENTRIES < NENTRIES then tabs[d][p / NENTRIES] else Absent
  }

  /** The mapping of page p. */
  function Entry(tabs: Tables, d: Frame, p: nat): (e: Pte) {
    var pde := Pde(tabs, d, p);
    if pde.Present? && IsTable(tabs, pde.frame) then tabs[pde.frame][p % NENTRIES] else Absent
  }

  /** How the hardware translates address va: bits 31 to 22 choose the directory entry, bits 21 to 12 the
      entry of the table it leads to. */
  lemma Translates(tabs: Tables, d: Frame, va: nat)
    requires IsTable(tabs, d) && va < 0x1_0000_0000
    ensures va / 0x40_0000 < 1024
    ensures var pde := tabs[d][va / 0x40_0000];
      Entry(tabs, d, va / 4096) ==
        if pde.Present? && IsTable(tabs, pde.frame) then tabs[pde.frame][va / 0x1000 % 0x400] else Absent
  {
    assert va / 4096 / 1024 == va / 0x40_0000;
  }

  // ---------------------------------------------------------------- ownership

  /** Directories and tables are where `owner` says, and each table hangs at one place only. */
  ghost predicate TablesOwned(dirs: set<Frame>, tabs: Tables, owner: Owner) {
    && (forall d :: d in dirs ==> IsTable(tabs, d) && d in owner && owner[d] == Dir)
    && (forall d, i :: d in dirs && 0 <= i < NENTRIES && tabs[d][i].Present? ==>
         IsTable(tabs, tabs[d][i].frame) && tabs[d][i].frame in owner && owner[tabs[d][i].frame] == Table(d, i))
  }

  /** Every mapped user page has a frame of its own. */
  ghost predicate PagesOwned(dirs: set<Frame>, tabs: Tables, owner: Owner) {
    forall d, p: nat :: d in dirs && p < NUSER && Entry(tabs, d, p).Present? ==>
      Entry(tabs, d, p).frame in owner && owner[Entry(tabs, d, p).frame] == User(d, p)
  }

  /** ... and a frame recorded as a table or a page is one. */
  ghost predicate OwnedInUse(dirs: set<Frame>, tabs: Tables, owner: Owner) {
    forall f :: f in owner ==>
      match owner[f]
      case Dir => f in dirs
      case Table(d, i) => d in dirs && i < NENTRIES && IsTable(tabs, d) && tabs[d][i].Present? && tabs[d][i].frame == f
      case User(d, p) => d in dirs && p < NUSER && Entry(tabs, d, p).Present? && Entry(tabs, d, p).frame == f
      case _ => true
  }

  /** The free list holds each free frame once. */
  ghost predicate FreeListed(free: seq<Frame>, owner: Owner) {
    && (forall i :: 0 <= i < |free| ==> free[i] in owner && owner[free[i]] == Free)
    && (forall i, j :: 0 <= i < j < |free| ==> free[i] != free[j])
    && (forall f :: f in owner && owner[f] == Free ==> f in free)
  }

  ghost predicate Invariant(dirs: set<Frame>, free: seq<Frame>, tabs: Tables, owner: Owner) {
    && TablesOwned(dirs, tabs, owner) && PagesOwned(dirs, tabs, owner) && OwnedInUse(dirs, tabs, owner)
    && FreeListed(free, owner)
  }

  // ---------------------------------------------------------------- entries

  /** Page p's entry replaced. */
  function SetEntry(tabs: Tables, d: Frame, p: nat, e: Pte): (r: Tables)
    requires Pde(tabs, d, p).Present? && IsTable(tabs, Pde(tabs, d, p).frame)
  {
    var t := Pde(tabs, d, p).frame;
    tabs[t := tabs[t][p % NENTRIES := e]]
  }

  lemma SetEntryAt(dirs: set<Frame>, tabs: Tables, owner: Owner, d: Frame, p: nat, e: Pte, d': Frame, p': nat)
    requires TablesOwned(dirs, tabs, owner) && d in dirs && d' in dirs && p / NENTRIES < NENTRIES
    requires Pde(tabs, d, p).Present?
    ensures IsTable(tabs, Pde(tabs, d, p).frame)
    ensures Pde(SetEntry(tabs, d, p, e), d', p') == Pde(tabs, d', p')
    ensures Entry(SetEntry(tabs, d, p, e), d', p') == if d' == d && p' == p then e else Entry(tabs, d', p')
  {
    var t := Pde(tabs, d, p).frame;
    assert tabs[d][p / NENTRIES].Present? && owner[t] == Table(d, p / NENTRIES);
    var pde' := Pde(tabs, d', p');
    if pde'.Present? {
      assert tabs[d'][p' / NENTRIES].Present? && owner[pde'.frame] == Table(d', p' / NENTRIES);
    }
    assert p == p / NENTRIES * NENTRIES + p % NENTRIES && p' == p' / NENTRIES * NENTRIES + p' % NENTRIES;
  }

  /** Replacing one user entry keeps all tables in place. */
  lemma SetEntryTables(dirs: set<Frame>, tabs: Tables, owner: Owner, d: Frame, p: nat, e: Pte)
    requires TablesOwned(dirs, tabs, owner) && d in dirs && p / NENTRIES < NENTRIES && Pde(tabs, d, p).Present?
    ensures IsTable(tabs, Pde(tabs, d, p).frame)
    ensures TablesOwned(dirs, SetEntry(tabs, d, p, e), owner)
    ensures forall d' :: d' in dirs ==> d' in SetEntry(tabs, d, p, e) && SetEntry(tabs, d, p, e)[d'] == tabs[d']
  {
    var t := Pde(tabs, d, p).frame;
    assert tabs[d][p / NENTRIES].Present? && owner[t] == Table(d, p / NENTRIES);
  }

  /** A frame that is not free stays off the free list. */
  lemma FreeElsewhere(free: seq<Frame>, owner: Owner, f: Frame, place: Place)
    requires FreeListed(free, owner) && f in owner && owner[f] != Free && place != Free
    ensures FreeListed(free, owner[f := place])
  {
  }

  /** Mapping a loaned frame at an empty user page. */
  lemma MapUser(dirs: set<Frame>, free: seq<Frame>, tabs: Tables, owner: Owner, d: Frame, p: nat, f: Frame, flags: nat)
    requires Invariant(dirs, free, tabs, owner) && d in dirs && p < NUSER
    requires Pde(tabs, d, p).Present? && Entry(tabs, d, p) == Absent && f in owner && owner[f] == Loaned
    ensures IsTable(tabs, Pde(tabs, d, p).frame)
    ensures Invariant(dirs, free, SetEntry(tabs, d, p, Present(f, flags)), owner[f := User(d, p)])
  {
    hide Entry, SetEntry, FreeListed, Pde;
    var e, owner' := Present(f, flags), owner[f := User(d, p)];
    SetEntryTables(dirs, tabs, owner, d, p, e);
    FreeElsewhere(free, owner, f, User(d, p));
    forall d', p': nat | d' in dirs && p' < NUSER
      ensures Entry(SetEntry(tabs, d, p, e), d', p') == if d' == d && p' == p then e else Entry(tabs, d', p')
    {
      SetEntryAt(dirs, tabs, owner, d, p, e, d', p');
    }
  }

  /** Unmapping a user page hands its frame back to the caller. */
  lemma UnmapUser(dirs: set<Frame>, free: seq<Frame>, tabs: Tables, owner: Owner, d: Frame, p: nat)
    requires Invariant(dirs, free, tabs, owner) && d in dirs && p < NUSER && Entry(tabs, d, p).Present?
    ensures Pde(tabs, d, p).Present? && IsTable(tabs, Pde(tabs, d, p).frame)
    ensures Entry(tabs, d, p).frame in owner && owner[Entry(tabs, d, p).frame] == User(d, p)
    ensures Invariant(dirs, free, SetEntry(tabs, d, p, Absent), owner[Entry(tabs, d, p).frame := Loaned])
  {
    assert Pde(tabs, d, p).Present?;
    hide Entry, SetEntry, FreeListed, Pde;
    var f := Entry(tabs, d, p).frame;
    SetEntryTables(dirs, tabs, owner, d, p, Absent);
    FreeElsewhere(free, owner, f, Loaned);
    forall d', p': nat | d' in dirs && p' < NUSER
      ensures Entry(SetEntry(tabs, d, p, Absent), d', p') == if d' == d && p' == p then Absent else Entry(tabs, d', p')
    {
      SetEntryAt(dirs, tabs, owner, d, p, Absent, d', p');
    }
  }

  /** Hanging an empty table at a free directory entry changes no mapping. */
  function AddTable(tabs: Tables, d: Frame, i: nat, f: Frame): (r: Tables)
    requires IsTable(tabs, d) && i < NENTRIES
  {
    tabs[f := EmptyTable()][d := tabs[d][i := Present(f, 7)]]
  }

  lemma AddTableAt(dirs: set<Frame>, tabs: Tables, owner: Owner, d: Frame, i: nat, f: Frame, d': Frame, p': nat)
    requires TablesOwned(dirs, tabs, owner) && d in dirs && d' in dirs && i < NENTRIES
    requires tabs[d][i] == Absent && f in owner && owner[f] == Loaned
    ensures Entry(AddTable(tabs, d, i, f), d', p') == Entry(tabs, d', p')
  {
    var pde' := Pde(tabs, d', p');
    if pde'.Present? {
      assert tabs[d'][p' / NENTRIES].Present? && owner[pde'.frame] == Table(d', p' / NENTRIES);
    }
  }

  lemma AddTableKeeps(dirs: set<Frame>, free: seq<Frame>, tabs: Tables, owner: Owner, d: Frame, i: nat, f: Frame)
    requires Invariant(dirs, free, tabs, owner) && d in dirs && i < NENTRIES
    requires tabs[d][i] == Absent && f in owner && owner[f] == Loaned
    ensures Invariant(dirs, free, AddTable(tabs, d, i, f), owner[f := Table(d, i)])
    ensures forall d', p': nat :: d' in dirs && p' < NUSER ==>
      Entry(AddTable(tabs, d, i, f), d', p') == Entry(tabs, d', p')
  {
    hide Entry, FreeListed, Pde;
    FreeElsewhere(free, owner, f, Table(d, i));
    forall d', p': nat | d' in dirs && p' < NUSER
      ensures Entry(AddTable(tabs, d, i, f), d', p') == Entry(tabs, d', p')
    {
      AddTableAt(dirs, tabs, owner, d, i, f, d', p');
    }
  }

  // ---------------------------------------------------------------- the frame pool

  lemma Pop(dirs: set<Frame>, free: seq<Frame>, tabs: Tables, owner: Owner)
    requires Invariant(dirs, free, tabs, owner) && free != []
    ensures free[0] in owner && owner[free[0]] == Free
    ensures Invariant(dirs, free[1..], tabs, owner[free[0] := Loaned])
  {
    hide Entry, Pde;
    assert forall i :: 0 <= i < |free| - 1 ==> free[1..][i] == free[i + 1];
    forall f | f in owner[free[0] := Loaned] && owner[free[0] := Loaned][f] == Free ensures f in free[1..] {
      assert f in free && f != free[0];
    }
  }

  lemma Push(dirs: set<Frame>, free: seq<Frame>, tabs: Tables, owner: Owner, f: Frame)
    requires Invariant(dirs, free, tabs, owner) && f in owner && owner[f] == Loaned
    ensures Invariant(dirs, [f] + free, tabs, owner[f := Free])
  {
    hide Entry, Pde;
  }

  // ---------------------------------------------------------------- deallocation, page by page

  /** Visit every page from p below q: unmap it if it is mapped and push its frame on the free list. */
  function Visit(tabs: Tables, free: seq<Frame>, d: Frame, p: nat, q: nat): (r: (Tables, seq<Frame>))
    decreases q - p
  {
    if p >= q then (tabs, free)
    else if Entry(tabs, d, p).Present? then
      Visit(SetEntry(tabs, d, p, Absent), [Entry(tabs, d, p).frame] + free, d, p + 1, q)
    else Visit(tabs, free, d, p + 1, q)
  }

  /** Pages under a missing directory entry are not mapped, so skipping to the next entry is the same
      as visiting them. */
  lemma {:induction false} SkipTable(tabs: Tables, free: seq<Frame>, d: Frame, p: nat, n: nat, q: nat)
    requires p <= n <= (p / NENTRIES + 1) * NENTRIES && Pde(tabs, d, p) == Absent
    ensures Visit(tabs, free, d, p, q) == Visit(tabs, free, d, n, q)
    decreases n - p
  {
    hide SetEntry;
    if p < n && p < q {
      assert Entry(tabs, d, p) == Absent;
      if p + 1 < n {
        assert (p + 1) / NENTRIES == p / NENTRIES;
        SkipTable(tabs, free, d, p + 1, n, q);
      }
    }
  }

  /** The owner table after the same visits. */
  ghost function VisitOwner(tabs: Tables, owner: Owner, d: Frame, p: nat, q: nat): (r: Owner)
    decreases q - p
  {
    if p >= q then owner
    else if Entry(tabs, d, p).Present? then
      VisitOwner(SetEntry(tabs, d, p, Absent), owner[Entry(tabs, d, p).frame := Free], d, p + 1, q)
    else VisitOwner(tabs, owner, d, p + 1, q)
  }

  lemma FreeUser(dirs: set<Frame>, free: seq<Frame>, tabs: Tables, owner: Owner, d: Frame, p: nat)
    requires Invariant(dirs, free, tabs, owner) && d in dirs && p < NUSER && Entry(tabs, d, p).Present?
    ensures Entry(tabs, d, p).frame in owner && owner[Entry(tabs, d, p).frame] == User(d, p)
    ensures Pde(tabs, d, p).Present? && IsTable(tabs, Pde(tabs, d, p).frame)
    ensures var f := Entry(tabs, d, p).frame;
      Invariant(dirs, [f] + free, SetEntry(tabs, d, p, Absent), owner[f := Free])
  {
    hide Entry, SetEntry, Invariant, Pde;
    var f := Entry(tabs, d, p).frame;
    UnmapUser(dirs, free, tabs, owner, d, p);
    Push(dirs, free, SetEntry(tabs, d, p, Absent), owner[f := Loaned], f);
    assert owner[f := Loaned][f := Free] == owner[f := Free];
  }

  /** What deallocation does to the flat map: the visited pages are gone, all others are as before. */
  lemma {:induction false} VisitKeeps(dirs: set<Frame>, free: seq<Frame>, tabs: Tables, owner: Owner, d: Frame,
                                      p: nat, q: nat)
    requires Invariant(dirs, free, tabs, owner) && d in dirs && q <= NUSER
    ensures var r := Visit(tabs, free, d, p, q);
      && Invariant(dirs, r.1, r.0, VisitOwner(tabs, owner, d, p, q))
      && forall d', p': nat :: d' in dirs && p' < NUSER ==>
           Entry(r.0, d', p') == if d' == d && p <= p' < q then Absent else Entry(tabs, d', p')
    decreases q - p
  {
    hide Entry, SetEntry, Invariant, Pde;
    if p < q {
      if Entry(tabs, d, p).Present? {
        FreeUser(dirs, free, tabs, owner, d, p);
        var f, tabs' := Entry(tabs, d, p).frame, SetEntry(tabs, d, p, Absent);
        VisitKeeps(dirs, [f] + free, tabs', owner[f := Free], d, p + 1, q);
        forall d', p': nat | d' in dirs && p' < NUSER
          ensures Entry(tabs', d', p') == if d' == d && p' == p then Absent else Entry(tabs, d', p')
        {
          InvariantTables(dirs, free, tabs, owner);
          SetEntryAt(dirs, tabs, owner, d, p, Absent, d', p');
        }
      } else {
        VisitKeeps(dirs, free, tabs, owner, d, p + 1, q);
      }
    }
  }

  /** Exactly the frames of the visited pages have become free. */
  lemma {:induction false} VisitOwnerAt(dirs: set<Frame>, free: seq<Frame>, tabs: Tables, owner: Owner, d: Frame,
                                        p: nat, q: nat, f: Frame)
    requires Invariant(dirs, free, tabs, owner) && d in dirs && q <= NUSER && f in owner
    ensures f in VisitOwner(tabs, owner, d, p, q) && VisitOwner(tabs, owner, d, p, q)[f] ==
      if owner[f].User? && owner[f].dir == d && p <= owner[f].page < q then Free else owner[f]
    decreases q - p
  {
    hide Entry, SetEntry, Invariant, Pde;
    if p < q {
      if Entry(tabs, d, p).Present? {
        FreeUser(dirs, free, tabs, owner, d, p);
        var g, tabs' := Entry(tabs, d, p).frame, SetEntry(tabs, d, p, Absent);
        VisitOwnerAt(dirs, [g] + free, tabs', owner[g := Free], d, p + 1, q, f);
        if owner[f] == User(d, p) { FrameOf(dirs, free, tabs, owner, f); }
      } else {
        VisitOwnerAt(dirs, free, tabs, owner, d, p + 1, q, f);
        if owner[f] == User(d, p) { FrameOf(dirs, free, tabs, owner, f); }
      }
    }
  }

  lemma {:induction false} VisitOwnerKeys(dirs: set<Frame>, free: seq<Frame>, tabs: Tables, owner: Owner, d: Frame,
                                          p: nat, q: nat)
    requires Invariant(dirs, free, tabs, owner) && d in dirs && q <= NUSER
    ensures VisitOwner(tabs, owner, d, p, q).Keys == owner.Keys
    decreases q - p
  {
    hide Entry, SetEntry, Invariant, Pde;
    if p < q {
      if Entry(tabs, d, p).Present? {
        FreeUser(dirs, free, tabs, owner, d, p);
        var g, tabs' := Entry(tabs, d, p).frame, SetEntry(tabs, d, p, Absent);
        VisitOwnerKeys(dirs, [g] + free, tabs', owner[g := Free], d, p + 1, q);
        assert owner[g := Free].Keys == owner.Keys;
      } else {
        VisitOwnerKeys(dirs, free, tabs, owner, d, p + 1, q);
      }
    }
  }

  lemma FrameOf(dirs: set<Frame>, free: seq<Frame>, tabs: Tables, owner: Owner, f: Frame)
    requires Invariant(dirs, free, tabs, owner) && f in owner && owner[f].User?
    ensures owner[f].dir in dirs && owner[f].page < NUSER
    ensures Entry(tabs, owner[f].dir, owner[f].page).Present? && Entry(tabs, owner[f].dir, owner[f].page).frame == f
  {
  }

  lemma InvariantTables(dirs: set<Frame>, free: seq<Frame>, tabs: Tables, owner: Owner)
    requires Invariant(dirs, free, tabs, owner)
    ensures TablesOwned(dirs, tabs, owner)
  {
  }

  /** Shrinking an address space: no other one changes, and this one has the new size. */
  lemma VisitView(dirs: set<Frame>, free: seq<Frame>, tabs: Tables, owner: Owner, d: Frame, oldsz: nat, newsz: nat)
    requires Invariant(dirs, free, tabs, owner) && d in dirs && newsz < oldsz <= KERNBASE
    ensures var r := Visit(tabs, free, d, PageUp(newsz), PageUp(oldsz)).0;
      && SameView(dirs, tabs, r, d, PageUp(newsz), PageUp(oldsz))
      && (SpaceOf(tabs, d, oldsz) ==> SpaceOf(r, d, newsz))
  {
    hide Entry, Invariant, Visit;
    VisitKeeps(dirs, free, tabs, owner, d, PageUp(newsz), PageUp(oldsz));
    forall p: nat | p < NUSER ensures p < PageUp(newsz) <==> p * PGSIZE < newsz { }
    forall p: nat | p < NUSER ensures p < PageUp(oldsz) <==> p * PGSIZE < oldsz { }
  }

  /** Page number of an address rounded up to a page boundary. */
  function PageUp(sz: nat): (p: nat)
    ensures p * PGSIZE >= sz && (p == 0 || (p - 1) * PGSIZE < sz)
  {
    (sz + PGSIZE - 1) / PGSIZE
  }

  /** User page i is mapped exactly when i * PGSIZE < sz. */
  ghost predicate SpaceOf(tabs: Tables, d: Frame, sz: nat) {
    forall p: nat :: p < NUSER ==> (Entry(tabs, d, p).Present? <==> p * PGSIZE < sz)
  }

  /** The contents of every mapped frame are as before. */
  ghost predicate SamePages(owner: Owner, pages: map<Frame, seq<byte>>, pages': map<Frame, seq<byte>>) {
    forall f :: f in owner && owner[f].User? ==> (f in pages' <==> f in pages) && (f in pages ==> pages'[f] == pages[f])
  }

  /** The flat maps of all directories agree, except for one directory's pages from lo below hi. */
  ghost predicate SameView(dirs: set<Frame>, tabs: Tables, tabs': Tables, d: Frame, lo: nat, hi: nat) {
    forall d', p: nat :: d' in dirs && p < NUSER && !(d' == d && lo <= p < hi) ==>
      Entry(tabs', d', p) == Entry(tabs, d', p)
  }

  /** A table that is there stays there. */
  ghost predicate KeepsTables(dirs: set<Frame>, tabs: Tables, tabs': Tables) {
    forall d, p: nat :: d in dirs && Pde(tabs, d, p).Present? ==> Pde(tabs', d, p).Present?
  }

  /** Frames in use stay in the same use; only free frames may have been taken, and none is left on loan. */
  ghost predicate OnlyTakes(owner: Owner, owner': Owner) {
    && owner.Keys == owner'.Keys
    && forall f :: f in owner ==> if owner[f] != Free then owner'[f] == owner[f] else owner'[f] != Loaned
  }

  /** Only free frames have been taken, each for address space d. */
  ghost predicate TakesFor(owner: Owner, owner': Owner, d: Frame) {
    && owner'.Keys == owner.Keys
    && forall f :: f in owner ==> owner'[f] == owner[f] || (owner[f] == Free && Belongs(owner', f, d))
  }

  /** One free frame has been taken and forgotten. */
  ghost predicate Drops(owner: Owner, owner': Owner, f: Frame) {
    f in owner && owner[f] == Free && owner' == owner[f := Loaned]
  }

  function Junk(): (s: seq<byte>)
    ensures |s| == PGSIZE
  {
    seq(PGSIZE, _ => 1)
  }

  class Vm {
    var free: seq<Frame>                 // kmem.freelist, first to last
    var tabs: Tables
    var pages: map<Frame, seq<byte>>     // contents of data frames
    ghost var owner: Owner
    ghost var dirs: set<Frame>           // the page directories in use

    ghost predicate Valid()
      reads this
    {
      Invariant(dirs, free, tabs, owner)
    }

    /** freerange at boot: the frames from lo below hi are free, the last one first, and there is no page
        directory yet. */
    constructor (lo: Frame, hi: Frame)
      requires lo <= hi
      ensures Valid() && dirs == {} && forall f :: f in owner <==> lo <= f < hi
      ensures forall f :: f in owner ==> owner[f] == Free
      ensures |free| == hi - lo && forall i :: 0 <= i < |free| ==> free[i] == hi - 1 - i
    {
      free, tabs, pages, dirs, owner := [], map[], map[], {}, map[];
      new;
      var p := lo;
      while p < hi
        invariant lo <= p <= hi && dirs == {} && tabs == map[] && forall f :: f in owner <==> lo <= f < p
        invariant forall f :: f in owner ==> owner[f] == Free
        invariant |free| == p - lo && forall i :: 0 <= i < |free| ==> free[i] == p - 1 - i
      {
        Kfree(p);
        owner := owner[p := Free];
        p := p + 1;
      }
      forall f | f in owner ensures f in free { assert free[hi - 1 - f] == f; }
    }

    /** kalloc: the first frame of the free list. */
    method Kalloc() returns (r: Option<Frame>)
      modifies this`free
      ensures old(free) == [] ==> r.None? && free == []
      ensures old(free) != [] ==> r == Some(old(free)[0]) && free == old(free)[1..]
    {
      if free == [] {
        return None;
      }
      r := Some(free[0]);
      free := free[1..];
    }

    /** kfree: junk fill, then onto the front of the list. */
    method Kfree(f: Frame)
      modifies this`free, this`pages
      ensures free == [f] + old(free) && pages == old(pages)[f := Junk()]
    {
      pages := pages[f := Junk()];
      free := [f] + free;
    }

    /** deallocuvm, with its jump over missing tables: the same tables and the same free list as
        visiting every page. */
    method DeallocUvm(d: Frame, oldsz: nat, newsz: nat) returns (r: nat)
      requires Valid() && d in dirs && oldsz <= KERNBASE
      modifies this`free, this`tabs, this`pages, this`owner
      ensures Valid()
      ensures newsz >= oldsz ==>
        r == oldsz && tabs == old(tabs) && free == old(free) && owner == old(owner) && pages == old(pages)
      ensures newsz < oldsz ==>
        && r == newsz && (tabs, free) == Visit(old(tabs), old(free), d, PageUp(newsz), PageUp(oldsz))
        && owner == VisitOwner(old(tabs), old(owner), d, PageUp(newsz), PageUp(oldsz))
      ensures SamePages(owner, old(pages), pages)
      ensures newsz < oldsz ==> SameView(dirs, old(tabs), tabs, d, PageUp(newsz), PageUp(oldsz))
      ensures newsz < oldsz && old(SpaceOf(tabs, d, oldsz)) ==> SpaceOf(tabs, d, newsz)
    {
      hide Entry, SetEntry, Invariant, Pde, PageUp, SpaceOf, SameView, Visit, VisitOwner, TableAfter;
      if newsz >= oldsz {
        return oldsz;
      }
      VisitView(dirs, free, tabs, owner, d, oldsz, newsz);
      ghost var q := PageUp(oldsz);
      var a := PageUp(newsz) * PGSIZE;
      while a < oldsz
        invariant a % PGSIZE == 0
        invariant Valid()
        invariant Visit(tabs, free, d, a / PGSIZE, q) == Visit(old(tabs), old(free), d, PageUp(newsz), q)
        invariant SamePages(owner, old(pages), pages)
        invariant VisitOwner(tabs, owner, d, a / PGSIZE, q) == VisitOwner(old(tabs), old(owner), d, PageUp(newsz), q)
        decreases oldsz - a
      {
        var p := a / PGSIZE;
        assert p < q && p < NUSER;
        if Pde(tabs, d, p) == Absent {
          Jump(a);
          SkipTable(tabs, free, d, p, TableAfter(a) / PGSIZE, q);
          SkipOwner(tabs, owner, d, p, TableAfter(a) / PGSIZE, q);
          a := TableAfter(a) - PGSIZE;
        } else {
          DeallocPage(d, p, q);
        }
        a := a + PGSIZE;
      }
      VisitEnd(tabs, free, owner, d, a / PGSIZE, q);
      return newsz;
    }

    /** One page of deallocuvm's loop. */
    method DeallocPage(d: Frame, p: nat, ghost q: nat)
      requires Valid() && d in dirs && p < NUSER && p < q
      modifies this`free, this`tabs, this`pages, this`owner
      ensures Valid() && Visit(tabs, free, d, p + 1, q) == old(Visit(tabs, free, d, p, q))
      ensures VisitOwner(tabs, owner, d, p + 1, q) == old(VisitOwner(tabs, owner, d, p, q))
      ensures forall f :: f in owner && owner[f].User? ==> f in old(owner) && old(owner)[f] == owner[f]
      ensures SamePages(owner, old(pages), pages)
    {
      hide Entry, SetEntry, Invariant, Pde;
      if Entry(tabs, d, p).Present? {
        FreeUser(dirs, free, tabs, owner, d, p);
        var f := Entry(tabs, d, p).frame;
        Kfree(f);
        tabs := SetEntry(tabs, d, p, Absent);
        owner := owner[f := Free];
      }
    }

    /** walkpgdir: is there a table for page p, hanging an empty one if asked to and able to? */
    method WalkPgdir(d: Frame, p: nat, alloc: bool) returns (ok: bool)
      requires Valid() && d in dirs && p < NENTRIES * NENTRIES
      modifies this`free, this`tabs, this`owner
      ensures Valid() && OnlyTakes(old(owner), owner) && SameView(dirs, old(tabs), tabs, d, 0, 0)
      ensures ok <==> old(Pde(tabs, d, p)).Present? || (alloc && old(free) != [])
      ensures ok ==> Pde(tabs, d, p).Present?
      ensures !ok ==> tabs == old(tabs) && free == old(free) && owner == old(owner)
      ensures |free| >= old(|free|) - 1
      ensures KeepsTables(dirs, old(tabs), tabs) && TakesFor(old(owner), owner, d)
    {
      hide Entry, Invariant, AddTable;
      var i := p / NENTRIES;
      InvariantTables(dirs, free, tabs, owner);
      if tabs[d][i].Present? {
        return true;
      }
      if !alloc {
        return false;
      }
      ghost var free0, owner0 := free, owner;
      var r := Kalloc();
      if r.None? {
        return false;
      }
      Pop(dirs, free0, tabs, owner0);
      AddTableKeeps(dirs, free, tabs, owner0[r.value := Loaned], d, i, r.value);
      AddTablePde(tabs, d, i, r.value, p);
      AddTableStays(dirs, tabs, owner0, d, i, r.value);
      tabs := AddTable(tabs, d, i, r.value);
      owner := owner0[r.value := Loaned][r.value := Table(d, i)];
      return true;
    }

    /** mappages for one page: -1 when no table can be had.  The "remap" panic is out of reach. */
    method MapPage(d: Frame, p: nat, f: Frame, flags: nat) returns (ok: bool)
      requires Valid() && d in dirs && p < NUSER && f in owner && owner[f] == Loaned && Entry(tabs, d, p) == Absent
      modifies this`free, this`tabs, this`owner
      ensures Valid() && SameView(dirs, old(tabs), tabs, d, p, p + 1)
      ensures ok ==>
        Entry(tabs, d, p) == Present(f, flags) && f in owner && OnlyTakes(old(owner)[f := User(d, p)], owner)
      ensures ok <==> old(Pde(tabs, d, p)).Present? || old(free) != []
      ensures |free| >= old(|free|) - 1
      ensures ok ==> TakesFor(old(owner)[f := User(d, p)], owner, d)
      ensures !ok ==> Entry(tabs, d, p) == Absent && owner == old(owner)
    {
      hide Entry, Invariant, SetEntry, Pde;
      ok := WalkPgdir(d, p, true);
      assert Entry(tabs, d, p) == Absent;
      if ok {
        MapUser(dirs, free, tabs, owner, d, p, f, flags);
        InvariantTables(dirs, free, tabs, owner);
        SetEntryView(dirs, tabs, owner, d, p, Present(f, flags));
        tabs := SetEntry(tabs, d, p, Present(f, flags));
        owner := owner[f := User(d, p)];
      }
    }

    /** One page of allocuvm's loop.  Without a frame nothing happens; without a table for it the frame
        is left on loan. */
    method AllocPage(d: Frame, p: nat, ghost lo: nat) returns (ok: bool, mem: Option<Frame>)
      requires Valid() && d in dirs && lo <= p < NUSER
      requires Entry(tabs, d, p) == Absent && ZeroPages(tabs, pages, d, lo, p)
      modifies this`free, this`tabs, this`pages, this`owner
      ensures Valid() && SameView(dirs, old(tabs), tabs, d, p, p + 1) && SamePages(old(owner), old(pages), pages)
      ensures ok ==> ZeroPages(tabs, pages, d, lo, p + 1) && OnlyTakes(old(owner), owner)
      ensures old(|free|) >= 2 ==> ok && |free| >= old(|free|) - 2
      ensures !ok ==> Entry(tabs, d, p) == Absent
      ensures !ok && mem.None? ==> owner == old(owner)
      ensures !ok && mem.Some? ==>
        mem.value in old(owner) && old(owner)[mem.value] == Free && OnlyTakes(old(owner)[mem.value := Loaned], owner)
    {
      hide Entry, Invariant, Zeros;
      ghost var free0, owner0 := free, owner;
      mem := Kalloc();
      if mem.None? {
        return false, mem;
      }
      Pop(dirs, free0, tabs, owner0);
      owner := owner[mem.value := Loaned];
      ZeroElsewhere(dirs, free, tabs, owner, pages, d, lo, p, mem.value, Zeros(PGSIZE));
      pages := pages[mem.value := Zeros(PGSIZE)];
      ghost var tabs1 := tabs;
      ok := MapPage(d, p, mem.value, 7);
      StillZero(dirs, tabs1, tabs, pages, d, lo, p);
    }

    /** allocuvm's failure path: unmap what was added, then give back a frame still in hand. */
    method Undo(d: Frame, oldsz: nat, newsz: nat, mem: Option<Frame>, ghost tabs0: Tables, ghost owner0: Owner)
      requires Valid() && d in dirs && oldsz < newsz < KERNBASE && SpaceOf(tabs0, d, oldsz)
      requires SameView(dirs, tabs0, tabs, d, PageUp(oldsz), PageUp(newsz))
      requires owner0.Keys == owner.Keys
      requires mem.None? ==> OnlyTakes(owner0, owner)
      requires mem.Some? ==>
        mem.value in owner0 && owner0[mem.value] == Free && OnlyTakes(owner0[mem.value := Loaned], owner)
      requires forall f :: f in owner0 && owner0[f].User? ==> !(owner0[f].dir == d && owner0[f].page >= PageUp(oldsz))
      modifies this`free, this`tabs, this`pages, this`owner
      ensures Valid() && SamePages(owner0, old(pages), pages)
      ensures OnlyTakes(owner0, owner) && SameView(dirs, tabs0, tabs, d, 0, 0)
    {
      hide Entry, Invariant, Visit, VisitOwner, PageUp, OnlyTakes, SameView, SamePages, SpaceOf;
      UndoView(dirs, free, tabs0, tabs, owner, d, oldsz, newsz);
      UndoOwner(dirs, free, tabs, owner0, owner, d, oldsz, newsz, mem);
      ghost var pages1 := pages;
      var sz := DeallocUvm(d, newsz, oldsz);
      UndoPages(owner0, owner, pages1, pages, mem);
      if mem.Some? {
        Push(dirs, free, tabs, owner, mem.value);
        Kfree(mem.value);
        owner := owner[mem.value := Free];
      }
    }

    /** allocuvm: grow from oldsz to newsz with zeroed pages, or fail and leave every mapping as it was. */
    method AllocUvm(d: Frame, oldsz: nat, newsz: nat) returns (r: nat, ghost ok: bool)
      requires Valid() && d in dirs && oldsz <= KERNBASE && SpaceOf(tabs, d, oldsz)
      modifies this`free, this`tabs, this`pages, this`owner
      ensures Valid() && SamePages(old(owner), old(pages), pages) && OnlyTakes(old(owner), owner)
      ensures newsz >= KERNBASE ==> r == 0 && !ok
      ensures newsz < KERNBASE && newsz < oldsz ==> r == oldsz && !ok
      ensures oldsz <= newsz < KERNBASE && !ok ==> r == 0 && |old(free)| < 2 * (PageUp(newsz) - PageUp(oldsz))
      ensures ok ==>
        && r == newsz >= oldsz && SpaceOf(tabs, d, newsz)
        && SameView(dirs, old(tabs), tabs, d, PageUp(oldsz), PageUp(newsz))
        && ZeroPages(tabs, pages, d, PageUp(oldsz), PageUp(newsz))
      ensures !ok ==> SameView(dirs, old(tabs), tabs, d, 0, 0)
    {
      hide Entry, Invariant, PageUp, Growing, SpaceOf, SameView, ZeroPages, SamePages, OnlyTakes;
      NoChange(dirs, tabs, owner, pages, d, PageUp(oldsz));
      if newsz >= KERNBASE {
        return 0, false;
      }
      if newsz < oldsz {
        return oldsz, false;
      }
      var lo := PageUp(oldsz);
      UsersBelow(dirs, free, tabs, owner, d, oldsz);
      var a := lo * PGSIZE;
      while a < newsz
        invariant a % PGSIZE == 0 && lo <= a / PGSIZE && (a == lo * PGSIZE || a < newsz + PGSIZE)
        invariant Valid() && Growing(dirs, old(tabs), tabs, old(owner), owner, old(pages), pages, d, lo, a / PGSIZE)
        invariant |old(free)| >= 2 * (PageUp(newsz) - lo) ==> |free| >= |old(free)| - 2 * (a / PGSIZE - lo)
      {
        var p := a / PGSIZE;
        ghost var owner1, tabs1, pages1 := owner, tabs, pages;
        NextAbsent(dirs, old(tabs), tabs, old(owner), owner, old(pages), pages, d, lo, p, oldsz);
        var ok1, mem := AllocPage(d, p, lo);
        if !ok1 {
          FailedGrowth(dirs, old(tabs), tabs1, tabs, old(owner), owner1, owner, old(pages), pages1, pages, d, lo, p,
                       mem, newsz);
          ghost var pages2 := pages;
          Undo(d, oldsz, newsz, mem, old(tabs), old(owner));
          SameTwice(old(owner), old(pages), pages2, pages);
          return 0, false;
        }
        MoreGrowth(dirs, old(tabs), tabs1, tabs, old(owner), owner1, owner, old(pages), pages1, pages, d, lo, p);
        a := a + PGSIZE;
      }
      EndGrowth(dirs, old(tabs), tabs, old(owner), owner, old(pages), pages, d, oldsz, newsz, a);
      return newsz, true;
    }

    /** freevm: every frame of the address space, each table page and the directory itself go back to the
        free list, each exactly once, and nothing else does. */
    method FreeVm(d: Frame)
      requires Valid() && d in dirs
      modifies this`free, this`tabs, this`pages, this`owner, this`dirs
      ensures Valid() && dirs == old(dirs) - {d} && SameView(dirs, old(tabs), tabs, d, 0, 0)
      ensures owner == Released(old(owner), d)
      ensures SamePages(owner, old(pages), pages)
    {
      hide Entry, Invariant, Visit, VisitOwner, LoanOut, FreedTables, Released, OwnsTables;
      VisitKeeps(dirs, free, tabs, owner, d, 0, NUSER);
      VisitAll(dirs, free, tabs, owner, d);
      PageTop();
      ghost var owner0, pages0 := owner, pages;
      var sz := DeallocUvm(d, KERNBASE, 0);
      Detach(dirs, free, tabs, owner, d);
      ghost var owner1, pages1 := owner, pages;
      dirs := dirs - {d};
      owner := FreedTables(owner1, d, 0);
      FreeTables(d, owner1);
      AllReleased(owner0, owner1, d);
      SameStill(owner1, owner, pages0, pages1, pages, d);
    }

    /** freevm's loop over the directory, then the directory itself. */
    method FreeTables(d: Frame, ghost owner1: Owner)
      requires Valid() && OwnsTables(tabs, owner1, d) && owner == FreedTables(owner1, d, 0)
      modifies this`free, this`pages, this`owner
      ensures Valid() && owner == FreedTables(owner1, d, NENTRIES)[d := Free] && SamePages(owner, old(pages), pages)
    {
      hide Entry, Invariant;
      var i := 0;
      while i < NENTRIES
        invariant 0 <= i <= NENTRIES
        invariant Valid() && owner == FreedTables(owner1, d, i) && SamePages(owner, old(pages), pages)
      {
        NextTable(tabs, owner1, d, i);
        if tabs[d][i].Present? {
          var f := tabs[d][i].frame;
          Push(dirs, free, tabs, owner, f);
          Kfree(f);
          owner := owner[f := Free];
        }
        i := i + 1;
      }
      Push(dirs, free, tabs, owner, d);
      Kfree(d);
      owner := owner[d := Free];
    }

    /** setupkvm: a directory with no user page and a table page for each of the given kernel entries.
        On failure the frames taken so far stay with the abandoned directory. */
    method SetupKvm(kernel: seq<nat>) returns (r: Option<Frame>)
      requires Valid() && forall i :: 0 <= i < |kernel| ==> NENTRIES / 2 <= kernel[i] < NENTRIES
      modifies this`free, this`tabs, this`owner, this`dirs
      ensures Valid() && old(dirs) <= dirs && OnlyTakes(old(owner), owner)
      ensures SameView(old(dirs), old(tabs), tabs, 0, 0, 0)
      ensures r.Some? ==>
        && r.value !in old(dirs) && dirs == old(dirs) + {r.value} && SpaceOf(tabs, r.value, 0)
        && r.value in old(owner) && old(owner)[r.value] == Free
        && forall i :: 0 <= i < |kernel| ==> Pde(tabs, r.value, kernel[i] * NENTRIES).Present?
      ensures |old(free)| > |kernel| ==> r.Some? && |free| >= |old(free)| - |kernel| - 1
      ensures r.Some? ==> TakesFor(old(owner), owner, r.value)
      ensures r.None? ==> Abandons(old(dirs), dirs, old(owner), owner)
    {
      hide Entry, Invariant, Pde;
      ghost var free0, owner0, dirs0 := free, owner, dirs;
      var d := Kalloc();
      if d.None? {
        return None;
      }
      Pop(dirs, free0, tabs, owner0);
      NewDir(dirs, free, tabs, owner0[d.value := Loaned], d.value);
      tabs := tabs[d.value := EmptyTable()];
      owner := owner0[d.value := Loaned][d.value := Dir];
      dirs := dirs + {d.value};
      var k := 0;
      while k < |kernel|
        invariant 0 <= k <= |kernel|
        invariant Valid() && dirs == dirs0 + {d.value}
        invariant OnlyTakes(owner0, owner) && SameView(dirs0, old(tabs), tabs, 0, 0, 0) && SpaceOf(tabs, d.value, 0)
        invariant forall i :: 0 <= i < k ==> Pde(tabs, d.value, kernel[i] * NENTRIES).Present?
        invariant |free| >= |free0| - k - 1 && TakesFor(owner0, owner, d.value)
      {
        var ok := WalkPgdir(d.value, kernel[k] * NENTRIES, true);
        if !ok {
          return None;
        }
        k := k + 1;
      }
      return d;
    }

    /** copyuvm: a new address space of the same size whose pages have the same flags and bytes but frames
        of their own.  Both its panics are out of reach.  A failure leaves the parent as it was. */
    method CopyUvm(d: Frame, sz: nat, kernel: seq<nat>) returns (r: Option<Frame>)
      requires Valid() && d in dirs && sz <= KERNBASE && SpaceOf(tabs, d, sz)
      requires forall i :: 0 <= i < |kernel| ==> NENTRIES / 2 <= kernel[i] < NENTRIES
      modifies this`free, this`tabs, this`pages, this`owner, this`dirs
      ensures Valid() && old(dirs) <= dirs && SameView(old(dirs), old(tabs), tabs, 0, 0, 0)
      ensures SamePages(old(owner), old(pages), pages)
      ensures r.Some? ==>
        && r.value !in old(dirs) && dirs == old(dirs) + {r.value} && SpaceOf(tabs, r.value, sz)
        && Copied(tabs, pages, d, r.value, PageUp(sz))
      ensures r.None? ==> |old(free)| <= |kernel| + 2 * PageUp(sz)
      ensures r.None? ==> Abandons(old(dirs), dirs, old(owner), owner) || exists f :: Drops(old(owner), owner, f)
    {
      hide Entry, Invariant, PageUp, SpaceOf, SameView, SamePages, OnlyTakes, Copying, TakesFor, Drops, Released;
      ghost var dirs0, free0, tabs0, owner0, pages0 := dirs, free, tabs, owner, pages;
      PagesSame(owner, pages);
      r := SetupKvm(kernel);
      if r.None? {
        return None;
      }
      OldUsers(dirs0, free0, tabs0, owner0, r.value);
      StartCopy(dirs0, tabs0, tabs, owner0, owner, pages, d, r.value);
      var i := 0;
      while i < sz
        invariant i % PGSIZE == 0 && (i == 0 || i < sz + PGSIZE)
        invariant Valid() && dirs == dirs0 + {r.value}
        invariant Copying(dirs0, tabs0, tabs, owner0, owner, pages0, pages, d, r.value, i / PGSIZE)
        invariant |free0| > |kernel| + 2 * PageUp(sz) ==> |free| >= |free0| - |kernel| - 1 - 2 * (i / PGSIZE)
        invariant TakesFor(owner0, owner, r.value)
      {
        var p := i / PGSIZE;
        ghost var free1, tabs1, owner1, pages1 := free, tabs, owner, pages;
        CopyFacts(dirs0, tabs0, tabs, owner0, owner, pages0, pages, d, r.value, p, sz);
        DirOwned(dirs, free, tabs, owner, r.value);
        var ok := CopyPage(d, r.value, p);
        CopiedOne(dirs0, free1, tabs0, tabs1, tabs, owner0, owner1, owner, pages0, pages1, pages, d, r.value, p, ok);
        if !ok {
          ghost var tabs2, owner2, pages2 := tabs, owner, pages;
          FreeVm(r.value);
          Abandoned(dirs0, tabs0, tabs2, tabs, owner0, owner2, owner, pages0, pages2, pages, r.value);
          GivenBack(dirs0, free0, tabs0, owner0, owner1, owner2, r.value);
          return None;
        }
        TakesTwice(owner0, owner1, owner, r.value);
        i := i + PGSIZE;
      }
      EndCopy(dirs0, tabs0, tabs, owner0, owner, pages0, pages, d, r.value, sz, i);
    }

    /** One page of copyuvm's loop; false on either lack of memory. */
    method CopyPage(d: Frame, e: Frame, p: nat) returns (ok: bool)
      requires Valid() && d in dirs && e in dirs && d != e && p < NUSER
      requires Entry(tabs, d, p).Present? && Entry(tabs, e, p) == Absent
      modifies this`free, this`tabs, this`pages, this`owner
      ensures Valid() && SameView(dirs, old(tabs), tabs, e, p, p + 1)
      ensures SamePages(old(owner), old(pages), pages) && KeepsUses(old(owner), owner)
      ensures ok ==>
        && Entry(tabs, d, p).Present? && Entry(tabs, e, p).Present?
        && Entry(tabs, e, p).flags == Entry(tabs, d, p).flags
        && Entry(tabs, e, p).frame != Entry(tabs, d, p).frame
        && PageOf(pages, Entry(tabs, e, p).frame) == PageOf(pages, Entry(tabs, d, p).frame)
      ensures old(|free|) >= 2 ==> ok && |free| >= old(|free|) - 2
      ensures !ok ==> Entry(tabs, e, p) == Absent
      ensures ok ==> TakesFor(old(owner), owner, e)
      ensures !ok ==> owner == old(owner) || exists f :: Drops(old(owner), owner, f)
    {
      hide Entry, Invariant;
      var pte := Entry(tabs, d, p);
      ghost var free0, owner0 := free, owner;
      var mem := Kalloc();
      if mem.None? {
        return false;
      }
      Pop(dirs, free0, tabs, owner0);
      owner := owner[mem.value := Loaned];
      UserFrame(dirs, free0, tabs, owner0, d, p);
      pages := pages[mem.value := PageOf(pages, pte.frame)];
      ok := MapPage(e, p, mem.value, pte.flags);
      if !ok { assert Drops(owner0, owner, mem.value); }
    }
  }

  function PageOf(pages: map<Frame, seq<byte>>, f: Frame): (s: seq<byte>) {
    if f in pages then pages[f] else Junk()
  }

  /** Frames in use stay in the same use. */
  ghost predicate KeepsUses(owner: Owner, owner': Owner) {
    owner.Keys == owner'.Keys && forall f :: f in owner && owner[f] != Free ==> owner'[f] == owner[f]
  }

  /** Pages below n of e are copies of those of d in frames of their own. */
  ghost predicate Copied(tabs: Tables, pages: map<Frame, seq<byte>>, d: Frame, e: Frame, n: nat) {
    forall p: nat :: p < n ==>
      && Entry(tabs, d, p).Present? && Entry(tabs, e, p).Present?
      && Entry(tabs, e, p).flags == Entry(tabs, d, p).flags
      && Entry(tabs, e, p).frame != Entry(tabs, d, p).frame
      && PageOf(pages, Entry(tabs, e, p).frame) == PageOf(pages, Entry(tabs, d, p).frame)
  }

  ghost predicate Copying(dirs: set<Frame>, tabs0: Tables, tabs: Tables, owner0: Owner, owner: Owner,
                          pages0: map<Frame, seq<byte>>, pages: map<Frame, seq<byte>>, d: Frame, e: Frame, n: nat)
  {
    && d in dirs && e !in dirs
    && SameView(dirs, tabs0, tabs, 0, 0, 0) && KeepsUses(owner0, owner) && SamePages(owner0, pages0, pages)
    && Copied(tabs, pages, d, e, n)
    && forall p: nat :: n <= p < NUSER ==> Entry(tabs, e, p) == Absent
  }

  lemma NewDir(dirs: set<Frame>, free: seq<Frame>, tabs: Tables, owner: Owner, f: Frame)
    requires Invariant(dirs, free, tabs, owner) && f in owner && owner[f] == Loaned
    ensures f !in dirs && Invariant(dirs + {f}, free, tabs[f := EmptyTable()], owner[f := Dir])
    ensures SameView(dirs, tabs, tabs[f := EmptyTable()], 0, 0, 0) && SpaceOf(tabs[f := EmptyTable()], f, 0)
  {
    hide FreeListed;
    FreeElsewhere(free, owner, f, Dir);
    var tabs' := tabs[f := EmptyTable()];
    forall d, p: nat | d in dirs && p < NUSER ensures Entry(tabs', d, p) == Entry(tabs, d, p) {
      var pde := Pde(tabs, d, p);
      if pde.Present? { assert tabs[d][p / NENTRIES].Present? && owner[pde.frame] == Table(d, p / NENTRIES); }
    }
    forall p: nat | p < NUSER ensures Entry(tabs', f, p) == Absent {
    }
    hide Entry, Pde;
  }

  lemma UserFrame(dirs: set<Frame>, free: seq<Frame>, tabs: Tables, owner: Owner, d: Frame, p: nat)
    requires Invariant(dirs, free, tabs, owner) && d in dirs && p < NUSER && Entry(tabs, d, p).Present?
    ensures Entry(tabs, d, p).frame in owner && owner[Entry(tabs, d, p).frame] == User(d, p)
  {
  }

  /** No two user pages, of one address space or of two, share a frame. */
  lemma DistinctFrames(dirs: set<Frame>, free: seq<Frame>, tabs: Tables, owner: Owner, d: Frame, p: nat, d': Frame,
                       p': nat)
    requires Invariant(dirs, free, tabs, owner) && d in dirs && d' in dirs && p < NUSER && p' < NUSER
    requires Entry(tabs, d, p).Present? && Entry(tabs, d', p').Present?
    requires Entry(tabs, d, p).frame == Entry(tabs, d', p').frame
    ensures d == d' && p == p'
  {
    hide Invariant, Entry;
    UserFrame(dirs, free, tabs, owner, d, p);
    UserFrame(dirs, free, tabs, owner, d', p');
  }

  lemma PagesSame(owner: Owner, pages: map<Frame, seq<byte>>)
    ensures SamePages(owner, pages, pages)
  {
  }

  lemma StartCopy(dirs: set<Frame>, tabs0: Tables, tabs: Tables, owner0: Owner, owner: Owner,
                  pages: map<Frame, seq<byte>>, d: Frame, e: Frame)
    requires d in dirs && e !in dirs && SameView(dirs, tabs0, tabs, 0, 0, 0)
    requires OnlyTakes(owner0, owner) && SpaceOf(tabs, e, 0)
    ensures Copying(dirs, tabs0, tabs, owner0, owner, pages, pages, d, e, 0)
  {
    hide Entry;
  }

  lemma CopyFacts(dirs: set<Frame>, tabs0: Tables, tabs: Tables, owner0: Owner, owner: Owner,
                  pages0: map<Frame, seq<byte>>, pages: map<Frame, seq<byte>>, d: Frame, e: Frame, p: nat, sz: nat)
    requires Copying(dirs, tabs0, tabs, owner0, owner, pages0, pages, d, e, p) && SpaceOf(tabs0, d, sz)
    requires p * PGSIZE < sz <= KERNBASE
    ensures d != e && p < NUSER && Entry(tabs, d, p).Present? && Entry(tabs, e, p) == Absent
  {
    hide Entry;
  }

  lemma CopiedOne(dirs: set<Frame>, free1: seq<Frame>, tabs0: Tables, tabs1: Tables, tabs: Tables,
                  owner0: Owner, owner1: Owner, owner: Owner,
                  pages0: map<Frame, seq<byte>>, pages1: map<Frame, seq<byte>>, pages: map<Frame, seq<byte>>,
                  d: Frame, e: Frame, p: nat, ok: bool)
    requires Copying(dirs, tabs0, tabs1, owner0, owner1, pages0, pages1, d, e, p) && p < NUSER
    requires Invariant(dirs + {e}, free1, tabs1, owner1)
    requires SameView(dirs + {e}, tabs1, tabs, e, p, p + 1)
    requires SamePages(owner1, pages1, pages) && KeepsUses(owner1, owner)
    requires ok ==>
      && Entry(tabs, d, p).Present? && Entry(tabs, e, p).Present? && Entry(tabs, e, p).flags == Entry(tabs, d, p).flags
      && Entry(tabs, e, p).frame != Entry(tabs, d, p).frame
      && PageOf(pages, Entry(tabs, e, p).frame) == PageOf(pages, Entry(tabs, d, p).frame)
    ensures ok ==> Copying(dirs, tabs0, tabs, owner0, owner, pages0, pages, d, e, p + 1)
    ensures SameView(dirs, tabs0, tabs, 0, 0, 0) && KeepsUses(owner0, owner) && SamePages(owner0, pages0, pages)
  {
    hide Entry, Invariant;
    forall q: nat | q < p
      ensures Entry(tabs1, d, q).Present? && Entry(tabs1, d, q).frame in owner1
      ensures owner1[Entry(tabs1, d, q).frame].User?
      ensures Entry(tabs1, e, q).Present? && Entry(tabs1, e, q).frame in owner1
      ensures owner1[Entry(tabs1, e, q).frame].User?
    {
      UserFrame(dirs + {e}, free1, tabs1, owner1, d, q);
      UserFrame(dirs + {e}, free1, tabs1, owner1, e, q);
    }
  }

  /** What a failed setupkvm leaves: nothing, or a directory nobody uses, with its table pages. */
  ghost predicate Abandons(dirs: set<Frame>, dirs': set<Frame>, owner: Owner, owner': Owner) {
    (dirs' == dirs && owner' == owner) || exists d :: d !in dirs && dirs' == dirs + {d} && TakesFor(owner, owner', d)
  }

  lemma DirOwned(dirs: set<Frame>, free: seq<Frame>, tabs: Tables, owner: Owner, d: Frame)
    requires Invariant(dirs, free, tabs, owner) && d in dirs
    ensures d in owner && owner[d] == Dir
  {
  }

  lemma TakesTwice(owner: Owner, owner1: Owner, owner2: Owner, d: Frame)
    requires TakesFor(owner, owner1, d) && TakesFor(owner1, owner2, d)
    ensures TakesFor(owner, owner2, d)
  {
  }

  lemma NothingOf(dirs: set<Frame>, free: seq<Frame>, tabs: Tables, owner: Owner, e: Frame)
    requires Invariant(dirs, free, tabs, owner) && e !in dirs
    ensures forall f :: f in owner && f != e ==> !Belongs(owner, f, e)
  {
    hide Entry;
  }

  /** freevm on the copy gives back all it has taken, except for a frame already dropped. */
  lemma GivenBack(dirs: set<Frame>, free: seq<Frame>, tabs: Tables, owner0: Owner, owner1: Owner,
                  owner2: Owner, e: Frame)
    requires Invariant(dirs, free, tabs, owner0) && e !in dirs && e in owner0 && owner0[e] == Free
    requires TakesFor(owner0, owner1, e) && e in owner1 && owner1[e] == Dir
    requires owner2 == owner1 || exists f :: Drops(owner1, owner2, f)
    ensures Released(owner2, e) == owner0 || exists f :: Drops(owner0, Released(owner2, e), f)
  {
    hide Invariant;
    NothingOf(dirs, free, tabs, owner0, e);
    if owner2 == owner1 {
      assert Released(owner2, e) == owner0;
    } else {
      var f :| Drops(owner1, owner2, f);
      assert Released(owner2, e) == owner0[f := Loaned];
      assert Drops(owner0, Released(owner2, e), f);
    }
  }

  lemma OldUsers(dirs: set<Frame>, free: seq<Frame>, tabs: Tables, owner: Owner, e: Frame)
    requires Invariant(dirs, free, tabs, owner) && e !in dirs && e in owner && owner[e] == Free
    ensures forall f :: f in owner && owner[f].User? ==> owner[f].dir != e && f != e
  {
    hide Entry;
  }

  lemma Abandoned(dirs: set<Frame>, tabs0: Tables, tabs1: Tables, tabs: Tables, owner0: Owner, owner1: Owner,
                  owner: Owner,
                  pages0: map<Frame, seq<byte>>, pages1: map<Frame, seq<byte>>, pages: map<Frame, seq<byte>>, e: Frame)
    requires SameView(dirs, tabs0, tabs1, 0, 0, 0) && KeepsUses(owner0, owner1) && SamePages(owner0, pages0, pages1)
    requires SameView(dirs, tabs1, tabs, e, 0, 0) && owner == Released(owner1, e) && SamePages(owner, pages1, pages)
    requires forall f :: f in owner0 && owner0[f].User? ==> owner0[f].dir != e && f != e
    ensures SameView(dirs, tabs0, tabs, 0, 0, 0) && SamePages(owner0, pages0, pages)
  {
    hide Entry;
  }

  lemma EndCopy(dirs: set<Frame>, tabs0: Tables, tabs: Tables, owner0: Owner, owner: Owner,
                pages0: map<Frame, seq<byte>>, pages: map<Frame, seq<byte>>, d: Frame, e: Frame, sz: nat, i: nat)
    requires Copying(dirs, tabs0, tabs, owner0, owner, pages0, pages, d, e, i / PGSIZE)
    requires i % PGSIZE == 0 && sz <= i && (i == 0 || i < sz + PGSIZE)
    ensures SameView(dirs, tabs0, tabs, 0, 0, 0) && SamePages(owner0, pages0, pages)
    ensures i / PGSIZE == PageUp(sz) && SpaceOf(tabs, e, sz) && Copied(tabs, pages, d, e, PageUp(sz))
  {
    hide Entry, PageUp;
  }

  lemma AllReleased(owner: Owner, owner1: Owner, d: Frame)
    requires d in owner && owner[d] == Dir
    requires owner1 == map f | f in owner :: if owner[f].User? && owner[f].dir == d then Free else owner[f]
    requires forall f :: f in owner1 && owner1[f].Table? && owner1[f].dir == d ==> owner1[f].index < NENTRIES
    ensures FreedTables(owner1, d, NENTRIES)[d := Free] == Released(owner, d)
  {
  }

  lemma SameStill(owner1: Owner, owner: Owner, pages0: map<Frame, seq<byte>>, pages1: map<Frame, seq<byte>>,
                  pages: map<Frame, seq<byte>>, d: Frame)
    requires owner == FreedTables(owner1, d, NENTRIES)[d := Free] && d in owner1
    requires SamePages(owner1, pages0, pages1) && SamePages(owner, pages1, pages)
    ensures SamePages(owner, pages0, pages)
  {
  }

  /** The owner table once address space d is gone. */
  ghost function Released(owner: Owner, d: Frame): (r: Owner) {
    map f | f in owner :: if Belongs(owner, f, d) then Free else owner[f]
  }

  ghost predicate Belongs(owner: Owner, f: Frame, d: Frame)
    requires f in owner
  {
    f == d || (owner[f].Table? && owner[f].dir == d) || (owner[f].User? && owner[f].dir == d)
  }

  /** The directory and the tables of d, taken in hand. */
  ghost function LoanOut(owner: Owner, d: Frame): (r: Owner) {
    map f | f in owner :: if f == d || (owner[f].Table? && owner[f].dir == d) then Loaned else owner[f]
  }

  /** ... of which the first i tables are freed. */
  ghost function FreedTables(owner: Owner, d: Frame, i: nat): (r: Owner) {
    map f | f in owner ::
      if owner[f].Table? && owner[f].dir == d && owner[f].index < i then Free
      else if f == d || (owner[f].Table? && owner[f].dir == d) then Loaned else owner[f]
  }

  ghost predicate OwnsTables(tabs: Tables, owner: Owner, d: Frame) {
    && d in owner && owner[d] == Dir && d in tabs && |tabs[d]| == NENTRIES
    && (forall i :: 0 <= i < NENTRIES && tabs[d][i].Present? ==>
         tabs[d][i].frame in owner && owner[tabs[d][i].frame] == Table(d, i))
    && (forall f :: f in owner && owner[f].Table? && owner[f].dir == d ==>
         owner[f].index < NENTRIES && tabs[d][owner[f].index].Present? && tabs[d][owner[f].index].frame == f)
  }

  lemma NextTable(tabs: Tables, owner: Owner, d: Frame, i: nat)
    requires OwnsTables(tabs, owner, d) && i < NENTRIES
    ensures FreedTables(owner, d, i + 1) ==
      if tabs[d][i].Present? then FreedTables(owner, d, i)[tabs[d][i].frame := Free] else FreedTables(owner, d, i)
  {
  }

  lemma PageTop()
    ensures PageUp(0) == 0 && PageUp(KERNBASE) == NUSER
  {
  }

  /** Deallocating the whole user half frees exactly its frames. */
  lemma VisitAll(dirs: set<Frame>, free: seq<Frame>, tabs: Tables, owner: Owner, d: Frame)
    requires Invariant(dirs, free, tabs, owner) && d in dirs
    ensures VisitOwner(tabs, owner, d, 0, NUSER) ==
      map f | f in owner :: if owner[f].User? && owner[f].dir == d then Free else owner[f]
  {
    hide Entry, Invariant, VisitOwner;
    VisitOwnerKeys(dirs, free, tabs, owner, d, 0, NUSER);
    forall f | f in owner
      ensures f in VisitOwner(tabs, owner, d, 0, NUSER)
      ensures VisitOwner(tabs, owner, d, 0, NUSER)[f] == if owner[f].User? && owner[f].dir == d then Free else owner[f]
    {
      VisitOwnerAt(dirs, free, tabs, owner, d, 0, NUSER, f);
      if owner[f].User? { FrameOf(dirs, free, tabs, owner, f); }
    }
  }

  /** A directory without user pages can be taken out of use. */
  lemma Detach(dirs: set<Frame>, free: seq<Frame>, tabs: Tables, owner: Owner, d: Frame)
    requires Invariant(dirs, free, tabs, owner) && d in dirs
    requires forall p: nat :: p < NUSER ==> Entry(tabs, d, p) == Absent
    ensures Invariant(dirs - {d}, free, tabs, LoanOut(owner, d))
    ensures OwnsTables(tabs, owner, d) && LoanOut(owner, d) == FreedTables(owner, d, 0)
    ensures d in owner && owner[d] == Dir
    ensures forall f :: f in owner && owner[f].Table? && owner[f].dir == d ==> owner[f].index < NENTRIES
  {
    hide Entry, Pde;
  }

  /** allocuvm has added zeroed pages from lo below hi and changed nothing else. */
  ghost predicate Growing(dirs: set<Frame>, tabs0: Tables, tabs: Tables, owner0: Owner, owner: Owner,
                          pages0: map<Frame, seq<byte>>, pages: map<Frame, seq<byte>>, d: Frame, lo: nat, hi: nat)
  {
    && OnlyTakes(owner0, owner) && SamePages(owner0, pages0, pages)
    && SameView(dirs, tabs0, tabs, d, lo, hi) && ZeroPages(tabs, pages, d, lo, hi)
  }

  lemma UndoView(dirs: set<Frame>, free: seq<Frame>, tabs0: Tables, tabs: Tables, owner: Owner, d: Frame, oldsz: nat,
                 newsz: nat)
    requires Invariant(dirs, free, tabs, owner) && d in dirs && oldsz < newsz < KERNBASE && SpaceOf(tabs0, d, oldsz)
    requires SameView(dirs, tabs0, tabs, d, PageUp(oldsz), PageUp(newsz))
    ensures SameView(dirs, tabs0, Visit(tabs, free, d, PageUp(oldsz), PageUp(newsz)).0, d, 0, 0)
  {
    hide Entry, Invariant, Visit, VisitOwner, PageUp;
    PageBound(newsz);
    VisitKeeps(dirs, free, tabs, owner, d, PageUp(oldsz), PageUp(newsz));
    Beyond(tabs0, d, oldsz);
  }

  lemma UndoOwner(dirs: set<Frame>, free: seq<Frame>, tabs: Tables, owner0: Owner, owner: Owner, d: Frame, oldsz: nat,
                  newsz: nat, mem: Option<Frame>)
    requires Invariant(dirs, free, tabs, owner) && d in dirs && oldsz < newsz < KERNBASE && owner0.Keys == owner.Keys
    requires mem.None? ==> OnlyTakes(owner0, owner)
    requires mem.Some? ==>
      mem.value in owner0 && owner0[mem.value] == Free && OnlyTakes(owner0[mem.value := Loaned], owner)
    requires forall f :: f in owner0 && owner0[f].User? ==> !(owner0[f].dir == d && owner0[f].page >= PageUp(oldsz))
    ensures var owner' := VisitOwner(tabs, owner, d, PageUp(oldsz), PageUp(newsz));
      && (mem.None? ==> OnlyTakes(owner0, owner'))
      && (mem.Some? ==> mem.value in owner' && owner'[mem.value] == Loaned)
      && (mem.Some? ==> OnlyTakes(owner0, owner'[mem.value := Free]))
  {
    hide Entry, Invariant, Visit, VisitOwner, PageUp;
    var lo, hi := PageUp(oldsz), PageUp(newsz);
    PageBound(newsz);
    VisitOwnerKeys(dirs, free, tabs, owner, d, lo, hi);
    forall f | f in owner
      ensures VisitOwner(tabs, owner, d, lo, hi)[f] ==
        if owner[f].User? && owner[f].dir == d && lo <= owner[f].page < hi then Free else owner[f]
    {
      VisitOwnerAt(dirs, free, tabs, owner, d, lo, hi, f);
    }
  }

  lemma UndoPages(owner0: Owner, owner: Owner, pages1: map<Frame, seq<byte>>, pages: map<Frame, seq<byte>>,
                  mem: Option<Frame>)
    requires SamePages(owner, pages1, pages)
    requires mem.None? ==> OnlyTakes(owner0, owner)
    requires mem.Some? ==>
      mem.value in owner && owner[mem.value] == Loaned && OnlyTakes(owner0, owner[mem.value := Free])
    ensures mem.None? ==> SamePages(owner0, pages1, pages)
    ensures mem.Some? ==> SamePages(owner0, pages1, pages[mem.value := Junk()])
  {
  }

  lemma NoChange(dirs: set<Frame>, tabs: Tables, owner: Owner, pages: map<Frame, seq<byte>>, d: Frame, lo: nat)
    ensures Growing(dirs, tabs, tabs, owner, owner, pages, pages, d, lo, lo)
    ensures OnlyTakes(owner, owner) && SamePages(owner, pages, pages) && SameView(dirs, tabs, tabs, d, 0, 0)
  {
  }

  lemma UsersBelow(dirs: set<Frame>, free: seq<Frame>, tabs: Tables, owner: Owner, d: Frame, sz: nat)
    requires Invariant(dirs, free, tabs, owner) && SpaceOf(tabs, d, sz)
    ensures forall f :: f in owner && owner[f].User? ==> !(owner[f].dir == d && owner[f].page >= PageUp(sz))
  {
    hide Entry, Invariant, PageUp;
    Beyond(tabs, d, sz);
    forall f | f in owner && owner[f].User? ensures !(owner[f].dir == d && owner[f].page >= PageUp(sz)) {
      FrameOf(dirs, free, tabs, owner, f);
    }
  }

  lemma NextAbsent(dirs: set<Frame>, tabs0: Tables, tabs: Tables, owner0: Owner, owner: Owner,
                   pages0: map<Frame, seq<byte>>, pages: map<Frame, seq<byte>>, d: Frame, lo: nat, hi: nat, sz: nat)
    requires Growing(dirs, tabs0, tabs, owner0, owner, pages0, pages, d, lo, hi) && d in dirs
    requires SpaceOf(tabs0, d, sz) && lo == PageUp(sz) <= hi < NUSER
    ensures Entry(tabs, d, hi) == Absent && ZeroPages(tabs, pages, d, lo, hi)
  {
    hide Entry, PageUp;
    Beyond(tabs0, d, sz);
  }

  lemma SameTwice(owner: Owner, pages: map<Frame, seq<byte>>, pages': map<Frame, seq<byte>>,
                  pages'': map<Frame, seq<byte>>)
    requires SamePages(owner, pages, pages') && SamePages(owner, pages', pages'')
    ensures SamePages(owner, pages, pages'')
  {
  }

  lemma MoreGrowth(dirs: set<Frame>, tabs0: Tables, tabs1: Tables, tabs: Tables, owner0: Owner, owner1: Owner,
                   owner: Owner,
                   pages0: map<Frame, seq<byte>>, pages1: map<Frame, seq<byte>>, pages: map<Frame, seq<byte>>,
                   d: Frame, lo: nat, hi: nat)
    requires Growing(dirs, tabs0, tabs1, owner0, owner1, pages0, pages1, d, lo, hi) && lo <= hi
    requires SameView(dirs, tabs1, tabs, d, hi, hi + 1) && OnlyTakes(owner1, owner) && SamePages(owner1, pages1, pages)
    requires ZeroPages(tabs, pages, d, lo, hi + 1)
    ensures Growing(dirs, tabs0, tabs, owner0, owner, pages0, pages, d, lo, hi + 1)
  {
    hide Entry;
  }

  lemma FailedGrowth(dirs: set<Frame>, tabs0: Tables, tabs1: Tables, tabs: Tables, owner0: Owner, owner1: Owner,
                     owner: Owner,
                     pages0: map<Frame, seq<byte>>, pages1: map<Frame, seq<byte>>, pages: map<Frame, seq<byte>>,
                     d: Frame, lo: nat, hi: nat, mem: Option<Frame>, newsz: nat)
    requires Growing(dirs, tabs0, tabs1, owner0, owner1, pages0, pages1, d, lo, hi) && lo <= hi && hi * PGSIZE < newsz
    requires SameView(dirs, tabs1, tabs, d, hi, hi + 1) && SamePages(owner1, pages1, pages)
    requires mem.None? ==> owner == owner1
    requires mem.Some? ==>
      mem.value in owner1 && owner1[mem.value] == Free && OnlyTakes(owner1[mem.value := Loaned], owner)
    ensures SameView(dirs, tabs0, tabs, d, lo, PageUp(newsz))
    ensures owner0.Keys == owner.Keys && SamePages(owner0, pages0, pages)
    ensures mem.None? ==> OnlyTakes(owner0, owner)
    ensures mem.Some? ==>
      mem.value in owner0 && owner0[mem.value] == Free && OnlyTakes(owner0[mem.value := Loaned], owner)
  {
    hide Entry, PageUp;
    assert hi + 1 <= PageUp(newsz);
  }

  lemma EndGrowth(dirs: set<Frame>, tabs0: Tables, tabs: Tables, owner0: Owner, owner: Owner,
                  pages0: map<Frame, seq<byte>>, pages: map<Frame, seq<byte>>, d: Frame, oldsz: nat, newsz: nat, a: nat)
    requires Growing(dirs, tabs0, tabs, owner0, owner, pages0, pages, d, PageUp(oldsz), a / PGSIZE) && d in dirs
    requires SpaceOf(tabs0, d, oldsz) && oldsz <= newsz <= a && a % PGSIZE == 0
    requires a == PageUp(oldsz) * PGSIZE || a < newsz + PGSIZE
    ensures a / PGSIZE == PageUp(newsz) && SpaceOf(tabs, d, newsz)
    ensures OnlyTakes(owner0, owner) && SamePages(owner0, pages0, pages)
    ensures SameView(dirs, tabs0, tabs, d, PageUp(oldsz), PageUp(newsz))
    ensures ZeroPages(tabs, pages, d, PageUp(oldsz), PageUp(newsz))
  {
    hide Entry, PageUp;
  }

  lemma PageBound(sz: nat)
    requires sz < KERNBASE
    ensures PageUp(sz) <= NUSER
  {
  }

  /** Pages at and beyond the size are not mapped. */
  lemma Beyond(tabs: Tables, d: Frame, sz: nat)
    requires SpaceOf(tabs, d, sz)
    ensures forall p: nat :: PageUp(sz) <= p < NUSER ==> Entry(tabs, d, p) == Absent
  {
  }

  /** Pages from lo below hi are mapped, writable for the user, and all zero. */
  ghost predicate ZeroPages(tabs: Tables, pages: map<Frame, seq<byte>>, d: Frame, lo: nat, hi: nat) {
    forall p: nat :: lo <= p < hi ==>
      && Entry(tabs, d, p).Present? && Entry(tabs, d, p).flags == 7
      && Entry(tabs, d, p).frame in pages && pages[Entry(tabs, d, p).frame] == Zeros(PGSIZE)
  }

  lemma ZeroElsewhere(dirs: set<Frame>, free: seq<Frame>, tabs: Tables, owner: Owner, pages: map<Frame, seq<byte>>,
                      d: Frame, lo: nat, hi: nat, f: Frame, data: seq<byte>)
    requires Invariant(dirs, free, tabs, owner) && d in dirs && hi <= NUSER && ZeroPages(tabs, pages, d, lo, hi)
    requires f in owner && owner[f] == Loaned
    ensures ZeroPages(tabs, pages[f := data], d, lo, hi)
  {
    hide Entry;
  }

  lemma StillZero(dirs: set<Frame>, tabs: Tables, tabs': Tables, pages: map<Frame, seq<byte>>, d: Frame, lo: nat,
                  hi: nat)
    requires d in dirs && hi < NUSER && ZeroPages(tabs, pages, d, lo, hi) && SameView(dirs, tabs, tabs', d, hi, hi + 1)
    ensures ZeroPages(tabs', pages, d, lo, hi)
  {
    hide Entry;
  }

  lemma AddTableStays(dirs: set<Frame>, tabs: Tables, owner: Owner, d: Frame, i: nat, f: Frame)
    requires TablesOwned(dirs, tabs, owner) && d in dirs && i < NENTRIES && f in owner && owner[f] == Free
    ensures KeepsTables(dirs, tabs, AddTable(tabs, d, i, f))
  {
  }

  lemma AddTablePde(tabs: Tables, d: Frame, i: nat, f: Frame, p: nat)
    requires IsTable(tabs, d) && i < NENTRIES && p / NENTRIES == i
    ensures Pde(AddTable(tabs, d, i, f), d, p) == Present(f, 7)
  {
  }

  lemma SetEntryView(dirs: set<Frame>, tabs: Tables, owner: Owner, d: Frame, p: nat, e: Pte)
    requires TablesOwned(dirs, tabs, owner) && d in dirs && p < NUSER && Pde(tabs, d, p).Present?
    ensures IsTable(tabs, Pde(tabs, d, p).frame)
    ensures SameView(dirs, tabs, SetEntry(tabs, d, p, e), d, p, p + 1) && Entry(SetEntry(tabs, d, p, e), d, p) == e
  {
    hide Entry, SetEntry, Pde;
    SetEntryAt(dirs, tabs, owner, d, p, e, d, p);
    forall d', p': nat | d' in dirs && p' < NUSER && !(d' == d && p <= p' < p + 1)
      ensures Entry(SetEntry(tabs, d, p, e), d', p') == Entry(tabs, d', p')
    {
      SetEntryAt(dirs, tabs, owner, d, p, e, d', p');
    }
  }

  /** The address of the next page table's first page. */
  function TableAfter(a: nat): (b: nat) { (a / 0x40_0000 + 1) * 0x40_0000 % 0x1_0000_0000 }

  lemma VisitEnd(tabs: Tables, free: seq<Frame>, owner: Owner, d: Frame, p: nat, q: nat)
    requires p >= q
    ensures Visit(tabs, free, d, p, q) == (tabs, free) && VisitOwner(tabs, owner, d, p, q) == owner
  {
  }

  /** PGADDR(PDX(a) + 1, 0, 0) is the first page of the next table; it does not wrap below KERNBASE. */
  lemma Jump(a: nat)
    requires a < KERNBASE && a % PGSIZE == 0
    ensures var b := TableAfter(a);
      b > a && b % PGSIZE == 0 && b / PGSIZE == (a / PGSIZE / NENTRIES + 1) * NENTRIES
  {
    var p := a / PGSIZE;
    var t, r := p / NENTRIES, p % NENTRIES;
    assert a == PGSIZE * p && p == NENTRIES * t + r;
    TableOf(t, PGSIZE * r);
    assert t < 512;
    FirstPage(t + 1);
  }

  lemma TableOf(t: nat, x: nat)
    requires x < 0x40_0000
    ensures (0x40_0000 * t + x) / 0x40_0000 == t
  {
  }

  lemma FirstPage(t: nat)
    requires t <= 512
    ensures t * 0x40_0000 % 0x1_0000_0000 == 0x40_0000 * t
    ensures 0x40_0000 * t % PGSIZE == 0 && 0x40_0000 * t / PGSIZE == t * NENTRIES
  {
    var n := NENTRIES * t;
    assert 0x40_0000 * t == PGSIZE * n;
  }

  lemma {:induction false} SkipOwner(tabs: Tables, owner: Owner, d: Frame, p: nat, n: nat, q: nat)
    requires p <= n <= (p / NENTRIES + 1) * NENTRIES && Pde(tabs, d, p) == Absent
    ensures VisitOwner(tabs, owner, d, p, q) == VisitOwner(tabs, owner, d, n, q)
    decreases n - p
  {
    hide SetEntry;
    if p < n && p < q {
      assert Entry(tabs, d, p) == Absent;
      if p + 1 < n {
        assert (p + 1) / NENTRIES == p / NENTRIES;
        SkipOwner(tabs, owner, d, p + 1, n, q);
      }
    }
  }
}
