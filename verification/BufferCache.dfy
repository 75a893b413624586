/** bio.c over memide.c: a cache of NBUF blocks on a doubly linked list kept in order of last use.

    Buffers are numbered 0..NBUF-1 and the list head is number NBUF. */
module BufferCache {
  import opened Words
  import opened Wrappers

  const NBUF := 30
  const HEAD := NBUF

  /** struct buf; the sleep lock is the flag `locked`. */
  datatype Buf = Buf(dev: nat, blockno: nat, refcnt: nat, valid: bool, dirty: bool, locked: bool, data: Block)

  // ---------------------------------------------------------------- the list

  ghost predicate Distinct(ring: seq<int>) {
    forall i, j :: 0 <= i < j < |ring| ==> ring[i] != ring[j]
  }

  /** `ring` is the list from the head round, linked both ways. */
  ghost predicate Linked(next: seq<int>, prev: seq<int>, ring: seq<int>) {
    && |next| == |prev| == NBUF + 1 && |ring| > 0 && ring[0] == HEAD
    && (forall i :: 0 <= i < |ring| ==> 0 <= ring[i] <= NBUF)
    && Distinct(ring)
    && (forall i :: 0 <= i < |ring| - 1 ==> next[ring[i]] == ring[i + 1])
    && (forall i :: 0 <= i < |ring| - 1 ==> prev[ring[i + 1]] == ring[i])
    && next[ring[|ring| - 1]] == HEAD && prev[HEAD] == ring[|ring| - 1]
  }

  function Removed(ring: seq<int>, i: nat): (r: seq<int>)
    requires i < |ring|
    ensures |r| == |ring| - 1
  {
    ring[..i] + ring[i + 1..]
  }

  function AtFront(ring: seq<int>, b: int): (r: seq<int>)
    requires |ring| > 0
    ensures |r| == |ring| + 1
  {
    [ring[0], b] + ring[1..]
  }

  lemma Unlink(next: seq<int>, prev: seq<int>, ring: seq<int>, i: nat)
    requires Linked(next, prev, ring) && 1 <= i < |ring|
    ensures 0 <= next[ring[i]] <= NBUF && 0 <= prev[ring[i]] <= NBUF
    ensures Linked(next[prev[ring[i]] := next[ring[i]]], prev[next[ring[i]] := prev[ring[i]]], Removed(ring, i))
    ensures ring[i] !in Removed(ring, i)
  {
    var b, r := ring[i], Removed(ring, i);
    assert prev[b] == ring[i - 1];
    assert next[b] == if i + 1 < |ring| then ring[i + 1] else HEAD;
    assert forall j :: 0 <= j < |r| ==> r[j] == ring[if j < i then j else j + 1];
  }

  lemma LinkFront(next: seq<int>, prev: seq<int>, ring: seq<int>, b: int)
    requires Linked(next, prev, ring) && 0 <= b < NBUF && b !in ring
    ensures 0 <= next[HEAD] <= NBUF
    ensures Linked(next[b := next[HEAD]][HEAD := b], prev[b := HEAD][next[HEAD] := b], AtFront(ring, b))
  {
    var r := AtFront(ring, b);
    assert forall j :: 2 <= j < |r| ==> r[j] == ring[j - 1];
    assert next[HEAD] == if |ring| > 1 then ring[1] else HEAD;
  }

  // ---------------------------------------------------------------- contents

  predicate Holds(buf: Buf, dev: nat, blockno: nat) { buf.dev == dev && buf.blockno == blockno }

  /** Fit to be recycled. */
  predicate Idle(buf: Buf) { buf.refcnt == 0 && !buf.dirty }

  ghost predicate DirtyCopy(bufs: seq<Buf>, k: nat) {
    exists b :: 0 <= b < |bufs| && bufs[b].dirty && Holds(bufs[b], 1, k)
  }

  /** No two buffers hold the same block.  Device 0 is excepted: unused buffers all carry it. */
  ghost predicate OneCopy(bufs: seq<Buf>) {
    forall b, c :: 0 <= b < c < |bufs| && bufs[b].dev != 0 ==> !Holds(bufs[c], bufs[b].dev, bufs[b].blockno)
  }

  /** `store` is what a disk without a cache would hold: every valid buffer shows it, and the disk
      holds it except for blocks with a dirty buffer. */
  ghost predicate Coherent(bufs: seq<Buf>, disk: seq<Block>, store: seq<Block>) {
    && |disk| == |store| && OneCopy(bufs)
    && (forall b :: 0 <= b < |bufs| && bufs[b].valid ==>
         bufs[b].dev == 1 && bufs[b].blockno < |disk| && bufs[b].data == store[bufs[b].blockno])
    && (forall b :: 0 <= b < |bufs| && bufs[b].dirty ==> bufs[b].valid)
    && (forall k: nat :: k < |disk| ==> disk[k] == store[k] || DirtyCopy(bufs, k))
  }

  /** A block without a dirty copy reads the same from the disk. */
  lemma CleanOnDisk(bufs: seq<Buf>, disk: seq<Block>, store: seq<Block>, b: nat)
    requires Coherent(bufs, disk, store) && b < |bufs| && Holds(bufs[b], 1, bufs[b].blockno)
    requires !bufs[b].dirty && bufs[b].blockno < |disk|
    ensures disk[bufs[b].blockno] == store[bufs[b].blockno]
  {
  }

  /** Changing only bookkeeping fields of a buffer. */
  lemma KeepContents(bufs: seq<Buf>, disk: seq<Block>, store: seq<Block>, b: nat, buf: Buf)
    requires Coherent(bufs, disk, store) && b < |bufs|
    requires buf.dev == bufs[b].dev && buf.blockno == bufs[b].blockno && buf.valid == bufs[b].valid
    requires buf.dirty == bufs[b].dirty && buf.data == bufs[b].data
    ensures Coherent(bufs[b := buf], disk, store)
  {
    var bufs' := bufs[b := buf];
    forall k: nat | k < |disk| && DirtyCopy(bufs, k) ensures DirtyCopy(bufs', k) {
      var c :| 0 <= c < |bufs| && bufs[c].dirty && Holds(bufs[c], 1, k);
      assert bufs'[c].dirty && Holds(bufs'[c], 1, k);
    }
  }

  /** Recycling a clean buffer for a block that no buffer holds. */
  lemma Recycle(bufs: seq<Buf>, disk: seq<Block>, store: seq<Block>, b: nat, buf: Buf)
    requires Coherent(bufs, disk, store) && b < |bufs| && !bufs[b].dirty && !buf.valid && !buf.dirty
    requires forall c :: 0 <= c < |bufs| ==> !Holds(bufs[c], buf.dev, buf.blockno)
    ensures Coherent(bufs[b := buf], disk, store)
  {
    var bufs' := bufs[b := buf];
    forall k: nat | k < |disk| && DirtyCopy(bufs, k) ensures DirtyCopy(bufs', k) {
      var c :| 0 <= c < |bufs| && bufs[c].dirty && Holds(bufs[c], 1, k);
      assert bufs'[c].dirty && Holds(bufs'[c], 1, k);
    }
  }

  /** Filling an invalid buffer from the disk. */
  lemma Fill(bufs: seq<Buf>, disk: seq<Block>, store: seq<Block>, b: nat)
    requires Coherent(bufs, disk, store) && b < |bufs| && !bufs[b].valid && bufs[b].dev == 1 && bufs[b].blockno < |disk|
    ensures Coherent(bufs[b := bufs[b].(valid := true, data := disk[bufs[b].blockno])], disk, store)
    ensures disk[bufs[b].blockno] == store[bufs[b].blockno]
  {
    CleanOnDisk(bufs, disk, store, b);
    var bufs' := bufs[b := bufs[b].(valid := true, data := disk[bufs[b].blockno])];
    forall k: nat | k < |disk| && DirtyCopy(bufs, k) ensures DirtyCopy(bufs', k) {
      var c :| 0 <= c < |bufs| && bufs[c].dirty && Holds(bufs[c], 1, k);
      assert bufs'[c].dirty && Holds(bufs'[c], 1, k);
    }
  }

  /** New data written through to the disk (bwrite), or kept dirty in the buffer (log_write). */
  lemma Store(bufs: seq<Buf>, disk: seq<Block>, store: seq<Block>, b: nat, data: Block, through: bool)
    requires Coherent(bufs, disk, store) && b < |bufs| && bufs[b].valid
    ensures bufs[b].blockno < |disk| == |store|
    ensures var k := bufs[b].blockno;
      Coherent(bufs[b := bufs[b].(data := data, dirty := !through)],
               if through then disk[k := data] else disk, store[k := data])
  {
    var k := bufs[b].blockno;
    var bufs' := bufs[b := bufs[b].(data := data, dirty := !through)];
    var disk' := if through then disk[k := data] else disk;
    forall l: nat | l < |disk| ensures disk'[l] == store[k := data][l] || DirtyCopy(bufs', l) {
      if l == k {
        if !through { assert bufs'[b].dirty && Holds(bufs'[b], 1, k); }
      } else if DirtyCopy(bufs, l) {
        var c :| 0 <= c < |bufs| && bufs[c].dirty && Holds(bufs[c], 1, l);
        assert bufs'[c].dirty && Holds(bufs'[c], 1, l);
      }
    }
  }

  // ---------------------------------------------------------------- order of use

  /** Among unreferenced buffers, the list runs from the one released last to the one released first. */
  ghost predicate Recency(bufs: seq<Buf>, ring: seq<int>, stamp: seq<int>, now: int) {
    && |bufs| == |stamp| == NBUF
    && (forall i :: 1 <= i < |ring| ==> 0 <= ring[i] < NBUF)
    && (forall b :: 0 <= b < NBUF ==> stamp[b] < now)
    && (forall i, j :: 1 <= i < j < |ring| && bufs[ring[i]].refcnt == 0 && bufs[ring[j]].refcnt == 0 ==>
         stamp[ring[i]] > stamp[ring[j]])
  }

  lemma MovedToFront(bufs: seq<Buf>, ring: seq<int>, stamp: seq<int>, now: int, i: nat, bufs': seq<Buf>)
    requires Recency(bufs, ring, stamp, now) && 1 <= i < |ring| && Distinct(ring)
    requires |bufs'| == NBUF && forall b :: 0 <= b < NBUF && b != ring[i] ==> bufs'[b].refcnt == bufs[b].refcnt
    ensures Recency(bufs', AtFront(Removed(ring, i), ring[i]), stamp[ring[i] := now], now + 1)
  {
    var r := AtFront(Removed(ring, i), ring[i]);
    assert forall j :: 2 <= j < |r| ==> r[j] == ring[if j <= i then j - 1 else j];
  }

  lemma Referenced(bufs: seq<Buf>, ring: seq<int>, stamp: seq<int>, now: int, b: nat, buf: Buf)
    requires Recency(bufs, ring, stamp, now) && b < NBUF && (buf.refcnt > 0 || buf.refcnt == bufs[b].refcnt)
    ensures Recency(bufs[b := buf], ring, stamp, now)
  {
  }

  // ---------------------------------------------------------------- the cache

  /** Every buffer is on the list. */
  ghost predicate Complete(ring: seq<int>) {
    |ring| == NBUF + 1 && forall b :: 0 <= b < NBUF ==> b in ring
  }

  ghost predicate Counted(bufs: seq<Buf>, waiting: seq<nat>) {
    && |bufs| == |waiting| == NBUF
    && forall b :: 0 <= b < NBUF ==> bufs[b].refcnt == waiting[b] + if bufs[b].locked then 1 else 0
  }

  /** The buffer a missing block gets: idle, and released before every other idle buffer. */
  ghost predicate Victim(bufs: seq<Buf>, stamp: seq<int>, b: int) {
    && |bufs| == |stamp| && 0 <= b < |bufs| && Idle(bufs[b])
    && forall c :: 0 <= c < |bufs| && c != b && Idle(bufs[c]) ==> stamp[b] < stamp[c]
  }

  class Cache {
    var bufs: seq<Buf>
    var next: seq<int>
    var prev: seq<int>
    var disk: seq<Block>         // device 1
    ghost var ring: seq<int>     // the list from the head round
    ghost var stamp: seq<int>    // when each buffer's count last fell to zero
    ghost var now: int
    ghost var waiting: seq<nat>  // references that do not hold the buffer's sleep lock
    ghost var store: seq<Block>  // what a disk without a cache would hold

    ghost predicate Valid()
      reads this
    {
      && |bufs| == |waiting| == |stamp| == NBUF && Linked(next, prev, ring) && Complete(ring)
      && Counted(bufs, waiting) && Recency(bufs, ring, stamp, now) && Coherent(bufs, disk, store)
    }

    /** bget: the buffer of a block, counted once more; the victim takes over an uncached block. */
    method BGet(dev: nat, blockno: nat) returns (r: Option<nat>)
      requires Valid()
      modifies this`bufs, this`waiting
      ensures Valid()
      ensures r.None? ==> bufs == old(bufs)
      ensures r.None? ==> forall b :: 0 <= b < NBUF ==> !Holds(bufs[b], dev, blockno) && !Idle(bufs[b])
      ensures r.Some? ==>
        && r.value < NBUF
        && (if Holds(old(bufs)[r.value], dev, blockno)
            then bufs == old(bufs)[r.value := old(bufs)[r.value].(refcnt := old(bufs)[r.value].refcnt + 1)]
            else
              && (forall b :: 0 <= b < NBUF ==> !Holds(old(bufs)[b], dev, blockno))
              && Victim(old(bufs), stamp, r.value)
              && bufs == old(bufs)[r.value := Buf(dev, blockno, 1, false, false, false, old(bufs)[r.value].data)])
        && waiting == old(waiting)[r.value := old(waiting)[r.value] + 1]
    {
      hide Linked, Complete, Counted, Recency, Coherent, Victim;
      var b := FindCached(dev, blockno);
      if b != HEAD {
        Reference(bufs, ring, stamp, now, waiting, disk, store, b);
        bufs := bufs[b := bufs[b].(refcnt := bufs[b].refcnt + 1)];
      } else {
        b := FindIdle();
        if b == HEAD {
          return None;
        }
        TakeOver(bufs, ring, stamp, now, waiting, disk, store, b, dev, blockno);
        bufs := bufs[b := Buf(dev, blockno, 1, false, false, bufs[b].locked, bufs[b].data)];
      }
      waiting := waiting[b := waiting[b] + 1];
      return Some(b);
    }

    /** The first scan: along next from the head. */
    method FindCached(dev: nat, blockno: nat) returns (b: int)
      requires Valid()
      ensures b == HEAD || (0 <= b < NBUF && Holds(bufs[b], dev, blockno))
      ensures b == HEAD ==> forall c :: 0 <= c < NBUF ==> !Holds(bufs[c], dev, blockno)
    {
      hide Counted, Recency, Coherent, Distinct;
      ghost var i := 1;
      b := next[HEAD];
      assert next[ring[0]] == ring[1];
      while b != HEAD
        invariant 1 <= i <= |ring|
        invariant b == if i < |ring| then ring[i] else HEAD
        invariant forall j :: 1 <= j < i ==> 0 <= ring[j] < NBUF && !Holds(bufs[ring[j]], dev, blockno)
        decreases |ring| - i
      {
        NotHead(next, prev, ring, i);
        if Holds(bufs[b], dev, blockno) {
          return;
        }
        b := next[b];
        i := i + 1;
      }
      EndOfList(next, prev, ring, i);
      forall c | 0 <= c < NBUF ensures !Holds(bufs[c], dev, blockno) {
        assert c in ring;
        var j :| 0 <= j < |ring| && ring[j] == c;
      }
    }

    /** The second scan: along prev from the head, so the victim was released before any other. */
    method FindIdle() returns (b: int)
      requires Valid()
      ensures b == HEAD || (0 <= b < NBUF && Victim(bufs, stamp, b))
      ensures b == HEAD ==> forall c :: 0 <= c < NBUF ==> !Idle(bufs[c])
    {
      hide Counted, Coherent, Distinct;
      ghost var i := |ring| - 1;
      b := prev[HEAD];
      while b != HEAD
        invariant 0 <= i < |ring| && b == ring[i]
        invariant forall j :: i < j < |ring| ==> !Idle(bufs[ring[j]])
        decreases i
      {
        NotHead(next, prev, ring, i);
        if Idle(bufs[b]) {
          forall c | 0 <= c < NBUF && c != b && Idle(bufs[c]) ensures stamp[b] < stamp[c] {
            assert c in ring;
            var j :| 0 <= j < |ring| && ring[j] == c;
          }
          return;
        }
        assert prev[ring[(i - 1) + 1]] == ring[i - 1];
        b := prev[b];
        i := i - 1;
      }
      AtHead(next, prev, ring, i);
      forall c | 0 <= c < NBUF ensures !Idle(bufs[c]) {
        assert c in ring;
        var j :| 0 <= j < |ring| && ring[j] == c;
      }
    }

    /** binit: every buffer unused, each put at the front of the list in turn. */
    constructor (disk: seq<Block>)
      ensures Valid() && this.disk == store == disk
      ensures forall b :: 0 <= b < NBUF ==> Idle(bufs[b]) && Holds(bufs[b], 0, 0) && !bufs[b].valid && !bufs[b].locked
      ensures waiting == seq(NBUF, _ => 0)
    {
      this.disk, store := disk, disk;
      var empty := Buf(0, 0, 0, false, false, false, Zeros(BSIZE));
      bufs, waiting, now := seq(NBUF, _ => empty), seq(NBUF, _ => 0), NBUF;
      stamp := seq(NBUF, b => b);
      var nx, pv; ghost var r;
      nx, pv, r := InitList();
      next, prev, ring := nx, pv, r;
    }

    /** binit's loop; the order of insertion counts as the order of release. */
    static method InitList() returns (next: seq<int>, prev: seq<int>, ghost ring: seq<int>)
      ensures Linked(next, prev, ring) && Complete(ring)
      ensures forall i :: 1 <= i <= NBUF ==> ring[i] == NBUF - i
    {
      hide Linked;
      next, prev := seq(NBUF + 1, _ => HEAD), seq(NBUF + 1, _ => HEAD);
      ring := [HEAD];
      EmptyList(next, prev);
      var b := 0;
      while b < NBUF
        invariant 0 <= b <= NBUF && |ring| == b + 1 && ring[0] == HEAD
        invariant Linked(next, prev, ring) && |next| == |prev| == NBUF + 1
        invariant forall i :: 1 <= i < |ring| ==> ring[i] == b - i
      {
        LinkFront(next, prev, ring, b);
        var first := next[HEAD];
        next := next[b := first];
        prev := prev[b := HEAD];
        prev := prev[first := b];
        next := next[HEAD := b];
        ring := AtFront(ring, b);
        b := b + 1;
      }
      forall c | 0 <= c < NBUF ensures c in ring {
        assert ring[NBUF - c] == c;
      }
    }

    /** acquiresleep on a buffer, once it is free. */
    method Lock(b: nat)
      requires Valid() && b < NBUF && waiting[b] > 0 && !bufs[b].locked
      modifies this`bufs, this`waiting
      ensures Valid()
      ensures bufs == old(bufs)[b := old(bufs)[b].(locked := true)] && waiting == old(waiting)[b := old(waiting)[b] - 1]
    {
      hide Linked, Complete, Coherent;
      KeepContents(bufs, disk, store, b, bufs[b].(locked := true));
      Referenced(bufs, ring, stamp, now, b, bufs[b].(locked := true));
      bufs := bufs[b := bufs[b].(locked := true)];
      waiting := waiting[b := waiting[b] - 1];
    }

    /** bread once the buffer is locked: it shows what a disk without a cache would hold. */
    method BRead(b: nat) returns (r: Option<Block>)
      requires Valid() && b < NBUF && bufs[b].locked
      modifies this`bufs
      ensures Valid()
      ensures r.None? <==> !old(bufs)[b].valid && !(bufs[b].dev == 1 && bufs[b].blockno < |disk|)
      ensures r.None? ==> bufs == old(bufs)
      ensures r.Some? ==>
        && bufs[b].dev == 1 && bufs[b].blockno < |store| && r.value == store[bufs[b].blockno]
        && bufs == old(bufs)[b := old(bufs)[b].(valid := true, data := r.value)]
    {
      hide Linked, Complete;
      if !bufs[b].valid {
        if bufs[b].dev != 1 || bufs[b].blockno >= |disk| {
          return None;
        }
        Fill(bufs, disk, store, b);
        bufs := bufs[b := bufs[b].(valid := true, data := disk[bufs[b].blockno])];
      }
      assert bufs[b].valid;
      return Some(bufs[b].data);
    }

    /** New contents, written through to the device. */
    method BWrite(b: nat, data: Block)
      requires Valid() && b < NBUF && bufs[b].locked && bufs[b].valid
      modifies this`bufs, this`disk, this`store
      ensures Valid() && bufs[b].blockno < |disk| == |store|
      ensures bufs == old(bufs)[b := old(bufs)[b].(data := data, dirty := false)]
      ensures disk == old(disk)[bufs[b].blockno := data] && store == old(store)[bufs[b].blockno := data]
    {
      hide Linked, Complete, Coherent;
      Store(bufs, disk, store, b, data, true);
      bufs := bufs[b := bufs[b].(data := data, dirty := false)];
      disk := disk[bufs[b].blockno := data];
      store := store[bufs[b].blockno := data];
    }

    /** New contents, pinned in the cache for the log to write later. */
    method LogWrite(b: nat, data: Block)
      requires Valid() && b < NBUF && bufs[b].locked && bufs[b].valid
      modifies this`bufs, this`store
      ensures Valid() && bufs[b].blockno < |store|
      ensures bufs == old(bufs)[b := old(bufs)[b].(data := data, dirty := true)]
      ensures store == old(store)[bufs[b].blockno := data]
    {
      hide Linked, Complete, Coherent;
      Store(bufs, disk, store, b, data, false);
      bufs := bufs[b := bufs[b].(data := data, dirty := true)];
      store := store[bufs[b].blockno := data];
    }

    /** brelse, first part: releasesleep. */
    method Unlock(b: nat)
      requires Valid() && b < NBUF && bufs[b].locked
      modifies this`bufs, this`waiting
      ensures Valid()
      ensures bufs == old(bufs)[b := old(bufs)[b].(locked := false)]
      ensures waiting == old(waiting)[b := old(waiting)[b] + 1]
    {
      hide Linked, Complete, Coherent;
      KeepContents(bufs, disk, store, b, bufs[b].(locked := false));
      Referenced(bufs, ring, stamp, now, b, bufs[b].(locked := false));
      bufs := bufs[b := bufs[b].(locked := false)];
      waiting := waiting[b := waiting[b] + 1];
    }

    /** brelse, second part: drop the reference, and on the last one move to the front of the list. */
    method Put(b: nat)
      requires Valid() && b < NBUF && waiting[b] > 0
      modifies this`bufs, this`waiting, this`next, this`prev, this`ring, this`stamp, this`now
      ensures Valid()
      ensures bufs == old(bufs)[b := old(bufs)[b].(refcnt := old(bufs)[b].refcnt - 1)]
      ensures waiting == old(waiting)[b := old(waiting)[b] - 1]
      ensures if bufs[b].refcnt == 0 then
          && ring[0] == HEAD && ring[1] == b
          && stamp == old(stamp)[b := old(now)] && now == old(now) + 1
        else ring == old(ring) && stamp == old(stamp)
    {
      hide Coherent, Linked, Complete, Recency, Removed, AtFront;
      ghost var i := Position(ring, b);
      KeepContents(bufs, disk, store, b, bufs[b].(refcnt := bufs[b].refcnt - 1));
      ghost var before := bufs;
      bufs := bufs[b := bufs[b].(refcnt := bufs[b].refcnt - 1)];
      waiting := waiting[b := waiting[b] - 1];
      if bufs[b].refcnt == 0 {
        MoveFront(before, bufs, next, prev, ring, stamp, now, i);
        MoveToFront(b, i);
        stamp, now := stamp[b := now], now + 1;
      } else {
        Referenced(before, ring, stamp, now, b, bufs[b]);
      }
    }

    /** brelse's pointer surgery. */
    method MoveToFront(b: nat, ghost i: nat)
      requires Linked(next, prev, ring) && i < |ring| && ring[i] == b < NBUF
      modifies this`next, this`prev, this`ring
      ensures Linked(next, prev, ring) && ring == AtFront(Removed(old(ring), i), b)
    {
      hide Linked, Removed, AtFront;
      BufferHere(next, prev, ring, i);
      Unlink(next, prev, ring, i);
      ring := Removed(ring, i);
      var n, p := next[b], prev[b];
      prev := prev[n := p];
      next := next[p := n];
      LinkFront(next, prev, ring, b);
      var first := next[HEAD];
      next := next[b := first];
      prev := prev[b := HEAD];
      prev := prev[first := b];
      next := next[HEAD := b];
      ring := AtFront(ring, b);
    }

    /** brelse. */
    method BRelse(b: nat)
      requires Valid() && b < NBUF && bufs[b].locked
      modifies this`bufs, this`waiting, this`next, this`prev, this`ring, this`stamp, this`now
      ensures Valid()
      ensures bufs == old(bufs)[b := old(bufs)[b].(locked := false, refcnt := bufs[b].refcnt)]
      ensures old(bufs)[b].refcnt == bufs[b].refcnt + 1 && waiting == old(waiting)
    {
      hide Coherent, Linked, Complete, Recency;
      Unlock(b);
      Put(b);
    }
  }

  lemma EmptyList(next: seq<int>, prev: seq<int>)
    requires next == prev == seq(NBUF + 1, _ => HEAD)
    ensures Linked(next, prev, [HEAD])
  {
  }

  ghost function Position(ring: seq<int>, b: int): (i: nat)
    requires Complete(ring) && 0 <= b < NBUF
    ensures i < |ring| && ring[i] == b
  {
    assert b in ring;
    var i: nat :| i < |ring| && ring[i] == b;
    i
  }

  lemma MoveFront(bufs: seq<Buf>, bufs': seq<Buf>, next: seq<int>, prev: seq<int>, ring: seq<int>, stamp: seq<int>,
                  now: int, i: nat)
    requires Linked(next, prev, ring) && Complete(ring)
    requires Recency(bufs, ring, stamp, now) && i < |ring| && ring[i] < NBUF
    requires |bufs'| == NBUF && forall c :: 0 <= c < NBUF && c != ring[i] ==> bufs'[c].refcnt == bufs[c].refcnt
    ensures 0 <= ring[i]
    ensures var b, r := ring[i], AtFront(Removed(ring, i), ring[i]);
      Complete(r) && r[0] == HEAD && r[1] == b && Recency(bufs', r, stamp[b := now], now + 1)
  {
    hide Linked;
    BufferHere(next, prev, ring, i);
    MovedToFront(bufs, ring, stamp, now, i, bufs');
    StillComplete(ring, i);
  }

  lemma BufferHere(next: seq<int>, prev: seq<int>, ring: seq<int>, i: nat)
    requires Linked(next, prev, ring) && i < |ring| && ring[i] < NBUF
    ensures |next| == |prev| == NBUF + 1 && 1 <= i && 0 <= ring[i] && Distinct(ring) && ring[0] == HEAD
  {
  }

  lemma StillComplete(ring: seq<int>, i: nat)
    requires Complete(ring) && 1 <= i < |ring|
    ensures Complete(AtFront(Removed(ring, i), ring[i]))
  {
    var r := AtFront(Removed(ring, i), ring[i]);
    forall b | 0 <= b < NBUF ensures b in r {
      assert b in ring;
      var j :| 0 <= j < |ring| && ring[j] == b;
      assert b == r[if j == i then 1 else if j == 0 then 0 else if j < i then j + 1 else j];
    }
  }

  lemma NotHead(next: seq<int>, prev: seq<int>, ring: seq<int>, i: int)
    requires Linked(next, prev, ring) && 0 <= i < |ring| && ring[i] != HEAD
    ensures 0 <= ring[i] < NBUF && i >= 1
  {
  }

  lemma AtHead(next: seq<int>, prev: seq<int>, ring: seq<int>, i: int)
    requires Linked(next, prev, ring) && 0 <= i < |ring| && ring[i] == HEAD
    ensures i == 0
  {
  }

  lemma EndOfList(next: seq<int>, prev: seq<int>, ring: seq<int>, i: int)
    requires Linked(next, prev, ring) && 1 <= i <= |ring| && (i < |ring| ==> ring[i] == HEAD)
    ensures i == |ring|
  {
    if i < |ring| { AtHead(next, prev, ring, i); }
  }

  lemma Reference(bufs: seq<Buf>, ring: seq<int>, stamp: seq<int>, now: int, waiting: seq<nat>,
                  disk: seq<Block>, store: seq<Block>, b: nat)
    requires Counted(bufs, waiting) && Recency(bufs, ring, stamp, now) && Coherent(bufs, disk, store) && b < NBUF
    ensures var bufs' := bufs[b := bufs[b].(refcnt := bufs[b].refcnt + 1)];
      && Counted(bufs', waiting[b := waiting[b] + 1]) && Recency(bufs', ring, stamp, now)
      && Coherent(bufs', disk, store)
  {
    hide Coherent;
    KeepContents(bufs, disk, store, b, bufs[b].(refcnt := bufs[b].refcnt + 1));
  }

  lemma TakeOver(bufs: seq<Buf>, ring: seq<int>, stamp: seq<int>, now: int, waiting: seq<nat>,
                 disk: seq<Block>, store: seq<Block>, b: nat, dev: nat, blockno: nat)
    requires Counted(bufs, waiting) && Recency(bufs, ring, stamp, now) && Coherent(bufs, disk, store)
    requires Victim(bufs, stamp, b) && forall c :: 0 <= c < NBUF ==> !Holds(bufs[c], dev, blockno)
    ensures |bufs| == NBUF && b < NBUF && !bufs[b].locked
    ensures var bufs' := bufs[b := Buf(dev, blockno, 1, false, false, bufs[b].locked, bufs[b].data)];
      && Counted(bufs', waiting[b := waiting[b] + 1]) && Recency(bufs', ring, stamp, now)
      && Coherent(bufs', disk, store)
  {
    hide Coherent, Holds;
    CleanVictim(bufs, disk, store, b);
    Recycle(bufs, disk, store, b, Buf(dev, blockno, 1, false, false, bufs[b].locked, bufs[b].data));
  }

  lemma CleanVictim(bufs: seq<Buf>, disk: seq<Block>, store: seq<Block>, b: nat)
    requires b < |bufs| && Idle(bufs[b])
    ensures !bufs[b].dirty
  {
  }
}
