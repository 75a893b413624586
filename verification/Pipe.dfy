/** pipe.c: the ring buffer behind a pipe, with 32-bit counters that wrap. */
module Pipe {
  import opened Words

  const PIPESIZE := 512
  const WRAP := 0x1_0000_0000

  /** `data`, `nread` and `nwrite` of struct pipe. */
  datatype Ring = Ring(data: seq<byte>, nread: int, nwrite: int)

  /** A sum of two unsigned numbers below 2^32, wrapped. */
  function Wrap(x: int): (y: int) { if x >= WRAP then x - WRAP else x }

  /** Bytes written and not yet read: the unsigned difference of the counters. */
  function Count(r: Ring): (n: int) {
    if r.nwrite >= r.nread then r.nwrite - r.nread else r.nwrite - r.nread + WRAP
  }

  ghost predicate Valid(r: Ring) {
    |r.data| == PIPESIZE && 0 <= r.nread < WRAP && 0 <= r.nwrite < WRAP && 0 <= Count(r) <= PIPESIZE
  }

  predicate Full(r: Ring) { r.nwrite == Wrap(r.nread + PIPESIZE) }

  predicate Empty(r: Ring) { r.nread == r.nwrite }

  function Put(r: Ring, b: byte): (s: Ring)
    requires |r.data| == PIPESIZE
  {
    Ring(r.data[r.nwrite % PIPESIZE := b], r.nread, Wrap(r.nwrite + 1))
  }

  function Next(r: Ring): (b: byte)
    requires |r.data| == PIPESIZE
  {
    r.data[r.nread % PIPESIZE]
  }

  function Drop(r: Ring): (s: Ring) { r.(nread := Wrap(r.nread + 1)) }

  /** The bytes in the pipe, oldest first. */
  ghost function Contents(r: Ring): (s: seq<byte>)
    requires Valid(r)
    ensures |s| == Count(r)
  {
    seq(Count(r), k requires 0 <= k < Count(r) => r.data[(r.nread + k) % PIPESIZE])
  }

  /** Wrapped or not, the two tests of the code are about the number of bytes held. */
  lemma Tests(r: Ring)
    requires Valid(r)
    ensures Full(r) <==> |Contents(r)| == PIPESIZE
    ensures Empty(r) <==> Contents(r) == []
  {
  }

  /** Slot k after the oldest is the next write slot only when k is the number of bytes held: 512
      divides 2^32, so wrapping never moves a byte. */
  lemma SlotOf(nread: int, nwrite: int, k: nat)
    requires 0 <= nread < WRAP && 0 <= nwrite < WRAP
    requires k <= Count(Ring([], nread, nwrite)) < PIPESIZE
    ensures (nread + k) % PIPESIZE == nwrite % PIPESIZE <==> k == Count(Ring([], nread, nwrite))
  {
    var n := Count(Ring([], nread, nwrite));
    assert nwrite == nread + n || nwrite == nread + n - PIPESIZE * 0x80_0000;
    assert (nread + n) % PIPESIZE == nwrite % PIPESIZE;
  }

  /** A byte goes in behind everything held; nothing unread is overwritten. */
  lemma PutContents(r: Ring, b: byte)
    requires Valid(r) && !Full(r)
    ensures Valid(Put(r, b)) && Contents(Put(r, b)) == Contents(r) + [b]
  {
    var s := Put(r, b);
    forall k | 0 <= k < Count(r) + 1 ensures Contents(s)[k] == (Contents(r) + [b])[k] {
      SlotOf(r.nread, r.nwrite, k);
    }
  }

  lemma NextSlot(nread: int, k: nat)
    requires 0 <= nread < WRAP
    ensures (Wrap(nread + 1) + k) % PIPESIZE == (nread + (k + 1)) % PIPESIZE
  {
    assert Wrap(nread + 1) == nread + 1 || Wrap(nread + 1) == nread + 1 - PIPESIZE * 0x80_0000;
  }

  lemma NextAt(r: Ring)
    requires |r.data| == PIPESIZE
    ensures Next(r) == r.data[r.nread % PIPESIZE]
  {
  }

  /** The byte taken is the oldest one held. */
  lemma DropContents(r: Ring)
    requires Valid(r) && !Empty(r)
    ensures Valid(Drop(r)) && Contents(r) == [Next(r)] + Contents(Drop(r))
  {
    var s := Drop(r);
    forall k | 0 <= k < Count(r) ensures Contents(r)[k] == ([Next(r)] + Contents(s))[k] {
      if k > 0 { NextSlot(r.nread, k - 1); }
    }
  }

  /** struct pipe. Each method is a stretch of the code that runs with the pipe's lock held. */
  class Pipe {
    var data: array<byte>
    var nread: int
    var nwrite: int
    var readopen: bool
    var writeopen: bool

    ghost function Model(): (r: Ring)
      reads this, data
    {
      Ring(data[..], nread, nwrite)
    }

    /** pipealloc's initial state. */
    constructor ()
      ensures Valid(Model()) && Contents(Model()) == [] && readopen && writeopen
      ensures fresh(data)
    {
      data := new byte[PIPESIZE];
      nread, nwrite := 0, 0;
      readopen, writeopen := true, true;
    }

    /** pipewrite's inner work between two sleeps: bytes from `addr[i..]` go in until the pipe is full
        or all are in. */
    method WriteSome(addr: seq<byte>, i: nat) returns (j: nat)
      requires i <= |addr| && Valid(Model())
      modifies this`nwrite, data
      ensures Valid(Model()) && i <= j <= |addr|
      ensures Contents(Model()) == old(Contents(Model())) + addr[i..j]
      ensures j == |addr| || Full(Model())
    {
      hide Contents, Wrap, Count;
      j := i;
      while j < |addr| && nwrite != Wrap(nread + PIPESIZE)
        invariant i <= j <= |addr| && Valid(Model())
        invariant Contents(Model()) == old(Contents(Model())) + addr[i..j]
      {
        ghost var before := Model();
        PutContents(before, addr[j]);
        data[nwrite % PIPESIZE] := addr[j];
        nwrite := Wrap(nwrite + 1);
        assert Model() == Put(before, addr[j]);
        assert addr[i..j + 1] == addr[i..j] + [addr[j]];
        j := j + 1;
      }
    }

    /** piperead's copy loop. */
    method ReadSome(n: nat) returns (out: seq<byte>)
      requires Valid(Model())
      modifies this`nread
      ensures Valid(Model())
      ensures old(Contents(Model())) == out + Contents(Model())
      ensures |out| == if n <= |old(Contents(Model()))| then n else |old(Contents(Model()))|
    {
      hide Contents, Wrap, Count, Next;
      out := [];
      var i := 0;
      while i < n && nread != nwrite
        invariant 0 <= i <= n && |out| == i && Valid(Model())
        invariant old(Contents(Model())) == out + Contents(Model())
      {
        ghost var before := Model();
        DropContents(before);
        assert data[nread % PIPESIZE] == Next(before) by { NextAt(before); }
        out := out + [data[nread % PIPESIZE]];
        nread := Wrap(nread + 1);
        assert Model() == Drop(before);
        i := i + 1;
      }
      Tests(Model());
    }
  }
}
