/** What log.c does to the disk, one block write at a time.

    The disk is a sequence of blocks.  The log occupies the `size` blocks from `start`: a header
    block holding a count and the home block numbers, then the logged copies.  Every function
    `...Disk(..., k)` below is the disk after the first k block writes of the loop it models, so
    these functions enumerate every disk a crash can leave behind. */
module LogSpec {
  import opened Words

  const MAXOPBLOCKS := 10
  const LOGSIZE := MAXOPBLOCKS * 3

  type Disk = seq<Block>

  datatype Layout = Layout(start: nat, size: nat) {
    predicate InLog(b: int) { start <= b < start + size }

    predicate Home(d: Disk, b: int) { 0 <= b < |d| && !InLog(b) }

    /** The log lies on the disk and its block numbers fit the header's 32-bit fields. */
    predicate Fits(d: Disk) { 1 <= size && start + size <= |d| < 0x8000_0000 }
  }

  ghost predicate HomeBlocks(L: Layout, d: Disk, bs: seq<int>) {
    forall i {:trigger bs[i]} :: 0 <= i < |bs| ==> L.Home(d, bs[i])
  }

  /** A transaction that log_write lets through: distinct home blocks, no more than the log holds. */
  ghost predicate Transaction(L: Layout, d: Disk, bs: seq<int>) {
    && L.Fits(d)
    && |bs| <= LOGSIZE && |bs| < L.size
    && HomeBlocks(L, d, bs)
    && (forall i, j :: 0 <= i < j < |bs| ==> bs[i] != bs[j])
  }

  // ---------------------------------------------------------------- header block

  /** The header buffer after the first k assignments of write_head's loop. */
  function PutHead(hb: Block, bs: seq<int>, k: nat): (r: Block)
    requires k <= |bs| <= LOGSIZE
    requires forall i :: 0 <= i < |bs| ==> 0 <= bs[i] < 0x8000_0000
    ensures Word(r, 0) == |bs|
    ensures forall i: nat :: i < k ==> Word(r, i + 1) == bs[i]
  {
    if k == 0 then SetWord(hb, 0, |bs|) else SetWord(PutHead(hb, bs, k - 1), k, bs[k - 1])
  }

  /** The block list a header block stands for. */
  function Head(hb: Block): (bs: seq<int>)
    requires Word(hb, 0) <= LOGSIZE
    ensures |bs| == Word(hb, 0)
  {
    seq(Word(hb, 0), i requires 0 <= i < Word(hb, 0) => Word(hb, i + 1))
  }

  /** Decoding an encoded header gives the list back, whatever the buffer held before. */
  lemma HeadRoundTrip(hb: Block, bs: seq<int>)
    requires |bs| <= LOGSIZE
    requires forall i :: 0 <= i < |bs| ==> 0 <= bs[i] < 0x8000_0000
    ensures Head(PutHead(hb, bs, |bs|)) == bs
  {
    var r := PutHead(hb, bs, |bs|);
    assert forall i: nat :: i < |bs| ==> Head(r)[i] == Word(r, i + 1);
  }

  /** write_head: one block write. */
  function HeadDisk(L: Layout, d: Disk, bs: seq<int>): (r: Disk)
    requires L.Fits(d) && |bs| <= LOGSIZE
    requires forall i :: 0 <= i < |bs| ==> 0 <= bs[i] < 0x8000_0000
    ensures |r| == |d| && Word(r[L.start], 0) == |bs| && Head(r[L.start]) == bs
    ensures forall b :: 0 <= b < |d| && b != L.start ==> r[b] == d[b]
  {
    HeadRoundTrip(d[L.start], bs);
    d[L.start := PutHead(d[L.start], bs, |bs|)]
  }

  // ---------------------------------------------------------------- the loops of commit and recovery

  /** write_log after k iterations; `mem` is what the buffer cache holds for each block. */
  function LogDisk(L: Layout, d: Disk, mem: Disk, bs: seq<int>, k: nat): (r: Disk)
    requires L.Fits(d) && k <= |bs| < L.size && |mem| == |d|
    requires HomeBlocks(L, d, bs)
    ensures |r| == |d|
    ensures forall b :: 0 <= b < |d| && !(L.start < b <= L.start + k) ==> r[b] == d[b]
    ensures forall i {:trigger bs[i]} :: 0 <= i < k ==> r[L.start + 1 + i] == mem[bs[i]]
  {
    if k == 0 then d else LogDisk(L, d, mem, bs, k - 1)[L.start + k := mem[bs[k - 1]]]
  }

  /** install_trans after k iterations: log block t is copied over home block bs[t]. */
  function InstallDisk(L: Layout, d: Disk, bs: seq<int>, k: nat): (r: Disk)
    requires L.Fits(d) && k <= |bs| < L.size
    requires HomeBlocks(L, d, bs)
    ensures |r| == |d|
    ensures forall b :: 0 <= b < |d| && L.InLog(b) ==> r[b] == d[b]
  {
    if k == 0 then d else
      var p := InstallDisk(L, d, bs, k - 1);
      p[bs[k - 1] := p[L.start + k]]
  }

  /** Installing gives each of the first k listed home blocks its own log copy ... */
  lemma {:induction false} InstalledAt(L: Layout, d: Disk, bs: seq<int>, k: nat, i: nat)
    requires Transaction(L, d, bs) && k <= |bs| && i < |bs|
    ensures InstallDisk(L, d, bs, k)[bs[i]] == if i < k then d[L.start + 1 + i] else d[bs[i]]
  {
    if k > 0 {
      InstalledAt(L, d, bs, k - 1, i);
    }
  }

  /** ... and touches no block that is not listed. */
  lemma {:induction false} NotInstalledAt(L: Layout, d: Disk, bs: seq<int>, k: nat, b: int)
    requires Transaction(L, d, bs) && k <= |bs| && 0 <= b < |d| && b !in bs
    ensures InstallDisk(L, d, bs, k)[b] == d[b]
  {
    if k > 0 {
      NotInstalledAt(L, d, bs, k - 1, b);
      assert bs[k - 1] in bs;
    }
  }

  // ---------------------------------------------------------------- recovery

  /** The header on disk names a transaction: what recover_from_log relies on. */
  ghost predicate Recoverable(L: Layout, d: Disk) {
    && L.Fits(d)
    && Word(d[L.start], 0) <= LOGSIZE
    && Transaction(L, d, Head(d[L.start]))
  }

  /** Block writes one run of recover_from_log makes. */
  function RecoverLength(L: Layout, d: Disk): (n: nat)
    requires Recoverable(L, d)
  {
    |Head(d[L.start])| + 1
  }

  /** recover_from_log after k block writes. */
  function RecoverDisk(L: Layout, d: Disk, k: nat): (r: Disk)
    requires Recoverable(L, d) && k <= RecoverLength(L, d)
    ensures |r| == |d|
  {
    var bs := Head(d[L.start]);
    if k <= |bs| then InstallDisk(L, d, bs, k) else HeadDisk(L, InstallDisk(L, d, bs, |bs|), [])
  }

  /** recover_from_log run to its end. */
  function Recovered(L: Layout, d: Disk): (r: Disk)
    requires Recoverable(L, d)
    ensures |r| == |d|
  {
    RecoverDisk(L, d, RecoverLength(L, d))
  }

  /** Two disks agree on every block outside the log. */
  ghost predicate SameHome(L: Layout, d: Disk, e: Disk) {
    |d| == |e| && forall b {:trigger d[b]} {:trigger e[b]} :: L.Home(d, b) ==> d[b] == e[b]
  }

  /** The disk after any number of recoveries, the i-th one stopped by a crash after cuts[i] writes. */
  ghost function AfterCrashes(L: Layout, d: Disk, cuts: seq<nat>): (r: Disk)
    requires Recoverable(L, d)
    ensures Recoverable(L, r)
    decreases |cuts|
  {
    if cuts == [] then d else
      var k := if cuts[0] <= RecoverLength(L, d) then cuts[0] else RecoverLength(L, d);
      CutRecovery(L, d, k);
      AfterCrashes(L, RecoverDisk(L, d, k), cuts[1..])
  }

  /** A recovery cut short anywhere leaves a disk that recovers to the same home blocks. */
  lemma CutRecovery(L: Layout, d: Disk, k: nat)
    requires Recoverable(L, d) && k <= RecoverLength(L, d)
    ensures Recoverable(L, RecoverDisk(L, d, k))
    ensures SameHome(L, Recovered(L, RecoverDisk(L, d, k)), Recovered(L, d))
  {
    var e := RecoverDisk(L, d, k);
    CutRecoverable(L, d, k);
    forall b | L.Home(d, b) ensures Recovered(L, e)[b] == Recovered(L, d)[b] {
      CutRecoveryAt(L, d, k, b);
    }
  }

  lemma CutRecoverable(L: Layout, d: Disk, k: nat)
    requires Recoverable(L, d) && k <= RecoverLength(L, d)
    ensures Recoverable(L, RecoverDisk(L, d, k))
    ensures k < RecoverLength(L, d) ==> RecoverDisk(L, d, k)[L.start] == d[L.start]
    ensures k == RecoverLength(L, d) ==> Head(RecoverDisk(L, d, k)[L.start]) == []
  {
  }

  lemma CutRecoveryAt(L: Layout, d: Disk, k: nat, b: int)
    requires Recoverable(L, d) && k <= RecoverLength(L, d) && L.Home(d, b)
    ensures Recoverable(L, RecoverDisk(L, d, k))
    ensures Recovered(L, RecoverDisk(L, d, k))[b] == Recovered(L, d)[b]
  {
    hide SetWord, PutHead;
    var bs := Head(d[L.start]);
    var e := RecoverDisk(L, d, k);
    CutRecoverable(L, d, k);
    if k == |bs| + 1 {
      RecoveredOther(L, e, b);
    } else if b in bs {
      var i: nat :| i < |bs| && bs[i] == b;
      RecoveredAt(L, e, i);
      RecoveredAt(L, d, i);
    } else {
      RecoveredOther(L, e, b);
      RecoveredOther(L, d, b);
      NotInstalledAt(L, d, bs, k, b);
    }
  }

  /** Recovery gives each listed home block its log copy ... */
  lemma RecoveredAt(L: Layout, d: Disk, i: nat)
    requires Recoverable(L, d) && i < |Head(d[L.start])|
    ensures Recovered(L, d)[Head(d[L.start])[i]] == d[L.start + 1 + i]
  {
    hide SetWord, PutHead;
    var bs := Head(d[L.start]);
    InstalledAt(L, d, bs, |bs|, i);
  }

  /** ... and leaves every other home block alone. */
  lemma RecoveredOther(L: Layout, d: Disk, b: int)
    requires Recoverable(L, d) && L.Home(d, b) && b !in Head(d[L.start])
    ensures Recovered(L, d)[b] == d[b]
  {
    hide SetWord, PutHead;
    var bs := Head(d[L.start]);
    NotInstalledAt(L, d, bs, |bs|, b);
  }

  /** However often recovery itself is interrupted, completing it gives the same home blocks. */
  lemma {:induction false} CrashesDuringRecovery(L: Layout, d: Disk, cuts: seq<nat>)
    requires Recoverable(L, d)
    ensures SameHome(L, Recovered(L, AfterCrashes(L, d, cuts)), Recovered(L, d))
    decreases |cuts|
  {
    if cuts != [] {
      var k := if cuts[0] <= RecoverLength(L, d) then cuts[0] else RecoverLength(L, d);
      CutRecovery(L, d, k);
      CrashesDuringRecovery(L, RecoverDisk(L, d, k), cuts[1..]);
    }
  }

  // ---------------------------------------------------------------- commit

  /** Block writes one commit() makes. */
  function CommitLength(bs: seq<int>): (n: nat) {
    if bs == [] then 0 else 2 * |bs| + 2
  }

  /** commit() after k block writes: the log copies, the header, the installs, the cleared header. */
  function CommitDisk(L: Layout, d: Disk, mem: Disk, bs: seq<int>, k: nat): (r: Disk)
    requires Transaction(L, d, bs) && |mem| == |d| && k <= CommitLength(bs)
    ensures |r| == |d|
  {
    var n := |bs|;
    if k <= n then LogDisk(L, d, mem, bs, k) else
      var h := HeadDisk(L, LogDisk(L, d, mem, bs, n), bs);
      if k <= 2 * n + 1 then InstallDisk(L, h, bs, k - n - 1)
      else HeadDisk(L, InstallDisk(L, h, bs, n), [])
  }

  /** The home blocks commit() means to leave: the cached contents of the listed blocks. */
  ghost predicate Updated(L: Layout, d: Disk, mem: Disk, bs: seq<int>, e: Disk) {
    && |d| == |e| == |mem|
    && HomeBlocks(L, d, bs)
    && (forall b {:trigger e[b]} :: L.Home(d, b) ==> e[b] == if b in bs then mem[b] else d[b])
  }

  /** Crash atomicity of one commit: stop it after any number k of block writes and recover; the
      home blocks are all new exactly when the first header write (number |bs| + 1) was made, and
      all old otherwise. */
  lemma CommitAtomic(L: Layout, d: Disk, mem: Disk, bs: seq<int>, k: nat)
    requires Transaction(L, d, bs) && |mem| == |d| && k <= CommitLength(bs)
    requires Word(d[L.start], 0) == 0
    ensures Recoverable(L, CommitDisk(L, d, mem, bs, k))
    ensures k <= |bs| ==> SameHome(L, Recovered(L, CommitDisk(L, d, mem, bs, k)), d)
    ensures k > |bs| ==> Updated(L, d, mem, bs, Recovered(L, CommitDisk(L, d, mem, bs, k)))
  {
    var e := CommitDisk(L, d, mem, bs, k);
    if k <= |bs| {
      BeforeHeader(L, d, mem, bs, k);
    } else if k <= 2 * |bs| + 1 {
      AfterHeader(L, d, mem, bs, k);
    } else {
      AfterClear(L, d, mem, bs);
    }
  }

  lemma BeforeHeader(L: Layout, d: Disk, mem: Disk, bs: seq<int>, k: nat)
    requires Transaction(L, d, bs) && |mem| == |d| && k <= |bs|
    requires Word(d[L.start], 0) == 0
    ensures Recoverable(L, LogDisk(L, d, mem, bs, k))
    ensures SameHome(L, Recovered(L, LogDisk(L, d, mem, bs, k)), d)
  {
    hide SetWord, PutHead;
    var e := LogDisk(L, d, mem, bs, k);
    assert e[L.start] == d[L.start];
    forall b | L.Home(d, b) ensures Recovered(L, e)[b] == d[b] {
      RecoveredOther(L, e, b);
    }
  }

  lemma AfterHeader(L: Layout, d: Disk, mem: Disk, bs: seq<int>, k: nat)
    requires Transaction(L, d, bs) && |mem| == |d| && bs != [] && |bs| < k <= 2 * |bs| + 1
    ensures Recoverable(L, CommitDisk(L, d, mem, bs, k))
    ensures Updated(L, d, mem, bs, Recovered(L, CommitDisk(L, d, mem, bs, k)))
  {
    hide Word, SetWord, PutHead, Head, LogDisk, HeadDisk, InstallDisk, Recovered;
    var h := HeadDisk(L, LogDisk(L, d, mem, bs, |bs|), bs);
    HeaderWritten(L, d, mem, bs);
    CutRecovery(L, h, k - |bs| - 1);
    UpdatedSameHome(L, d, mem, bs, Recovered(L, h), Recovered(L, RecoverDisk(L, h, k - |bs| - 1)));
  }

  lemma UpdatedSameHome(L: Layout, d: Disk, mem: Disk, bs: seq<int>, e: Disk, f: Disk)
    requires Updated(L, d, mem, bs, e) && SameHome(L, f, e)
    ensures Updated(L, d, mem, bs, f)
  {
  }

  lemma HeaderWritten(L: Layout, d: Disk, mem: Disk, bs: seq<int>)
    requires Transaction(L, d, bs) && |mem| == |d|
    ensures var h := HeadDisk(L, LogDisk(L, d, mem, bs, |bs|), bs);
      Recoverable(L, h) && Updated(L, d, mem, bs, Recovered(L, h))
  {
    hide Word, SetWord, PutHead, Head, LogDisk, HeadDisk, InstallDisk, Recovered, Updated;
    var h := HeadDisk(L, LogDisk(L, d, mem, bs, |bs|), bs);
    assert Transaction(L, h, bs);
    CopiesRecover(L, d, mem, bs, h);
  }

  lemma CopiesRecover(L: Layout, d: Disk, mem: Disk, bs: seq<int>, h: Disk)
    requires Transaction(L, d, bs) && |mem| == |d| && SameHome(L, d, h)
    requires Recoverable(L, h) && Head(h[L.start]) == bs
    requires forall i {:trigger bs[i]} :: 0 <= i < |bs| ==> h[L.start + 1 + i] == mem[bs[i]]
    ensures Updated(L, d, mem, bs, Recovered(L, h))
  {
    hide Word, Head, Recovered;
    forall b {:trigger Recovered(L, h)[b]} | L.Home(d, b)
      ensures Recovered(L, h)[b] == if b in bs then mem[b] else d[b]
    {
      if b in bs {
        var i: nat :| i < |bs| && bs[i] == b;
        RecoveredAt(L, h, i);
      } else {
        RecoveredOther(L, h, b);
      }
    }
  }

  lemma AfterClear(L: Layout, d: Disk, mem: Disk, bs: seq<int>)
    requires Transaction(L, d, bs) && |mem| == |d| && bs != []
    ensures Recoverable(L, CommitDisk(L, d, mem, bs, 2 * |bs| + 2))
    ensures Updated(L, d, mem, bs, Recovered(L, CommitDisk(L, d, mem, bs, 2 * |bs| + 2)))
    ensures Updated(L, d, mem, bs, CommitDisk(L, d, mem, bs, 2 * |bs| + 2))
    ensures Word(CommitDisk(L, d, mem, bs, 2 * |bs| + 2)[L.start], 0) == 0
  {
    hide SetWord, PutHead;
    var h := HeadDisk(L, LogDisk(L, d, mem, bs, |bs|), bs);
    var e := CommitDisk(L, d, mem, bs, 2 * |bs| + 2);
    HeaderWritten(L, d, mem, bs);
    assert e == Recovered(L, h);
    forall b | L.Home(d, b) ensures Recovered(L, e)[b] == e[b] {
      RecoveredOther(L, e, b);
    }
    UpdatedSameHome(L, d, mem, bs, e, Recovered(L, e));
  }
}
