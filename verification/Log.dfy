/** log.c in its own form: a header and counters updated in place and loops that write one block at
    a time.  Each method is proved to do to the disk what LogSpec says, write by write. */
module Log {
  import opened Words
  import opened LogSpec
  import LogProtocol

  /** The disk after each of the first n block writes of a commit. */
  function CommitTrace(L: Layout, d: Disk, mem: Disk, bs: seq<int>, n: nat): (tr: seq<Disk>)
    requires Transaction(L, d, bs) && |mem| == |d| && n <= CommitLength(bs)
    ensures |tr| == n
  {
    seq(n, k requires 0 <= k < n => CommitDisk(L, d, mem, bs, k + 1))
  }

  /** The disk after each of the first n block writes of write_log. */
  function LogTrace(L: Layout, d: Disk, mem: Disk, bs: seq<int>, n: nat): (tr: seq<Disk>)
    requires L.Fits(d) && n <= |bs| < L.size && |mem| == |d| && HomeBlocks(L, d, bs)
    ensures |tr| == n
  {
    seq(n, k requires 0 <= k < n => LogDisk(L, d, mem, bs, k + 1))
  }

  /** The disk after each of the first n block writes of install_trans. */
  function InstallTrace(L: Layout, d: Disk, bs: seq<int>, n: nat): (tr: seq<Disk>)
    requires L.Fits(d) && n <= |bs| < L.size && HomeBlocks(L, d, bs)
    ensures |tr| == n
  {
    seq(n, k requires 0 <= k < n => InstallDisk(L, d, bs, k + 1))
  }

  lemma LogTraceNext(L: Layout, d: Disk, mem: Disk, bs: seq<int>, n: nat)
    requires L.Fits(d) && n < |bs| < L.size && |mem| == |d| && HomeBlocks(L, d, bs)
    ensures LogTrace(L, d, mem, bs, n + 1) == LogTrace(L, d, mem, bs, n) + [LogDisk(L, d, mem, bs, n + 1)]
  {
    hide LogDisk;
  }

  lemma InstallTraceNext(L: Layout, d: Disk, bs: seq<int>, n: nat)
    requires L.Fits(d) && n < |bs| < L.size && HomeBlocks(L, d, bs)
    ensures InstallTrace(L, d, bs, n + 1) == InstallTrace(L, d, bs, n) + [InstallDisk(L, d, bs, n + 1)]
  {
    hide InstallDisk;
  }

  /** The phases of a commit, one after the other, are its whole trace. */
  lemma CommitPhases(L: Layout, d: Disk, mem: Disk, bs: seq<int>)
    requires Transaction(L, d, bs) && |mem| == |d| && bs != []
    ensures var n := |bs|;
      var g := LogDisk(L, d, mem, bs, n);
      var h := HeadDisk(L, g, bs);
      CommitTrace(L, d, mem, bs, CommitLength(bs)) ==
      LogTrace(L, d, mem, bs, n) + [h] + InstallTrace(L, h, bs, n) + [HeadDisk(L, InstallDisk(L, h, bs, n), [])]
  {
    hide Word, PutHead, SetWord, LogDisk, HeadDisk, InstallDisk, CommitDisk, Head, LogTrace, InstallTrace,
      CommitTrace, FourAt;
    var n := |bs|;
    var g := LogDisk(L, d, mem, bs, n);
    var h := HeadDisk(L, g, bs);
    var a, b, last := LogTrace(L, d, mem, bs, n), InstallTrace(L, h, bs, n), HeadDisk(L, InstallDisk(L, h, bs, n), []);
    var whole := CommitTrace(L, d, mem, bs, CommitLength(bs));
    forall k | 0 <= k < |whole| ensures whole[k] == FourAt(a, h, b, last, k) { PhaseAt(L, d, mem, bs, k); }
    Four(whole, a, h, b, last);
  }

  lemma PhaseAt(L: Layout, d: Disk, mem: Disk, bs: seq<int>, k: nat)
    requires Transaction(L, d, bs) && |mem| == |d| && bs != [] && k < CommitLength(bs)
    ensures var n := |bs|;
      var h := HeadDisk(L, LogDisk(L, d, mem, bs, n), bs);
      CommitTrace(L, d, mem, bs, CommitLength(bs))[k] ==
      FourAt(LogTrace(L, d, mem, bs, n), h, InstallTrace(L, h, bs, n), HeadDisk(L, InstallDisk(L, h, bs, n), []), k)
  {
    hide Word, PutHead, SetWord, LogDisk, HeadDisk, InstallDisk, CommitDisk, Head, LogTrace, InstallTrace, CommitTrace;
    var n := |bs|;
    CommitPhaseAt(L, d, mem, bs, k);
    CommitTraceAt(L, d, mem, bs, CommitLength(bs), k);
    if k < n { LogTraceAt(L, d, mem, bs, n, k); }
    if n < k <= 2 * n { InstallTraceAt(L, HeadDisk(L, LogDisk(L, d, mem, bs, n), bs), bs, n, k - n - 1); }
  }

  lemma CommitTraceAt(L: Layout, d: Disk, mem: Disk, bs: seq<int>, n: nat, k: nat)
    requires Transaction(L, d, bs) && |mem| == |d| && k < n <= CommitLength(bs)
    ensures CommitTrace(L, d, mem, bs, n)[k] == CommitDisk(L, d, mem, bs, k + 1)
  {
    hide CommitDisk;
  }

  lemma LogTraceAt(L: Layout, d: Disk, mem: Disk, bs: seq<int>, n: nat, k: nat)
    requires L.Fits(d) && k < n <= |bs| < L.size && |mem| == |d| && HomeBlocks(L, d, bs)
    ensures LogTrace(L, d, mem, bs, n)[k] == LogDisk(L, d, mem, bs, k + 1)
  {
    hide LogDisk;
  }

  lemma InstallTraceAt(L: Layout, d: Disk, bs: seq<int>, n: nat, k: nat)
    requires L.Fits(d) && k < n <= |bs| < L.size && HomeBlocks(L, d, bs)
    ensures InstallTrace(L, d, bs, n)[k] == InstallDisk(L, d, bs, k + 1)
  {
    hide InstallDisk;
  }

  /** Element k of two sequences, each followed by one more element. */
  function FourAt<T>(a: seq<T>, x: T, b: seq<T>, y: T, k: nat): (v: T) {
    if k < |a| then a[k] else if k == |a| then x else if k <= |a| + |b| then b[k - |a| - 1] else y
  }

  lemma Four<T>(whole: seq<T>, a: seq<T>, x: T, b: seq<T>, y: T)
    requires |whole| == |a| + |b| + 2 && forall k :: 0 <= k < |whole| ==> whole[k] == FourAt(a, x, b, y, k)
    ensures whole == a + [x] + b + [y]
  {
  }

  lemma CommitPhaseAt(L: Layout, d: Disk, mem: Disk, bs: seq<int>, k: nat)
    requires Transaction(L, d, bs) && |mem| == |d| && bs != [] && k < CommitLength(bs)
    ensures var n := |bs|;
      var h := HeadDisk(L, LogDisk(L, d, mem, bs, n), bs);
      CommitDisk(L, d, mem, bs, k + 1) ==
      if k < n then LogDisk(L, d, mem, bs, k + 1)
      else if k == n then h
      else if k <= 2 * n then InstallDisk(L, h, bs, k - n)
      else HeadDisk(L, InstallDisk(L, h, bs, n), [])
  {
    hide Word, PutHead, SetWord, LogDisk, HeadDisk, InstallDisk;
    InstallNothing(L, HeadDisk(L, LogDisk(L, d, mem, bs, |bs|), bs), bs);
  }

  lemma InstallNothing(L: Layout, d: Disk, bs: seq<int>)
    requires L.Fits(d) && |bs| < L.size && HomeBlocks(L, d, bs)
    ensures InstallDisk(L, d, bs, 0) == d
  {
  }

  /** The disk after each of the first n block writes of a recovery. */
  function RecoverTrace(L: Layout, d: Disk, n: nat): (tr: seq<Disk>)
    requires Recoverable(L, d) && n <= RecoverLength(L, d)
    ensures |tr| == n
  {
    seq(n, k requires 0 <= k < n => RecoverDisk(L, d, k + 1))
  }

  // ---------------------------------------------------------------- the loops

  /** Cache and disk agree on the log region. */
  ghost predicate SameLog(L: Layout, disk: Disk, mem: Disk) {
    |mem| == |disk| && forall b :: 0 <= b < |disk| && L.InLog(b) ==> mem[b] == disk[b]
  }

  /** write_log has copied the first `tail` blocks. */
  ghost predicate Logging(L: Layout, d: Disk, m: Disk, bs: seq<int>, disk: Disk, mem: Disk, tr: seq<Disk>, tail: nat) {
    && Transaction(L, d, bs) && |m| == |d| && tail <= |bs|
    && disk == LogDisk(L, d, m, bs, tail) && SameHome(L, m, mem) && SameLog(L, disk, mem)
    && tr == LogTrace(L, d, m, bs, tail)
  }

  lemma LogStart(L: Layout, d: Disk, m: Disk, bs: seq<int>)
    requires Transaction(L, d, bs) && SameLog(L, d, m)
    ensures Logging(L, d, m, bs, d, m, [], 0)
  {
  }

  lemma LogStep(L: Layout, d: Disk, m: Disk, bs: seq<int>, disk: Disk, mem: Disk, tr: seq<Disk>, tail: nat)
    requires Logging(L, d, m, bs, disk, mem, tr, tail) && tail < |bs|
    ensures 0 <= bs[tail] < |mem| && L.start + tail + 1 < |disk| == |mem|
    ensures var b, x := L.start + tail + 1, mem[bs[tail]];
      Logging(L, d, m, bs, disk[b := x], mem[b := x], tr + [disk[b := x]], tail + 1)
  {
    hide Word, LogTrace;
    LogTraceNext(L, d, m, bs, tail);
  }

  lemma LogEnd(L: Layout, d: Disk, m: Disk, bs: seq<int>, disk: Disk, mem: Disk, tr: seq<Disk>)
    requires Logging(L, d, m, bs, disk, mem, tr, |bs|)
    ensures Transaction(L, disk, bs) && disk == LogDisk(L, d, m, bs, |bs|)
    ensures SameHome(L, m, mem) && SameLog(L, disk, mem)
    ensures tr == LogTrace(L, d, m, bs, |bs|)
  {
    hide Word;
  }

  /** install_trans has installed the first `tail` blocks. */
  ghost predicate Installing(L: Layout, d: Disk, m: Disk, bs: seq<int>, disk: Disk, mem: Disk, tr: seq<Disk>,
                             tail: nat)
  {
    && Transaction(L, d, bs) && |m| == |d| && tail <= |bs|
    && disk == InstallDisk(L, d, bs, tail) && mem == InstallDisk(L, m, bs, tail) && SameLog(L, disk, mem)
    && tr == InstallTrace(L, d, bs, tail)
  }

  lemma InstallStart(L: Layout, d: Disk, m: Disk, bs: seq<int>)
    requires Transaction(L, d, bs) && SameLog(L, d, m)
    ensures Installing(L, d, m, bs, d, m, [], 0)
  {
  }

  lemma InstallStep(L: Layout, d: Disk, m: Disk, bs: seq<int>, disk: Disk, mem: Disk, tr: seq<Disk>, tail: nat)
    requires Installing(L, d, m, bs, disk, mem, tr, tail) && tail < |bs|
    ensures 0 <= bs[tail] < |mem| && L.start + tail + 1 < |disk| == |mem|
    ensures var b, x := bs[tail], mem[L.start + tail + 1];
      Installing(L, d, m, bs, disk[b := x], mem[b := x], tr + [disk[b := x]], tail + 1)
  {
    hide Word, InstallTrace;
    InstallTraceNext(L, d, bs, tail);
  }

  lemma InstallEnd(L: Layout, d: Disk, m: Disk, bs: seq<int>, disk: Disk, mem: Disk, tr: seq<Disk>)
    requires Installing(L, d, m, bs, disk, mem, tr, |bs|)
    ensures Transaction(L, disk, bs) && disk == InstallDisk(L, d, bs, |bs|) && SameLog(L, disk, mem)
    ensures mem == InstallDisk(L, m, bs, |bs|) && tr == InstallTrace(L, d, bs, |bs|)
  {
    hide Word, InstallDisk;
  }

  // ---------------------------------------------------------------- the protocol's steps

  /** A protocol state that the variables of log.c stand for; the log region of the cache is not part
      of it. */
  ghost predicate Shows(L: Layout, s: LogProtocol.State, disk: Disk, mem: Disk, bs: seq<int>, outstanding: nat,
                        committing: bool)
  {
    && s.disk == disk && |s.mem| == |mem| == |disk| && SameHome(L, mem, s.mem) && s.lh == bs
    && |s.ops| == outstanding && (if committing then s.mode.Committing? else s.mode.Running?)
  }

  /** The block writes of commit are commit steps of the protocol, one each, with the same disks. */
  lemma {:induction false} CommitRun(L: Layout, s: LogProtocol.State, n: nat) returns (run: seq<LogProtocol.State>)
    requires LogProtocol.Contents(L, s) && s.mode == LogProtocol.Committing(0) && n <= CommitLength(s.lh)
    requires s.origin == s.disk
    ensures |run| == n + 1 && run[0] == s && LogProtocol.Contents(L, run[n])
    ensures run[n].mode == LogProtocol.Committing(n) && run[n].lh == s.lh
    ensures run[n].mem == s.mem && run[n].origin == s.disk && run[n].ops == s.ops
    ensures forall k :: 0 <= k < n ==> LogProtocol.CommitStep(L, run[k], run[k + 1])
    ensures forall k :: 0 <= k < n ==> run[k + 1].disk == CommitTrace(L, s.disk, s.mem, s.lh, n)[k]
  {
    hide Word, HeadDisk, CommitDisk, Transaction, LogProtocol.Agree, LogProtocol.AgreeOff, LogProtocol.CommitStep;
    if n == 0 {
      run := [s];
    } else {
      var r := CommitRun(L, s, n - 1);
      var u := NextCommitStep(L, r[n - 1]);
      run := r + [u];
      forall k | 0 <= k < n ensures LogProtocol.CommitStep(L, run[k], run[k + 1]) {
        if k < n - 1 { assert LogProtocol.CommitStep(L, r[k], r[k + 1]); }
      }
      forall k | 0 <= k < n ensures run[k + 1].disk == CommitTrace(L, s.disk, s.mem, s.lh, n)[k] {
        if k < n - 1 { assert r[k + 1].disk == CommitTrace(L, s.disk, s.mem, s.lh, n - 1)[k]; }
      }
    }
  }

  lemma NextCommitStep(L: Layout, s: LogProtocol.State) returns (t: LogProtocol.State)
    requires LogProtocol.Contents(L, s) && s.mode.Committing? && s.mode.done < CommitLength(s.lh)
    ensures LogProtocol.CommitStep(L, s, t) && LogProtocol.Contents(L, t)
    ensures t.mode == LogProtocol.Committing(s.mode.done + 1)
    ensures t.lh == s.lh && t.mem == s.mem && t.origin == s.origin && t.ops == s.ops
    ensures t.disk == CommitDisk(L, s.origin, s.mem, s.lh, s.mode.done + 1)
  {
    hide Word, HeadDisk, CommitDisk, PutHead, SetWord, LogProtocol.Agree, LogProtocol.AgreeOff;
    var k, n := s.mode.done, |s.lh|;
    var u := s.(mode := LogProtocol.Committing(k + 1));
    t := if k < n then u.(disk := s.disk[L.start + 1 + k := s.mem[s.lh[k]]])
    else if k == n then u.(disk := HeadDisk(L, s.disk, s.lh), committed := s.mem, raw := {}, durable := |s.events|)
    else if k <= 2 * n then u.(disk := s.disk[s.lh[k - n - 1] := s.disk[L.start + k - n]])
    else u.(disk := HeadDisk(L, s.disk, []));
    LogProtocol.CommitStepContents(L, s, t);
  }

  /** A commit reads only home blocks of the cache. */
  lemma {:induction false} LogDiskSame(L: Layout, d: Disk, m: Disk, e: Disk, bs: seq<int>, k: nat)
    requires Transaction(L, d, bs) && |m| == |d| && SameHome(L, m, e) && k <= |bs|
    ensures LogDisk(L, d, m, bs, k) == LogDisk(L, d, e, bs, k)
  {
    if k > 0 {
      LogDiskSame(L, d, m, e, bs, k - 1);
      assert L.Home(d, bs[k - 1]);
    }
  }

  lemma CommitTraceSame(L: Layout, d: Disk, m: Disk, e: Disk, bs: seq<int>)
    requires Transaction(L, d, bs) && |m| == |d| && SameHome(L, m, e)
    ensures CommitTrace(L, d, m, bs, CommitLength(bs)) == CommitTrace(L, d, e, bs, CommitLength(bs))
    ensures CommitDisk(L, d, m, bs, CommitLength(bs)) == CommitDisk(L, d, e, bs, CommitLength(bs))
  {
    hide Transaction, LogDisk, HeadDisk, InstallDisk;
    forall k | 0 <= k <= CommitLength(bs) ensures CommitDisk(L, d, m, bs, k) == CommitDisk(L, d, e, bs, k) {
      LogDiskSame(L, d, m, e, bs, if k <= |bs| then k else |bs|);
    }
  }

  /** The cached log region holds copies of the listed blocks. */
  ghost predicate Copied(L: Layout, m: Disk, bs: seq<int>, mem: Disk)
    requires Transaction(L, m, bs)
  {
    |mem| == |m| && forall i {:trigger bs[i]} :: 0 <= i < |bs| ==> mem[L.start + 1 + i] == m[bs[i]]
  }

  /** Installing from the log what was copied there from the cache leaves the cached home blocks alone. */
  lemma InstallsCached(L: Layout, m: Disk, bs: seq<int>, mem: Disk)
    requires Transaction(L, m, bs) && SameHome(L, m, mem) && Copied(L, m, bs, mem)
    ensures SameHome(L, m, InstallDisk(L, mem, bs, |bs|))
  {
    hide InstallDisk;
    forall b | L.Home(m, b) ensures InstallDisk(L, mem, bs, |bs|)[b] == m[b] {
      if b in bs {
        var i :| 0 <= i < |bs| && bs[i] == b;
        InstalledAt(L, mem, bs, |bs|, i);
      } else {
        NotInstalledAt(L, mem, bs, |bs|, b);
      }
    }
  }

  lemma CopiesMade(L: Layout, d: Disk, m: Disk, bs: seq<int>, disk: Disk, mem: Disk)
    requires Transaction(L, d, bs) && |m| == |d|
    requires disk == HeadDisk(L, LogDisk(L, d, m, bs, |bs|), bs) && SameLog(L, disk, mem)
    ensures Transaction(L, m, bs) && Copied(L, m, bs, mem)
  {
    hide Head, HeadDisk, LogDisk, Word;
    var g := LogDisk(L, d, m, bs, |bs|);
    forall i | 0 <= i < |bs| ensures mem[L.start + 1 + i] == m[bs[i]] {
      assert g[L.start + 1 + i] == m[bs[i]];
    }
  }

  /** The disks of a stretch of a run. */
  ghost function Disks(run: seq<LogProtocol.State>): (ds: seq<Disk>) {
    seq(|run|, k requires 0 <= k < |run| => run[k].disk)
  }

  class Log {
    const L: Layout
    var disk: Disk              // the device
    var mem: Disk               // what bread returns for each block
    var n: nat                  // lh.n
    var block: array<int>       // lh.block
    var outstanding: nat
    var committing: bool
    ghost var trace: seq<Disk>  // the disk after every block write so far

    function Header(): (bs: seq<int>)
      requires n <= block.Length
      reads this, block
    {
      block[..n]
    }

    /** The header lists distinct home blocks and fits its array.  It may be too long for the log. */
    ghost predicate Lists()
      reads this, block
    {
      && block.Length == LOGSIZE && n <= LOGSIZE
      && L.Fits(disk) && HomeBlocks(L, disk, block[..n])
      && (forall i, j :: 0 <= i < j < n ==> block[i] != block[j])
      && SameLog(L, disk, mem)
    }

    /** The same with a header that fits the log: n < L.size. */
    ghost predicate Valid()
      reads this, block
    {
      && block.Length == LOGSIZE && n <= LOGSIZE
      && Transaction(L, disk, block[..n])
      && SameLog(L, disk, mem)
    }

    /** The variables show protocol state s. */
    ghost predicate At(s: LogProtocol.State)
      requires n <= block.Length
      reads this, block
    {
      Shows(L, s, disk, mem, Header(), outstanding, committing)
    }

    /** initlog: a disk that may have crashed at any time is recovered before the first operation. */
    constructor (L: Layout, disk: Disk)
      requires Recoverable(L, disk)
      ensures Valid() && this.L == L && this.disk == this.mem == Recovered(L, disk) && Header() == []
      ensures trace == RecoverTrace(L, disk, RecoverLength(L, disk))
      ensures outstanding == 0 && !committing
      ensures fresh(block)
    {
      hide Word, Recovered;
      this.L := L;
      this.disk, mem, n := disk, disk, 0;
      block := new int[LOGSIZE];
      outstanding, committing := 0, false;
      trace := [];
      new;
      RecoverFromLog();
    }

    /** bwrite: cache and device both get the block. */
    method WriteBlock(b: nat, data: Block)
      requires b < |disk| == |mem|
      modifies this`disk, this`mem, this`trace
      ensures disk == old(disk)[b := data] && mem == old(mem)[b := data]
      ensures trace == old(trace) + [disk]
    {
      disk := disk[b := data];
      mem := mem[b := data];
      trace := trace + [disk];
    }

    /** begin_op, one pass through its loop: take the protocol's step, or sleep if there is none. */
    method BeginOp(ghost s: LogProtocol.State) returns (entered: bool, ghost t: LogProtocol.State)
      requires Lists() && At(s)
      modifies this`outstanding
      ensures entered <==> !committing && n + (old(outstanding) + 1) * MAXOPBLOCKS <= LOGSIZE
      ensures outstanding == if entered then old(outstanding) + 1 else old(outstanding)
      ensures if entered then LogProtocol.Begin(L, s, t) && At(t) else forall u :: !LogProtocol.Begin(L, s, u)
    {
      t := s;
      if committing {
        return false, t;
      } else if n + (outstanding + 1) * MAXOPBLOCKS > LOGSIZE {
        return false, t;
      }
      outstanding := outstanding + 1;
      t := s.(ops := s.ops + [LogProtocol.Op(s.nextOp, 0, s.txn, false)], nextOp := s.nextOp + 1);
      return true, t;
    }

    /** log_write's tests, which operation i makes without log.lock: pass them, or panic. */
    method LogTest(ghost s: LogProtocol.State, ghost i: nat) returns (ok: bool, ghost t: LogProtocol.State)
      requires Lists() && At(s) && (outstanding >= 1 ==> i < outstanding && !s.ops[i].passed)
      ensures ok <==> n < LOGSIZE && n < L.size - 1 && outstanding >= 1
      ensures if ok then LogProtocol.LogTest(L, s, t, i) && At(t) else LogProtocol.TooBig(L, s) || s.ops == []
    {
      t := s;
      if n >= LOGSIZE || n >= L.size - 1 {
        return false, t;
      }
      if outstanding < 1 {
        return false, t;
      }
      t := s.(ops := s.ops[i := s.ops[i].(passed := true)]);
      return true, t;
    }

    /** The rest of log_write by operation i: record the block unless it is already listed.  Nothing is
        done if that would write past the header's array. */
    method LogWrite(b: nat, data: Block, ghost s: LogProtocol.State, ghost i: nat)
      returns (past: bool, ghost t: LogProtocol.State)
      requires Lists() && L.Home(disk, b) && At(s) && i < outstanding && s.ops[i].passed
      modifies this`mem, this`n, block
      ensures past <==> b !in old(Header()) && old(n) == LOGSIZE
      ensures Lists() && (old(Valid()) && old(n) < L.size - 1 && !past ==> Valid())
      ensures !past ==> Header() == LogProtocol.Absorb(old(Header()), b) && mem == old(mem)[b := data]
      ensures past ==> Header() == old(Header()) && mem == old(mem)
      ensures !past ==> LogProtocol.LogWrite(L, s, t, i, b, data) && At(t)
    {
      hide Word, LogProtocol.Charged;
      t := s;
      past := RecordBlock(b);
      if !past {
        mem := mem[b := data];
        t := s.(lh := LogProtocol.Absorb(s.lh, b), mem := s.mem[b := data],
                ops := s.ops[i := LogProtocol.Charged(s.ops[i], s.lh, b)],
                events := s.events + [LogProtocol.Event(s.ops[i].id, s.ops[i].txn, b, data)]);
      }
    }

    /** log_write's loop and what follows it. */
    method RecordBlock(b: nat) returns (past: bool)
      requires Lists() && L.Home(disk, b)
      modifies this`n, block
      ensures past <==> b !in old(Header()) && old(n) == LOGSIZE
      ensures Lists() && Header() == if past then old(Header()) else LogProtocol.Absorb(old(Header()), b)
    {
      ghost var bs := block[..n];
      var i := 0;
      while i < n
        invariant 0 <= i <= n && block[..n] == bs
        invariant b !in bs[..i]
      {
        if block[i] == b {
          break;
        }
        i := i + 1;
      }
      assert i < n ==> b in bs;
      assert i == n ==> bs[..i] == bs;
      if i == LOGSIZE {
        return true;
      }
      block[i] := b;
      if i == n {
        n := n + 1;
        assert block[..n] == bs + [b];
      } else {
        assert block[..n] == bs;
      }
      return false;
    }

    /** end_op's first critical section, by operation i: the last operation out starts the commit. */
    method EndOp(ghost s: LogProtocol.State, ghost i: nat) returns (commit: bool, ghost t: LogProtocol.State)
      requires Lists() && outstanding >= 1 && !committing && At(s) && i < outstanding && !s.ops[i].passed
      modifies this`outstanding, this`committing
      ensures outstanding == old(outstanding) - 1
      ensures commit == committing == (outstanding == 0)
      ensures LogProtocol.End(L, s, t, i) && At(t)
    {
      t := s.(ops := s.ops[..i] + s.ops[i + 1..],
              mode := if |s.ops| == 1 then LogProtocol.Committing(0) else s.mode,
              origin := if |s.ops| == 1 then s.disk else s.origin);
      outstanding := outstanding - 1;
      commit := false;
      if outstanding == 0 {
        commit, committing := true, true;
      }
    }

    /** read_head. */
    method ReadHead()
      requires block.Length == LOGSIZE && |mem| == |disk| && Recoverable(L, disk)
      requires mem[L.start] == disk[L.start]
      modifies this`n, block
      ensures n <= LOGSIZE && Header() == Head(disk[L.start])
    {
      var hb := mem[L.start];
      n := Word(hb, 0);
      var i := 0;
      while i < n
        invariant 0 <= i <= n == Word(hb, 0) <= LOGSIZE
        invariant forall j :: 0 <= j < i ==> block[j] == Word(hb, j + 1)
      {
        block[i] := Word(hb, i + 1);
        i := i + 1;
      }
    }

    /** The loop of write_head: the in-memory header laid over a buffer. */
    method EncodeHead(old_hb: Block) returns (hb: Block)
      requires Valid()
      ensures hb == PutHead(old_hb, Header(), n)
    {
      hide Word, SetWord;
      ghost var bs := block[..n];
      hb := SetWord(old_hb, 0, n);
      var i := 0;
      while i < n
        invariant 0 <= i <= n
        invariant hb == PutHead(old_hb, bs, i)
      {
        assert block[i] == bs[i];
        hb := SetWord(hb, i + 1, block[i]);
        i := i + 1;
      }
    }

    /** write_head: the commit point when n > 0, the erasure when n == 0. */
    method WriteHead()
      requires Valid()
      modifies this`disk, this`mem, this`trace
      ensures Valid() && disk == HeadDisk(L, old(disk), Header()) && trace == old(trace) + [disk]
      ensures mem == old(mem)[L.start := disk[L.start]]
    {
      hide Word, SetWord, PutHead;
      var hb := EncodeHead(mem[L.start]);
      WriteBlock(L.start, hb);
    }

    /** write_log: cached blocks to log blocks. */
    method WriteLog()
      requires Valid()
      modifies this`disk, this`mem, this`trace
      ensures Valid() && disk == LogDisk(L, old(disk), old(mem), Header(), n)
      ensures trace == old(trace) + LogTrace(L, old(disk), old(mem), Header(), n)
      ensures SameHome(L, old(mem), mem)
    {
      hide Word, LogTrace, LogDisk, Transaction, Logging, SameLog, SameHome;
      ghost var bs, d, m := block[..n], disk, mem;
      ghost var tr: seq<Disk> := [];
      LogStart(L, d, m, bs);
      var tail := 0;
      while tail < n
        invariant 0 <= tail <= n <= block.Length && block[..n] == bs && trace == old(trace) + tr
        invariant Logging(L, d, m, bs, disk, mem, tr, tail)
      {
        assert bs[tail] == block[tail];
        LogStep(L, d, m, bs, disk, mem, tr, tail);
        WriteBlock(L.start + tail + 1, mem[block[tail]]);
        tr := tr + [disk];
        tail := tail + 1;
      }
      LogEnd(L, d, m, bs, disk, mem, tr);
    }

    /** install_trans: log blocks to their homes, on the device and in the cache. */
    method InstallTrans()
      requires Valid()
      modifies this`disk, this`mem, this`trace
      ensures Valid() && disk == InstallDisk(L, old(disk), Header(), n)
      ensures trace == old(trace) + InstallTrace(L, old(disk), Header(), n)
      ensures mem == InstallDisk(L, old(mem), Header(), n)
    {
      hide Word, InstallTrace, InstallDisk, Transaction, Installing, SameLog;
      ghost var bs, d, m := block[..n], disk, mem;
      ghost var tr: seq<Disk> := [];
      InstallStart(L, d, m, bs);
      var tail := 0;
      while tail < n
        invariant 0 <= tail <= n <= block.Length && block[..n] == bs && trace == old(trace) + tr
        invariant Installing(L, d, m, bs, disk, mem, tr, tail)
      {
        assert bs[tail] == block[tail];
        InstallStep(L, d, m, bs, disk, mem, tr, tail);
        WriteBlock(block[tail], mem[L.start + tail + 1]);
        tr := tr + [disk];
        tail := tail + 1;
      }
      InstallEnd(L, d, m, bs, disk, mem, tr);
    }

    /** commit(): every disk it passes through is the one CommitDisk gives, so CommitAtomic covers a
        crash after each of its block writes. */
    method Commit()
      requires Valid() && Word(disk[L.start], 0) == 0
      modifies this`disk, this`mem, this`trace, this`n
      ensures Valid() && n == 0 && Word(disk[L.start], 0) == 0
      ensures trace == old(trace)
        + CommitTrace(L, old(disk), old(mem), old(Header()), CommitLength(old(Header())))
      ensures Updated(L, old(disk), old(mem), old(Header()), disk)
      ensures disk == CommitDisk(L, old(disk), old(mem), old(Header()), CommitLength(old(Header())))
      ensures SameHome(L, old(mem), mem)
    {
      hide Word, SetWord, PutHead, LogDisk, HeadDisk, InstallDisk, LogTrace, InstallTrace, Updated;
      ghost var bs, d, m := block[..n], disk, mem;
      if n > 0 {
        WriteLog();
        WriteHead();
        CopiesMade(L, d, m, bs, disk, mem);
        InstallsCached(L, m, bs, mem);
        InstallTrans();
        n := 0;
        assert block[..n] == [];
        WriteHead();
        CommitPhases(L, d, m, bs);
        AfterClear(L, d, m, bs);
      } else {
        NothingUpdated(L, d, m);
      }
    }

    /** What the last operation out does after end_op's first critical section: commit, then clear
        `committing`.  Seen from the protocol, it takes all commit steps from s and ends the commit. */
    method FinishEndOp(ghost s: LogProtocol.State) returns (ghost run: seq<LogProtocol.State>)
      requires Valid() && committing && At(s)
      requires LogProtocol.Contents(L, s) && s.mode == LogProtocol.Committing(0) && s.origin == s.disk
      modifies this`disk, this`mem, this`trace, this`n, this`committing
      ensures Valid() && n == 0 && !committing && Word(disk[L.start], 0) == 0
      ensures |run| == CommitLength(old(Header())) + 2 && run[0] == s && LogProtocol.Contents(L, run[|run| - 2])
      ensures forall k :: 0 <= k < |run| - 2 ==> LogProtocol.CommitStep(L, run[k], run[k + 1])
      ensures trace == old(trace) + Disks(run[1..|run| - 1])
      ensures LogProtocol.CommitDone(run[|run| - 2], run[|run| - 1]) && At(run[|run| - 1])
    {
      hide Word, SetWord, PutHead, LogDisk, HeadDisk, InstallDisk, CommitDisk, Updated, LogProtocol.CommitStep,
        Transaction, SameLog, CommitTrace;
      ghost var bs, d, m := block[..n], disk, mem;
      assert Transaction(L, d, bs);
      Commit();
      committing := false;
      run := CommitRun(L, s, CommitLength(bs));
      CommitTraceSame(L, d, m, s.mem, bs);
      ghost var u := run[CommitLength(bs)];
      assert CommitTrace(L, d, s.mem, bs, CommitLength(bs)) == Disks(run[1..]);
      assert (run + [u])[1..|run|] == run[1..];
      run := run + [u.(mode := LogProtocol.Running, lh := [], txn := u.txn + 1)];
    }

    static lemma NothingUpdated(L: Layout, d: Disk, m: Disk)
      requires |d| == |m|
      ensures Updated(L, d, m, [], d)
    {
    }

    /** recover_from_log: ends in the recovered disk with an empty log. */
    method RecoverFromLog()
      requires block.Length == LOGSIZE && mem == disk && Recoverable(L, disk)
      modifies this`disk, this`mem, this`trace, this`n, block
      ensures Valid() && n == 0 && disk == mem == Recovered(L, old(disk))
      ensures trace == old(trace) + RecoverTrace(L, old(disk), RecoverLength(L, old(disk)))
    {
      hide Word, SetWord, PutHead, HeadDisk, InstallDisk;
      ghost var d := disk;
      ReadHead();
      ghost var bs := block[..n];
      InstallTrans();
      n := 0;
      assert block[..n] == [];
      WriteHead();
      assert disk == Recovered(L, d);
      assert InstallTrace(L, d, bs, |bs|) + [disk] == RecoverTrace(L, d, |bs| + 1);
    }
  }
}
