/** The group-commit protocol of log.c as a state machine over every interleaving of file-system
    operations, single disk-block writes, crashes and (interrupted) recoveries. */
module LogProtocol {
  import opened Words
  import opened LogSpec

  /** A bracket opened by begin_op: its identity, how many blocks its log_writes have added to the
      header, the transaction it joined, and whether it is inside log_write, past the size test. */
  datatype Op = Op(id: nat, used: nat, txn: nat, passed: bool)

  /** One log_write: which operation made it, in which transaction, and what it stored. */
  datatype Event = Event(op: nat, txn: nat, b: int, data: Block)

  /** What the log is doing; `done` counts the block writes made so far. */
  datatype Mode = Running | Committing(done: nat) | Recovering(done: nat)

  /** `disk` is what survives a crash, `mem` what bread returns, `lh` the in-memory header, `ops` the
      outstanding operations.  The remaining components are history: `origin` is the disk when the
      current commit or recovery began, `committed` the logical disk of the last commit point, `raw`
      the blocks written with bwrite since then, `ever` all blocks so written, `events` every
      log_write that has not been lost and `durable` how many of those are committed. */
  datatype State = State(disk: Disk, mem: Disk, lh: seq<int>, ops: seq<Op>, mode: Mode,
                         origin: Disk, committed: Disk, raw: set<int>, ever: set<int>,
                         events: seq<Event>, durable: nat, txn: nat, nextOp: nat)

  // ---------------------------------------------------------------- steps

  ghost predicate Init(L: Layout, s: State) {
    && L.Fits(s.disk) && Word(s.disk[L.start], 0) == 0
    && s == State(s.disk, s.disk, [], [], Running, s.disk, s.disk, {}, {}, [], 0, 0, 0)
  }

  /** begin_op, on the pass through its loop that does not sleep. */
  ghost predicate Begin(L: Layout, s: State, t: State) {
    && s.mode.Running?
    && |s.lh| + (|s.ops| + 1) * MAXOPBLOCKS <= LOGSIZE
    && t == s.(ops := s.ops + [Op(s.nextOp, 0, s.txn, false)], nextOp := s.nextOp + 1)
  }

  /** The size test at the head of log_write, made without log.lock: it panics. */
  predicate TooBig(L: Layout, s: State) {
    |s.lh| >= LOGSIZE || |s.lh| >= L.size - 1
  }

  /** log_write's absorption: a block already listed is not listed again. */
  function Absorb(lh: seq<int>, b: int): (r: seq<int>)
    ensures b in r && |lh| <= |r| <= |lh| + 1
  {
    if b in lh then lh else lh + [b]
  }

  /** log_write passes its tests. */
  ghost predicate LogTest(L: Layout, s: State, t: State, i: nat) {
    && i < |s.ops| && !s.ops[i].passed && !TooBig(L, s)
    && t == s.(ops := s.ops[i := s.ops[i].(passed := true)])
  }

  /** The operation that wrote block b, charged for it if the header did not list it yet. */
  function Charged(op: Op, lh: seq<int>, b: int): (r: Op) {
    Op(op.id, if b in lh then op.used else op.used + 1, op.txn, false)
  }

  /** log_write's critical section: the block is listed, whatever the size of the header is by now. */
  ghost predicate LogWrite(L: Layout, s: State, t: State, i: nat, b: int, data: Block) {
    && i < |s.ops| && s.ops[i].passed && L.Home(s.disk, b) && |s.mem| == |s.disk|
    && t == s.(lh := Absorb(s.lh, b), mem := s.mem[b := data],
               ops := s.ops[i := Charged(s.ops[i], s.lh, b)],
               events := s.events + [Event(s.ops[i].id, s.ops[i].txn, b, data)])
  }

  /** A block that writei sends straight to its home with bwrite. */
  ghost predicate DirectWrite(L: Layout, s: State, t: State, i: nat, b: int, data: Block) {
    && i < |s.ops| && !s.ops[i].passed && L.Home(s.disk, b) && |s.mem| == |s.disk|
    && t == s.(disk := s.disk[b := data], mem := s.mem[b := data],
               raw := s.raw + {b}, ever := s.ever + {b})
  }

  /** end_op's first critical section. */
  ghost predicate End(L: Layout, s: State, t: State, i: nat) {
    && i < |s.ops| && !s.ops[i].passed && !s.mode.Committing?
    && t == s.(ops := s.ops[..i] + s.ops[i + 1..],
               mode := if |s.ops| == 1 then Committing(0) else s.mode,
               origin := if |s.ops| == 1 then s.disk else s.origin)
  }

  /** write_log can copy the header's block k: no test keeps the copy inside the log. */
  predicate CanCopy(L: Layout, s: State, k: nat) {
    k < |s.lh| && 0 <= s.lh[k] < |s.mem| && L.start + 1 + k < |s.disk|
  }

  /** The cache after a copy to block b.  The cached log region is not part of the state. */
  function Cached(L: Layout, mem: Disk, b: nat, data: Block): (r: Disk)
    requires b < |mem|
    ensures |r| == |mem|
  {
    if L.InLog(b) then mem else mem[b := data]
  }

  /** The next block write of commit(): see LogSpec.CommitDisk for the order.  The first header
      write is the commit point. */
  ghost predicate CommitStep(L: Layout, s: State, t: State) {
    && s.mode.Committing? && s.mode.done < CommitLength(s.lh) && |s.mem| == |s.disk|
    && (CanCopy(L, s, s.mode.done) || Transaction(L, s.disk, s.lh))
    && var k, n := s.mode.done, |s.lh|;
    var u := s.(mode := Committing(k + 1));
    if k < n then
      var b, data := L.start + 1 + k, s.mem[s.lh[k]];
      t == u.(disk := s.disk[b := data], mem := Cached(L, s.mem, b, data))
    else if k == n then
      t == u.(disk := HeadDisk(L, s.disk, s.lh), committed := s.mem, raw := {}, durable := |s.events|)
    else if k <= 2 * n then t == u.(disk := s.disk[s.lh[k - n - 1] := s.disk[L.start + k - n]])
    else t == u.(disk := HeadDisk(L, s.disk, []))
  }

  /** end_op's last critical section; commit() has left the in-memory header empty. */
  ghost predicate CommitDone(s: State, t: State) {
    && s.mode.Committing? && s.mode.done == CommitLength(s.lh)
    && t == s.(mode := Running, lh := [], txn := s.txn + 1)
  }

  /** Power fails and the machine boots: memory is gone and read_head loads the header. */
  ghost predicate Crash(L: Layout, s: State, t: State) {
    && Recoverable(L, s.disk) && |s.committed| == |s.disk| && s.durable <= |s.events|
    && t == s.(mem := s.disk, lh := Head(s.disk[L.start]), ops := [], mode := Recovering(0),
               origin := s.disk, committed := AfterLoss(L, s.disk, s.committed, s.raw), raw := {},
               events := s.events[..s.durable], txn := s.txn + 1)
  }

  /** The commit point after a crash: blocks written around the log hold whatever recovery leaves. */
  ghost function AfterLoss(L: Layout, d: Disk, committed: Disk, raw: set<int>): (r: Disk)
    requires Recoverable(L, d) && |committed| == |d|
    ensures |r| == |d|
    ensures forall b :: 0 <= b < |d| ==> r[b] == if b in raw then Recovered(L, d)[b] else committed[b]
  {
    seq(|d|, b requires 0 <= b < |d| => if b in raw then Recovered(L, d)[b] else committed[b])
  }

  /** The next block write of recover_from_log. */
  ghost predicate RecoverStep(L: Layout, s: State, t: State) {
    && s.mode.Recovering? && s.mode.done <= |s.lh| && Transaction(L, s.disk, s.lh)
    && var k := s.mode.done;
    var d := if k < |s.lh| then s.disk[s.lh[k] := s.disk[L.start + 1 + k]] else HeadDisk(L, s.disk, []);
    t == s.(disk := d, mem := d, mode := Recovering(k + 1))
  }

  ghost predicate RecoverDone(s: State, t: State) {
    && s.mode.Recovering? && s.mode.done == |s.lh| + 1
    && t == s.(mode := Running, lh := [])
  }

  ghost predicate Next(L: Layout, s: State, t: State) {
    || Begin(L, s, t)
    || (exists i: nat :: LogTest(L, s, t, i))
    || (exists i: nat, b, data: Block :: LogWrite(L, s, t, i, b, data))
    || (exists i: nat, b, data: Block :: DirectWrite(L, s, t, i, b, data))
    || (exists i: nat :: End(L, s, t, i))
    || CommitStep(L, s, t)
    || CommitDone(s, t)
    || Crash(L, s, t)
    || RecoverStep(L, s, t)
    || RecoverDone(s, t)
  }

  ghost predicate Run(L: Layout, run: seq<State>) {
    && |run| > 0
    && Init(L, run[0])
    && forall i :: 0 <= i < |run| - 1 ==> Next(L, run[i], run[i + 1])
  }

  // ---------------------------------------------------------------- invariant

  ghost predicate Agree(L: Layout, d: Disk, e: Disk, except: set<int>) {
    |d| == |e| && forall b {:trigger e[b]} :: L.Home(d, b) && b !in except ==> d[b] == e[b]
  }

  ghost predicate AgreeOff(L: Layout, d: Disk, e: Disk, bs: seq<int>) {
    |d| == |e| && forall b {:trigger e[b]} :: L.Home(d, b) && b !in bs ==> d[b] == e[b]
  }

  /** Disk, memory and commit point are in step. */
  ghost predicate Contents(L: Layout, s: State) {
    && Transaction(L, s.disk, s.lh) && |s.mem| == |s.disk| == |s.committed| == |s.origin|
    && match s.mode
       case Running =>
         Word(s.disk[L.start], 0) == 0 && Agree(L, s.disk, s.committed, s.raw)
         && AgreeOff(L, s.disk, s.mem, s.lh)
       case Committing(k) =>
         && Word(s.origin[L.start], 0) == 0 && Transaction(L, s.origin, s.lh)
         && k <= CommitLength(s.lh) && s.disk == CommitDisk(L, s.origin, s.mem, s.lh, k)
         && AgreeOff(L, s.origin, s.mem, s.lh)
         && (k <= |s.lh| ==> Agree(L, s.origin, s.committed, s.raw))
         && (k > |s.lh| ==> s.committed == s.mem && s.raw == {})
       case Recovering(k) =>
         && Recoverable(L, s.origin) && s.lh == Head(s.origin[L.start]) && s.mem == s.disk
         && k <= RecoverLength(L, s.origin) && s.disk == RecoverDisk(L, s.origin, k)
         && Agree(L, Recovered(L, s.origin), s.committed, {}) && s.raw == {}
  }

  /** No operation is outstanding while a commit or a recovery writes. */
  predicate Alone(s: State) { s.mode.Running? || s.ops == [] }

  /** Each operation belongs to one transaction, and outstanding ones to the current transaction. */
  ghost predicate Membership(s: State) {
    && (forall i :: 0 <= i < |s.ops| ==> s.ops[i].txn == s.txn && s.ops[i].id < s.nextOp)
    && (forall i, j :: 0 <= i < j < |s.ops| ==> s.ops[i].id != s.ops[j].id)
    && (forall e :: e in s.events ==> e.op < s.nextOp && e.txn <= s.txn)
    && (forall e, f :: e in s.events && f in s.events && e.op == f.op ==> e.txn == f.txn)
    && (forall e, i :: e in s.events && 0 <= i < |s.ops| && e.op == s.ops[i].id ==> e.txn == s.txn)
  }

  /** The committed events are exactly those of finished transactions. */
  ghost predicate Durability(s: State) {
    && s.durable <= |s.events|
    && (forall e :: e in s.events[..s.durable] ==> e.txn < s.txn || CommitPassed(s))
    && (forall e :: e in s.events[s.durable..] ==> e.txn == s.txn)
    && (CommitPassed(s) || s.mode.Recovering? || s.lh == [] ==> s.durable == |s.events|)
  }

  predicate CommitPassed(s: State) {
    s.mode.Committing? && s.mode.done > |s.lh|
  }

  /** What block b holds after the given log_writes, starting from `base`. */
  ghost function Last(base: Disk, events: seq<Event>, b: int): (data: Block)
    requires 0 <= b < |base|
  {
    if events == [] then base[b]
    else if events[|events| - 1].b == b then events[|events| - 1].data
    else Last(base, events[..|events| - 1], b)
  }

  /** A disk holds, outside the log and the blocks written around it, what the events stored. */
  ghost predicate Replays(L: Layout, base: Disk, events: seq<Event>, d: Disk, except: set<int>) {
    |d| == |base| && forall b {:trigger d[b]} :: L.Home(d, b) && b !in except ==> d[b] == Last(base, events, b)
  }

  ghost predicate History(L: Layout, base: Disk, s: State) {
    && s.raw <= s.ever && s.durable <= |s.events|
    && Replays(L, base, s.events[..s.durable], s.committed, s.ever)
    && (!s.mode.Recovering? ==> Replays(L, base, s.events, s.mem, s.ever))
  }

  /** Who belongs to which transaction and what is durable: this holds whatever becomes of the header. */
  ghost predicate Order(s: State) { Alone(s) && Membership(s) && Durability(s) }

  ghost predicate Inv(L: Layout, base: Disk, s: State) { Contents(L, s) && Order(s) && History(L, base, s) }

  /** The header fits its array and the log region. */
  predicate Room(L: Layout, s: State) { |s.lh| <= LOGSIZE && |s.lh| < L.size }

  // ---------------------------------------------------------------- order

  lemma BeginOrders(L: Layout, s: State, t: State)
    requires Order(s) && Begin(L, s, t)
    ensures Order(t)
  {
  }

  lemma LogTestOrders(L: Layout, s: State, t: State, i: nat)
    requires Order(s) && LogTest(L, s, t, i)
    ensures Order(t)
  {
    assert forall j :: 0 <= j < |t.ops| ==> t.ops[j].id == s.ops[j].id && t.ops[j].txn == s.ops[j].txn;
  }

  lemma LogWriteOrders(L: Layout, s: State, t: State, i: nat, b: int, data: Block)
    requires Order(s) && LogWrite(L, s, t, i, b, data)
    ensures Order(t)
  {
    hide Membership, Durability;
    LogWriteMembership(s, t, i, b, data);
    LogWriteDurability(s, t, i, b, data);
  }

  ghost predicate Logs(s: State, t: State, i: nat, b: int, data: Block) {
    && i < |s.ops| && t.ops == s.ops[i := Charged(s.ops[i], s.lh, b)]
    && t.events == s.events + [Event(s.ops[i].id, s.ops[i].txn, b, data)]
    && t.durable == s.durable && t.txn == s.txn && t.nextOp == s.nextOp && t.mode == s.mode
    && t.lh != []
  }

  lemma LogWriteMembership(s: State, t: State, i: nat, b: int, data: Block)
    requires Membership(s) && Logs(s, t, i, b, data)
    ensures Membership(t)
  {
    var e := Event(s.ops[i].id, s.ops[i].txn, b, data);
    assert forall f :: f in t.events ==> f in s.events || f == e;
    assert forall j :: 0 <= j < |t.ops| ==> t.ops[j].id == s.ops[j].id && t.ops[j].txn == s.ops[j].txn;
  }

  lemma LogWriteDurability(s: State, t: State, i: nat, b: int, data: Block)
    requires Durability(s) && Membership(s) && s.mode.Running? && Logs(s, t, i, b, data)
    ensures Durability(t)
  {
    assert t.events[..s.durable] == s.events[..s.durable];
    assert t.events[s.durable..] == s.events[s.durable..] + [Event(s.ops[i].id, s.ops[i].txn, b, data)];
  }

  lemma EndOrders(L: Layout, s: State, t: State, i: nat)
    requires Order(s) && End(L, s, t, i)
    ensures Order(t)
  {
    hide Membership;
    EndMembership(L, s, t, i);
    assert s.mode.Running?;
  }

  lemma EndMembership(L: Layout, s: State, t: State, i: nat)
    requires Membership(s) && End(L, s, t, i)
    ensures Membership(t)
  {
    assert forall j :: 0 <= j < |t.ops| ==> t.ops[j] == s.ops[if j < i then j else j + 1];
  }

  lemma CommitStepOrders(L: Layout, s: State, t: State)
    requires Order(s) && CommitStep(L, s, t)
    ensures Order(t)
  {
    hide Word, Transaction, HeadDisk, Membership, CanCopy;
    assert s.events[..|s.events|] == s.events && s.events[|s.events|..] == [];
    CommitStepMembership(L, s, t);
    MembershipTxn(s);
  }

  lemma MembershipTxn(s: State)
    requires Membership(s)
    ensures forall e :: e in s.events ==> e.txn <= s.txn
  {
  }

  lemma CommitStepMembership(L: Layout, s: State, t: State)
    requires Membership(s) && CommitStep(L, s, t)
    ensures Membership(t)
  {
    hide Word, Transaction, HeadDisk, CanCopy;
    assert t.ops == s.ops && t.events == s.events && t.nextOp == s.nextOp && t.txn == s.txn;
  }

  lemma CommitDoneOrders(s: State, t: State)
    requires Order(s) && CommitDone(s, t)
    ensures Order(t)
  {
  }

  lemma CrashOrders(L: Layout, s: State, t: State)
    requires Order(s) && Crash(L, s, t)
    ensures Order(t)
  {
    hide Word, AfterLoss, Recovered, Recoverable, Head, Membership, Durability;
    CrashEvents(s, t);
  }

  /** What a crash does to operations and events. */
  lemma CrashEvents(s: State, t: State)
    requires Membership(s) && Durability(s)
    requires t.ops == [] && t.mode.Recovering? && t.events == s.events[..s.durable] && t.durable == s.durable
    requires t.txn == s.txn + 1 && t.nextOp == s.nextOp
    ensures Membership(t) && Durability(t)
  {
    assert t.events[..t.durable] == t.events && t.events[t.durable..] == [];
    assert forall e :: e in t.events ==> e in s.events;
  }

  /** bwrite and the steps of recovery. */
  lemma SameOrder(s: State, t: State)
    requires Order(s) && t.ops == s.ops && t.events == s.events && t.durable == s.durable && t.txn == s.txn
    requires t.nextOp == s.nextOp
    requires (t.mode == s.mode && t.lh == s.lh) || (s.mode.Recovering? && t.mode.Recovering?)
             || (s.mode.Recovering? && t.mode.Running?)
    ensures Order(t)
  {
  }

  /** Every step, overrun header or not, keeps operations and transactions in order. */
  lemma NextOrders(L: Layout, s: State, t: State)
    requires Order(s) && Next(L, s, t)
    ensures Order(t)
  {
    hide Order, Begin, LogTest, LogWrite, End, CommitStep, CommitDone, Crash, Word, Transaction, HeadDisk;
    if Begin(L, s, t) {
      BeginOrders(L, s, t);
    } else if i: nat :| LogTest(L, s, t, i) {
      LogTestOrders(L, s, t, i);
    } else if i: nat, b, data: Block :| LogWrite(L, s, t, i, b, data) {
      LogWriteOrders(L, s, t, i, b, data);
    } else if i: nat :| End(L, s, t, i) {
      EndOrders(L, s, t, i);
    } else if CommitStep(L, s, t) {
      CommitStepOrders(L, s, t);
    } else if CommitDone(s, t) {
      CommitDoneOrders(s, t);
    } else if Crash(L, s, t) {
      CrashOrders(L, s, t);
    } else {
      SameOrder(s, t);
    }
  }

  // ---------------------------------------------------------------- each step keeps the invariant

  lemma InitInv(L: Layout, s: State)
    requires Init(L, s)
    ensures Inv(L, s.disk, s) && Room(L, s)
  {
    assert s.events == [];
  }

  // Begin.

  lemma BeginKeeps(L: Layout, base: Disk, s: State, t: State)
    requires Inv(L, base, s) && Begin(L, s, t)
    ensures Inv(L, base, t)
  {
    hide Transaction, Agree, AgreeOff, Replays, Word, Order;
    BeginOrders(L, s, t);
  }

  // log_write.

  lemma LogTestKeeps(L: Layout, base: Disk, s: State, t: State, i: nat)
    requires Inv(L, base, s) && LogTest(L, s, t, i)
    ensures Inv(L, base, t)
  {
    hide Transaction, Agree, AgreeOff, Replays, Word, Order;
    LogTestOrders(L, s, t, i);
  }

  lemma LogWriteKeeps(L: Layout, base: Disk, s: State, t: State, i: nat, b: int, data: Block)
    requires Inv(L, base, s) && LogWrite(L, s, t, i, b, data) && Room(L, t)
    ensures Inv(L, base, t)
  {
    hide Contents, Membership, Durability, History;
    LogWriteOrders(L, s, t, i, b, data);
    LogWriteContents(L, s, t, i, b, data);
    LogWriteHistory(L, base, s, t, i, b, data);
  }

  lemma LogWriteContents(L: Layout, s: State, t: State, i: nat, b: int, data: Block)
    requires Contents(L, s) && Alone(s) && LogWrite(L, s, t, i, b, data) && Room(L, t)
    ensures Contents(L, t)
  {
    hide Word;
    assert AgreeOff(L, t.disk, t.mem, t.lh);
    assert Transaction(L, t.disk, t.lh);
  }

  lemma LogWriteHistory(L: Layout, base: Disk, s: State, t: State, i: nat, b: int, data: Block)
    requires History(L, base, s) && s.mode.Running? && LogWrite(L, s, t, i, b, data)
    ensures History(L, base, t)
  {
    assert t.events[..s.durable] == s.events[..s.durable];
    assert t.events[..|t.events| - 1] == s.events;
  }

  // bwrite of a data block.

  lemma DirectWriteKeeps(L: Layout, base: Disk, s: State, t: State, i: nat, b: int, data: Block)
    requires Inv(L, base, s) && DirectWrite(L, s, t, i, b, data)
    ensures Inv(L, base, t)
  {
    hide Word, Last, Membership, Durability;
    SameOrder(s, t);
    assert Agree(L, t.disk, t.committed, t.raw);
    assert AgreeOff(L, t.disk, t.mem, t.lh);
    assert Transaction(L, t.disk, t.lh);
  }

  // end_op.

  lemma EndKeeps(L: Layout, base: Disk, s: State, t: State, i: nat)
    requires Inv(L, base, s) && End(L, s, t, i)
    ensures Inv(L, base, t)
  {
    hide Agree, AgreeOff, Replays, Word, Transaction, Membership, Durability;
    EndOrders(L, s, t, i);
    assert s.mode.Running?;
  }

  // commit().

  lemma CommitStepKeeps(L: Layout, base: Disk, s: State, t: State)
    requires Inv(L, base, s) && CommitStep(L, s, t)
    ensures Inv(L, base, t)
  {
    hide Agree, AgreeOff, Replays, Word, Transaction, CommitDisk, HeadDisk, Order, Contents, CanCopy;
    CommitStepOrders(L, s, t);
    CommitStepContents(L, s, t);
    CommitStepCache(L, s, t);
    assert s.events[..|s.events|] == s.events;
    assert History(L, base, t) by { assert s.mode.Committing?; }
  }

  /** A commit of a header within its bounds changes no cached home block. */
  lemma CommitStepCache(L: Layout, s: State, t: State)
    requires Contents(L, s) && CommitStep(L, s, t)
    ensures t.mem == s.mem
  {
    hide Word, HeadDisk, CommitDisk, Agree, AgreeOff, CanCopy;
  }

  lemma CommitStepContents(L: Layout, s: State, t: State)
    requires Contents(L, s) && CommitStep(L, s, t)
    ensures Contents(L, t)
  {
    hide Agree, AgreeOff, Word, PutHead, SetWord, HeadDisk, CommitDisk;
    var k, n := s.mode.done, |s.lh|;
    assert |t.disk| == |s.disk|;
    CommitDiskNext(L, s.origin, s.mem, s.lh, k);
    assert Transaction(L, t.disk, t.lh);
  }

  /** The block written by step k takes CommitDisk from k to k + 1. */
  lemma CommitDiskNext(L: Layout, d: Disk, mem: Disk, bs: seq<int>, k: nat)
    requires Transaction(L, d, bs) && |mem| == |d| && k < CommitLength(bs)
    ensures var c, n := CommitDisk(L, d, mem, bs, k), |bs|;
      CommitDisk(L, d, mem, bs, k + 1) ==
        if k < n then c[L.start + 1 + k := mem[bs[k]]]
        else if k == n then HeadDisk(L, c, bs)
        else if k <= 2 * n then c[bs[k - n - 1] := c[L.start + k - n]]
        else HeadDisk(L, c, [])
  {
    hide Word, PutHead, SetWord, HeadDisk;
  }

  lemma CommitDoneKeeps(L: Layout, base: Disk, s: State, t: State)
    requires Inv(L, base, s) && CommitDone(s, t)
    ensures Inv(L, base, t)
  {
    hide Contents, Replays, Order;
    CommitDoneOrders(s, t);
    CommitDoneContents(L, s, t);
  }

  lemma CommitDoneContents(L: Layout, s: State, t: State)
    requires Contents(L, s) && CommitDone(s, t)
    ensures Contents(L, t)
  {
    hide Word, PutHead, SetWord, HeadDisk, InstallDisk, CommitDisk, Recovered;
    if s.lh == [] {
      assert CommitDisk(L, s.origin, s.mem, [], 0) == s.origin by { CommitNothing(L, s.origin, s.mem); }
    } else {
      AfterClear(L, s.origin, s.mem, s.lh);
    }
  }

  lemma CommitNothing(L: Layout, d: Disk, mem: Disk)
    requires Transaction(L, d, []) && |mem| == |d|
    ensures CommitDisk(L, d, mem, [], 0) == d
  {
  }

  // Crashes and recovery.

  /** At every moment, recovering from the disk as it stands restores the last commit point. */
  lemma Recovers(L: Layout, s: State)
    requires Contents(L, s)
    ensures Recoverable(L, s.disk)
    ensures Agree(L, Recovered(L, s.disk), s.committed, s.raw)
  {
    hide Word, PutHead, SetWord, HeadDisk, InstallDisk, CommitDisk, Recovered;
    match s.mode
    case Running =>
      forall b {:trigger s.committed[b]} | L.Home(s.disk, b) ensures Recovered(L, s.disk)[b] == s.disk[b] {
        RecoveredOther(L, s.disk, b);
      }
    case Committing(k) =>
      CommitAtomic(L, s.origin, s.mem, s.lh, k);
    case Recovering(k) =>
      CutRecovery(L, s.origin, k);
  }

  lemma CrashKeeps(L: Layout, base: Disk, s: State, t: State)
    requires Inv(L, base, s) && Crash(L, s, t)
    ensures Inv(L, base, t)
  {
    hide Contents, History, Order, Word, AfterLoss, Recovered, Recoverable, Head;
    CrashOrders(L, s, t);
    CrashContents(L, s, t);
    CrashHistory(L, base, s, t);
  }

  lemma CrashContents(L: Layout, s: State, t: State)
    requires Contents(L, s) && Crash(L, s, t)
    ensures Contents(L, t)
  {
    hide Word, PutHead, SetWord, HeadDisk, CommitDisk, Recovered;
    Recovers(L, s);
  }

  lemma CrashHistory(L: Layout, base: Disk, s: State, t: State)
    requires History(L, base, s) && Crash(L, s, t)
    ensures History(L, base, t)
  {
    hide Last, Word, Recovered;
    assert t.events[..t.durable] == s.events[..s.durable];
  }

  lemma RecoverStepKeeps(L: Layout, base: Disk, s: State, t: State)
    requires Inv(L, base, s) && RecoverStep(L, s, t)
    ensures Inv(L, base, t)
  {
    hide Contents, Replays, Transaction, Word, HeadDisk, Order;
    SameOrder(s, t);
    RecoverStepContents(L, s, t);
  }

  lemma RecoverStepContents(L: Layout, s: State, t: State)
    requires Contents(L, s) && RecoverStep(L, s, t)
    ensures Contents(L, t)
  {
    hide Word, PutHead, SetWord, HeadDisk, Agree, Recovered, RecoverDisk, InstallDisk;
    RecoverDiskNext(L, s.origin, s.mode.done);
    assert |t.disk| == |s.disk|;
    assert t.disk == RecoverDisk(L, s.origin, s.mode.done + 1);
  }

  /** The block written by step k takes RecoverDisk from k to k + 1. */
  lemma RecoverDiskNext(L: Layout, d: Disk, k: nat)
    requires Recoverable(L, d) && k < RecoverLength(L, d)
    ensures var r, bs := RecoverDisk(L, d, k), Head(d[L.start]);
      RecoverDisk(L, d, k + 1) == if k < |bs| then r[bs[k] := r[L.start + 1 + k]] else HeadDisk(L, r, [])
  {
    hide Word, PutHead, SetWord, HeadDisk, Head;
  }

  lemma RecoverDoneKeeps(L: Layout, base: Disk, s: State, t: State)
    requires Inv(L, base, s) && RecoverDone(s, t)
    ensures Inv(L, base, t)
  {
    hide PutHead, SetWord, InstallDisk, Last, Order;
    SameOrder(s, t);
    assert s.durable == |s.events| by { RecoveringDurable(s); }
    assert t.disk == Recovered(L, s.origin);
    assert t.events[..t.durable] == t.events;
    assert forall b :: L.Home(t.mem, b) ==> t.mem[b] == s.committed[b];
  }

  lemma RecoveringDurable(s: State)
    requires Order(s) && s.mode.Recovering?
    ensures s.durable == |s.events|
  {
  }

  // ---------------------------------------------------------------- whole runs

  /** A step that leaves the header within its bounds keeps the invariant. */
  lemma NextKeeps(L: Layout, base: Disk, s: State, t: State)
    requires Inv(L, base, s) && Next(L, s, t) && Room(L, t)
    ensures Inv(L, base, t)
  {
    hide Inv, Begin, LogTest, LogWrite, DirectWrite, End, CommitStep, CommitDone, Crash, RecoverStep, RecoverDone;
    if Begin(L, s, t) {
      BeginKeeps(L, base, s, t);
    } else if i: nat :| LogTest(L, s, t, i) {
      LogTestKeeps(L, base, s, t, i);
    } else if i: nat, b, data: Block :| LogWrite(L, s, t, i, b, data) {
      LogWriteKeeps(L, base, s, t, i, b, data);
    } else if i: nat, b, data: Block :| DirectWrite(L, s, t, i, b, data) {
      DirectWriteKeeps(L, base, s, t, i, b, data);
    } else if i: nat :| End(L, s, t, i) {
      EndKeeps(L, base, s, t, i);
    } else if CommitStep(L, s, t) {
      CommitStepKeeps(L, base, s, t);
    } else if CommitDone(s, t) {
      CommitDoneKeeps(L, base, s, t);
    } else if Crash(L, s, t) {
      CrashKeeps(L, base, s, t);
    } else if RecoverStep(L, s, t) {
      RecoverStepKeeps(L, base, s, t);
    } else {
      RecoverDoneKeeps(L, base, s, t);
    }
  }

  lemma {:induction false} RunOrders(L: Layout, run: seq<State>, i: nat)
    requires Run(L, run) && i < |run|
    ensures Order(run[i])
  {
    hide Order, Next;
    if i == 0 {
      InitOrder(L, run[0]);
    } else {
      RunOrders(L, run, i - 1);
      assert Next(L, run[i - 1], run[(i - 1) + 1]);
      NextOrders(L, run[i - 1], run[i]);
    }
  }

  lemma InitOrder(L: Layout, s: State)
    requires Init(L, s)
    ensures Order(s)
  {
  }

  /** The header has been within its bounds up to state i. */
  predicate Roomy(L: Layout, run: seq<State>, i: nat)
    requires i < |run|
  {
    forall j :: 0 <= j <= i ==> Room(L, run[j])
  }

  lemma {:induction false} RunKeeps(L: Layout, run: seq<State>, i: nat)
    requires Run(L, run) && i < |run| && Roomy(L, run, i)
    ensures Inv(L, run[0].disk, run[i])
  {
    hide Inv, Next, Init, Room;
    if i == 0 {
      InitInv(L, run[0]);
    } else {
      RunKeeps(L, run, i - 1);
      assert Next(L, run[i - 1], run[(i - 1) + 1]);
      NextKeeps(L, run[0].disk, run[i - 1], run[i]);
    }
  }

  /** Crash safety of every run whose header stays within its bounds: cut it after any step, crash any
      number of times during recovery, then recover fully.  A home block that is never written around the
      log holds the data of the last committed log_write to it (its initial contents if there is none); a
      block not written around the log since the last commit point holds its contents at that point. */
  lemma CrashSafety(L: Layout, run: seq<State>, i: nat, cuts: seq<nat>, b: int)
    requires Run(L, run) && i < |run| && Roomy(L, run, i) && L.Home(run[i].disk, b)
    ensures Recoverable(L, run[i].disk) && run[i].durable <= |run[i].events|
    ensures |run[i].committed| == |run[i].disk| == |run[0].disk|
    ensures var r := Recovered(L, AfterCrashes(L, run[i].disk, cuts));
      && |r| == |run[i].disk|
      && (b !in run[i].raw ==> r[b] == run[i].committed[b])
      && (b !in run[i].ever ==> r[b] == Last(run[0].disk, run[i].events[..run[i].durable], b))
  {
    hide Recovered, AfterCrashes, Last, Next, Init, Order, Word, Roomy;
    RunKeeps(L, run, i);
    var s := run[i];
    Recovers(L, s);
    CrashesDuringRecovery(L, s.disk, cuts);
    var r := Recovered(L, AfterCrashes(L, s.disk, cuts));
    assert r[b] == Recovered(L, s.disk)[b];
    if b !in s.raw { assert s.committed[b] == r[b]; }
  }

  /** In every run, operations are all or nothing: the log_writes of one operation belong to one
      transaction, two of them are both committed or both not, and an operation that has not ended has
      none committed. */
  lemma OperationsAtomic(L: Layout, run: seq<State>, i: nat)
    requires Run(L, run) && i < |run|
    ensures var s := run[i];
      && s.durable <= |s.events|
      && (forall e, f :: e in s.events && f in s.events && e.op == f.op ==> e.txn == f.txn)
      && (forall e, f :: e in s.events[..s.durable] && f in s.events[s.durable..] ==> e.op != f.op)
      && (forall e, j :: e in s.events[..s.durable] && 0 <= j < |s.ops| ==> e.op != s.ops[j].id)
  {
    hide Next, Init;
    RunOrders(L, run, i);
    var s := run[i];
    assert forall e :: e in s.events[..s.durable] ==> e in s.events;
    assert forall e :: e in s.events[s.durable..] ==> e in s.events;
    if CommitPassed(s) { assert s.events[s.durable..] == []; }
  }

  /** Group-commit isolation in every run: while a commit (or a recovery) is writing, no operation is
      outstanding, so no log_write can occur and end_op's panic is out of reach. */
  lemma Isolation(L: Layout, run: seq<State>, i: nat)
    requires Run(L, run) && i < |run|
    ensures !run[i].mode.Running? ==> run[i].ops == []
  {
    hide Next, Init, Membership, Durability;
    RunOrders(L, run, i);
  }

  /** A header within its bounds lists distinct home blocks. */
  lemma HeaderListsOnce(L: Layout, run: seq<State>, i: nat)
    requires Run(L, run) && i < |run| && Roomy(L, run, i)
    ensures Transaction(L, run[i].disk, run[i].lh)
  {
    hide Next, Init, Transaction, CommitDisk, RecoverDisk, Recoverable, Order, Roomy;
    RunKeeps(L, run, i);
  }

  // ---------------------------------------------------------------- reservations

  /** Log space promised to outstanding operations and not yet used. */
  function Reserved(ops: seq<Op>): (n: int) {
    if ops == [] then 0 else MAXOPBLOCKS - ops[0].used + Reserved(ops[1..])
  }

  lemma {:induction false} ReservedUpdate(ops: seq<Op>, i: nat, op: Op)
    requires i < |ops|
    ensures Reserved(ops[i := op]) == Reserved(ops) + ops[i].used - op.used
  {
    if i > 0 { ReservedUpdate(ops[1..], i - 1, op); assert ops[i := op][1..] == ops[1..][i - 1 := op]; }
    else { assert ops[i := op][1..] == ops[1..]; }
  }

  lemma {:induction false} ReservedAppend(ops: seq<Op>, more: seq<Op>)
    ensures Reserved(ops + more) == Reserved(ops) + Reserved(more)
  {
    if ops == [] { assert ops + more == more; }
    else { ReservedAppend(ops[1..], more); assert (ops + more)[1..] == ops[1..] + more; }
  }

  lemma {:induction false} ReservedBounds(ops: seq<Op>)
    requires forall i :: 0 <= i < |ops| ==> ops[i].used <= MAXOPBLOCKS
    ensures 0 <= Reserved(ops) <= |ops| * MAXOPBLOCKS
  {
    if ops != [] { ReservedBounds(ops[1..]); }
  }

  lemma ReservedSplit(ops: seq<Op>, i: nat)
    requires i < |ops| && forall j :: 0 <= j < |ops| ==> ops[j].used <= MAXOPBLOCKS
    ensures Reserved(ops) == Reserved(ops[..i] + ops[i + 1..]) + MAXOPBLOCKS - ops[i].used
    ensures Reserved(ops) >= MAXOPBLOCKS - ops[i].used
  {
    assert ops == ops[..i] + ops[i..];
    ReservedAppend(ops[..i], ops[i..]);
    ReservedAppend(ops[..i], ops[i + 1..]);
    assert ops[i..][1..] == ops[i + 1..];
    ReservedBounds(ops[..i]);
    ReservedBounds(ops[i + 1..]);
  }

  /** No outstanding operation has added more than m blocks to the header. */
  predicate Modest(s: State, m: nat) { forall i :: 0 <= i < |s.ops| ==> s.ops[i].used <= m }

  ghost predicate Within(run: seq<State>, m: nat) { forall i :: 0 <= i < |run| ==> Modest(run[i], m) }

  lemma BeginReserves(L: Layout, s: State, t: State)
    requires Begin(L, s, t) && Modest(s, MAXOPBLOCKS)
    ensures |t.lh| + Reserved(t.ops) <= LOGSIZE
  {
    ReservedAppend(s.ops, [Op(s.nextOp, 0, s.txn, false)]);
    ReservedBounds(s.ops);
  }

  lemma CrashReserves(L: Layout, s: State, t: State)
    requires Crash(L, s, t)
    ensures t.ops == [] && |t.lh| <= LOGSIZE && |t.lh| < L.size
  {
    hide Word, Recovered, AfterLoss, Head;
  }

  /** A step of modest operations keeps the header within what is not reserved. */
  lemma NextReserves(L: Layout, s: State, t: State)
    requires Next(L, s, t) && Modest(s, MAXOPBLOCKS) && |s.lh| + Reserved(s.ops) <= LOGSIZE
    ensures |t.lh| + Reserved(t.ops) <= LOGSIZE
  {
    hide Word, Transaction, HeadDisk, CommitDisk, Crash, AfterLoss, Head;
    if Begin(L, s, t) { BeginReserves(L, s, t); }
    if Crash(L, s, t) { CrashReserves(L, s, t); }
    if i: nat :| LogTest(L, s, t, i) { ReservedUpdate(s.ops, i, t.ops[i]); }
    if i: nat, b, data: Block :| LogWrite(L, s, t, i, b, data) { ReservedUpdate(s.ops, i, t.ops[i]); }
    if i: nat :| End(L, s, t, i) { ReservedSplit(s.ops, i); }
    ReservedBounds(s.ops);
  }

  /** As long as no operation adds more blocks than it reserved, the header and the unused reservations
      never exceed LOGSIZE, whatever operations, commits, crashes and recoveries interleave. */
  lemma {:induction false} RunReserves(L: Layout, run: seq<State>, i: nat)
    requires Run(L, run) && Within(run, MAXOPBLOCKS) && i < |run|
    ensures |run[i].lh| + Reserved(run[i].ops) <= LOGSIZE
  {
    hide Next, Word;
    if i > 0 {
      RunReserves(L, run, i - 1);
      assert Next(L, run[i - 1], run[(i - 1) + 1]);
      NextReserves(L, run[i - 1], run[i]);
    }
  }

  // ---------------------------------------------------------------- "too big a transaction"

  /** An operation that has added fewer than m blocks calls log_write, and the call panics. */
  predicate Panics(L: Layout, s: State, m: nat) {
    TooBig(L, s) && exists j :: 0 <= j < |s.ops| && !s.ops[j].passed && s.ops[j].used < m
  }

  /** With more than LOGSIZE log blocks, log_write never refuses an operation that has some of its
      reservation left ... */
  lemma NeverTooBig(L: Layout, run: seq<State>, i: nat)
    requires Run(L, run) && Within(run, MAXOPBLOCKS) && i < |run| && L.size > LOGSIZE
    ensures !Panics(L, run[i], MAXOPBLOCKS)
  {
    hide Next, Init;
    RunReserves(L, run, i);
    var s := run[i];
    assert Modest(s, MAXOPBLOCKS);
    if j :| 0 <= j < |s.ops| && s.ops[j].used < MAXOPBLOCKS {
      ReservedSplit(s.ops, j);
    }
  }

  /** The k-th block outside the log, counted from the end of a disk of n blocks. */
  function NthHome(L: Layout, n: nat, k: nat): (b: nat)
    requires k + L.size < n
    ensures !L.InLog(b) && b < n
  {
    if n - 1 - k >= L.start + L.size then n - 1 - k else n - 1 - k - L.size
  }

  function Homes(L: Layout, n: nat, k: nat): (bs: seq<int>)
    requires k + L.size <= n
    ensures |bs| == k
  {
    seq(k, i requires 0 <= i < k => NthHome(L, n, i))
  }

  /** What three operations that take turns in writing k distinct blocks have used. */
  function Three(k: nat): (ops: seq<Op>)
  {
    [Op(0, (k + 2) / 3, 0, false), Op(1, (k + 1) / 3, 0, false), Op(2, k / 3, 0, false)]
  }

  /** k blocks are listed and nothing else has happened since d was booted. */
  ghost predicate Listing(L: Layout, d: Disk, s: State, k: nat) {
    && k + L.size <= |d| && s.mode.Running? && s.disk == d && |s.mem| == |d| && s.lh == Homes(L, |d|, k)
    && s.ever == {} && s.durable == 0
    && forall e :: e in s.events ==> e.b in s.lh
  }

  /** Three operations have listed them. */
  ghost predicate Filling(L: Layout, d: Disk, s: State, k: nat) { Listing(L, d, s, k) && s.ops == Three(k) }

  ghost predicate Filled(L: Layout, d: Disk, run: seq<State>, k: nat) {
    Run(L, run) && run[0].disk == d && Filling(L, d, run[|run| - 1], k) && Within(run, MAXOPBLOCKS)
  }

  lemma WithinMore(run: seq<State>, m: nat)
    requires Within(run, MAXOPBLOCKS) && m >= MAXOPBLOCKS
    ensures Within(run, m)
  {
    forall i | 0 <= i < |run| ensures Modest(run[i], m) { assert Modest(run[i], MAXOPBLOCKS); }
  }

  lemma Extend(L: Layout, run: seq<State>, t: State)
    requires Run(L, run) && Next(L, run[|run| - 1], t)
    ensures Run(L, run + [t])
  {
    hide Next;
    var r := run + [t];
    forall i | 0 <= i < |r| - 1 ensures Next(L, r[i], r[i + 1]) {
      if i < |run| - 1 { assert Next(L, run[i], run[i + 1]); }
    }
  }

  /** A run goes on by one step. */
  lemma Step(L: Layout, run: seq<State>, t: State, m: nat) returns (r: seq<State>)
    requires Run(L, run) && Within(run, m) && Next(L, run[|run| - 1], t) && Modest(t, m)
    ensures Run(L, r) && Within(r, m) && r[0] == run[0] && r[|r| - 1] == t
  {
    hide Next, Init, Modest;
    Extend(L, run, t);
    r := run + [t];
    forall i | 0 <= i < |r| ensures Modest(r[i], m) {
      if i < |run| { assert Modest(run[i], m); }
    }
  }

  lemma ThreeBegins(L: Layout, d: Disk) returns (run: seq<State>)
    requires L.Fits(d) && Word(d[L.start], 0) == 0
    ensures Filled(L, d, run, 0)
  {
    hide Word;
    var s := State(d, d, [], [], Running, d, d, {}, {}, [], 0, 0, 0);
    var t := s.(ops := [Op(0, 0, 0, false)], nextOp := 1);
    var u := t.(ops := [Op(0, 0, 0, false), Op(1, 0, 0, false)], nextOp := 2);
    var v := u.(ops := Three(0), nextOp := 3);
    assert Begin(L, s, t) && Begin(L, t, u) && Begin(L, u, v);
    run := Step(L, [s], t, MAXOPBLOCKS);
    run := Step(L, run, u, MAXOPBLOCKS);
    run := Step(L, run, v, MAXOPBLOCKS);
  }

  function Past(op: Op): (r: Op) { op.(passed := true) }

  function Paid(op: Op): (r: Op) { Op(op.id, op.used + 1, op.txn, false) }

  /** Operation i passes log_write's test. */
  lemma TestStep(L: Layout, d: Disk, s: State, k: nat, i: nat) returns (t: State)
    requires Listing(L, d, s, k) && i < |s.ops| && !s.ops[i].passed && !TooBig(L, s)
    ensures Next(L, s, t) && Listing(L, d, t, k) && t.ops == s.ops[i := Past(s.ops[i])]
    ensures TooBig(L, t) <==> TooBig(L, s)
  {
    hide Homes;
    t := s.(ops := s.ops[i := Past(s.ops[i])]);
    assert LogTest(L, s, t, i);
  }

  /** It then lists the next block. */
  lemma ListStep(L: Layout, d: Disk, s: State, k: nat, i: nat, data: Block) returns (t: State)
    requires L.Fits(d) && Listing(L, d, s, k) && k + L.size < |d| && i < |s.ops| && s.ops[i].passed
    ensures Next(L, s, t) && Listing(L, d, t, k + 1) && t.ops == s.ops[i := Paid(s.ops[i])]
    ensures t.mem[NthHome(L, |d|, k)] == data
  {
    hide Homes, NthHome;
    var b := NthHome(L, |d|, k);
    NthHomeFresh(L, |d|, k);
    t := s.(lh := Absorb(s.lh, b), mem := s.mem[b := data], ops := s.ops[i := Charged(s.ops[i], s.lh, b)],
            events := s.events + [Event(s.ops[i].id, s.ops[i].txn, b, data)]);
    assert LogWrite(L, s, t, i, b, data);
  }

  lemma NthHomeFresh(L: Layout, n: nat, k: nat)
    requires k + L.size < n
    ensures NthHome(L, n, k) !in Homes(L, n, k)
    ensures Homes(L, n, k + 1) == Homes(L, n, k) + [NthHome(L, n, k)]
  {
    var b := NthHome(L, n, k);
    assert forall j :: 0 <= j < k ==> Homes(L, n, k)[j] != b;
  }

  /** Taking the k-th turn. */
  lemma Turn(L: Layout, d: Disk, s: State, k: nat) returns (t: State, u: State)
    requires L.Fits(d) && Filling(L, d, s, k) && k + L.size < |d| && !TooBig(L, s) && k < LOGSIZE
    ensures Next(L, s, t) && Next(L, t, u) && Modest(t, MAXOPBLOCKS) && Modest(u, MAXOPBLOCKS)
    ensures Filling(L, d, u, k + 1)
  {
    hide Next, Listing;
    t := TestStep(L, d, s, k, k % 3);
    u := ListStep(L, d, t, k, k % 3, d[0]);
  }

  lemma {:induction false} FillLog(L: Layout, d: Disk, k: nat) returns (run: seq<State>)
    requires L.Fits(d) && Word(d[L.start], 0) == 0 && L.size + LOGSIZE <= |d|
    requires k < L.size && k <= LOGSIZE
    ensures Filled(L, d, run, k)
  {
    hide Word, Next, Init;
    if k == 0 {
      run := ThreeBegins(L, d);
    } else {
      var r := FillLog(L, d, k - 1);
      var t, u := Turn(L, d, r[|r| - 1], k - 1);
      run := Step(L, r, t, MAXOPBLOCKS);
      run := Step(L, run, u, MAXOPBLOCKS);
    }
  }

  /** ... and the reservation is exact.  Let every operation add up to m blocks, m being at least the
      MAXOPBLOCKS that begin_op reserves.  Then log_write never refuses an operation below its m exactly
      when m is MAXOPBLOCKS and the log has more than LOGSIZE blocks.  (mkfs gives it LOGSIZE.) */
  lemma TooBigIff(L: Layout, d: Disk, m: nat)
    requires L.Fits(d) && Word(d[L.start], 0) == 0 && L.size + LOGSIZE <= |d| && m >= MAXOPBLOCKS
    ensures m == MAXOPBLOCKS && L.size > LOGSIZE <==>
      forall run: seq<State> :: Run(L, run) && run[0].disk == d && Within(run, m) ==> !Panics(L, run[|run| - 1], m)
  {
    hide Next, Init, Word;
    if m == MAXOPBLOCKS && L.size > LOGSIZE {
      forall run: seq<State> | Run(L, run) && run[0].disk == d && Within(run, m) ensures !Panics(L, run[|run| - 1], m) {
        NeverTooBig(L, run, |run| - 1);
      }
    } else {
      var run := FillLog(L, d, if L.size > LOGSIZE then LOGSIZE else L.size - 1);
      WithinMore(run, m);
      assert run[|run| - 1].ops[2].used < m;
    }
  }

  /** Blocks one chunk of filewrite can add: thirteen data blocks, which balloc zeroes through the log,
      and a bitmap, an indirect and an inode block. */
  const CHUNKBLOCKS := 13 + 1 + 1 + 1

  /** filewrite sizes its chunks by LOGSIZE, not by the reservation of one operation, so three of them
      reach the panic however large the log is. */
  lemma FilewriteOverruns(L: Layout, d: Disk) returns (run: seq<State>)
    requires L.Fits(d) && Word(d[L.start], 0) == 0 && L.size + LOGSIZE <= |d| && L.size > LOGSIZE
    ensures Run(L, run) && run[0].disk == d && Within(run, CHUNKBLOCKS) && Panics(L, run[|run| - 1], CHUNKBLOCKS)
  {
    hide Next, Init, Word;
    run := FillLog(L, d, LOGSIZE);
    WithinMore(run, CHUNKBLOCKS);
    assert run[|run| - 1].ops[2].used < CHUNKBLOCKS;
  }

  /** The size test comes before absorption, so even operations that keep to their reservations can
      panic on a block the header already lists, once all of them have used up all they reserved. */
  lemma AbsorbedPanics(L: Layout, d: Disk) returns (run: seq<State>, b: int)
    requires L.Fits(d) && Word(d[L.start], 0) == 0 && L.size + LOGSIZE <= |d| && L.size > LOGSIZE
    ensures Run(L, run) && run[0].disk == d && Within(run, MAXOPBLOCKS)
    ensures var s := run[|run| - 1]; s.ops != [] && !s.ops[0].passed && TooBig(L, s) && b in s.lh
  {
    hide Next, Init, Word;
    run := FillLog(L, d, LOGSIZE);
    b := run[|run| - 1].lh[0];
  }

  /** ... and only then. */
  lemma PanicsWhenUsedUp(L: Layout, run: seq<State>, i: nat)
    requires Run(L, run) && Within(run, MAXOPBLOCKS) && i < |run| && L.size > LOGSIZE
    ensures TooBig(L, run[i]) <==> |run[i].lh| == LOGSIZE
    ensures TooBig(L, run[i]) ==> forall j :: 0 <= j < |run[i].ops| ==> run[i].ops[j].used == MAXOPBLOCKS
  {
    hide Next, Init, Transaction, Reserved;
    RunReserves(L, run, i);
    var s := run[i];
    assert Modest(s, MAXOPBLOCKS);
    ReservedBounds(s.ops);
    forall j | 0 <= j < |s.ops| && TooBig(L, s) ensures s.ops[j].used == MAXOPBLOCKS {
      ReservedSplit(s.ops, j);
    }
  }

  // ---------------------------------------------------------------- the size test is not under log.lock

  /** With more than LOGSIZE log blocks, operations that keep to their reservations never overrun the
      header, although log_write tests its size before it takes the lock. */
  lemma ReservedRoomy(L: Layout, run: seq<State>, i: nat)
    requires Run(L, run) && Within(run, MAXOPBLOCKS) && i < |run| && L.size > LOGSIZE
    ensures Roomy(L, run, i)
  {
    hide Next, Init, Reserved;
    forall j | 0 <= j <= i ensures Room(L, run[j]) {
      RunReserves(L, run, j);
      assert Modest(run[j], MAXOPBLOCKS);
      ReservedBounds(run[j].ops);
    }
  }

  /** A log of one block has no room for any: log_write always panics. */
  predicate Barren(s: State) {
    s.lh == [] && forall i :: 0 <= i < |s.ops| ==> !s.ops[i].passed
  }

  lemma NextBarren(L: Layout, s: State, t: State)
    requires L.size == 1 && Next(L, s, t) && Barren(s)
    ensures Barren(t)
  {
    hide Word, Transaction, HeadDisk, CommitDisk, Crash, AfterLoss, Head;
    if Crash(L, s, t) { CrashReserves(L, s, t); }
    if i: nat :| End(L, s, t, i) { assert forall j :: 0 <= j < |t.ops| ==> t.ops[j] in s.ops; }
  }

  lemma {:induction false} RunBarren(L: Layout, run: seq<State>, i: nat)
    requires Run(L, run) && i < |run| && L.size == 1
    ensures Barren(run[i])
  {
    hide Next, Word;
    if i > 0 {
      RunBarren(L, run, i - 1);
      assert Next(L, run[i - 1], run[(i - 1) + 1]);
      NextBarren(L, run[i - 1], run[i]);
    }
  }

  /** Two operations pass the test when the header has room for one block, and then both list one. */
  lemma TwoTurns(L: Layout, d: Disk, run: seq<State>, k: nat, m: nat, data: Block) returns (r: seq<State>)
    requires L.Fits(d) && Filled(L, d, run, k) && k + 1 + L.size < |d| && !TooBig(L, run[|run| - 1])
    requires m >= MAXOPBLOCKS && k + 2 <= 3 * m
    ensures Run(L, r) && r[0].disk == d && Within(r, m) && Filling(L, d, r[|r| - 1], k + 2)
    ensures r[|r| - 1].mem[NthHome(L, |d|, k + 1)] == data
  {
    hide Word, Init, Next, Homes, NthHome, Filling;
    WithinMore(run, m);
    var t, u, v, w := PassTwice(L, d, run[|run| - 1], k, m, data);
    r := Step(L, run, t, m);
    r := Step(L, r, u, m);
    r := Step(L, r, v, m);
    r := Step(L, r, w, m);
  }

  lemma PassTwice(L: Layout, d: Disk, s: State, k: nat, m: nat, data: Block)
    returns (t: State, u: State, v: State, w: State)
    requires L.Fits(d) && Filling(L, d, s, k) && k + 1 + L.size < |d| && !TooBig(L, s) && k + 2 <= 3 * m
    ensures Next(L, s, t) && Next(L, t, u) && Next(L, u, v) && Next(L, v, w)
    ensures Modest(t, m) && Modest(u, m) && Modest(v, m) && Modest(w, m)
    ensures Filling(L, d, w, k + 2) && w.mem[NthHome(L, |d|, k + 1)] == data
  {
    hide Next, Listing, NthHome;
    var i, j := k % 3, (k + 1) % 3;
    t := TestStep(L, d, s, k, i);
    u := TestStep(L, d, t, k, j);
    v := ListStep(L, d, u, k, i, d[0]);
    w := ListStep(L, d, v, k + 1, j, data);
  }

  /** How many blocks the test lets the header grow to. */
  function Cap(L: Layout): (n: int) { if L.size > LOGSIZE then LOGSIZE else L.size - 1 }

  /** When the header stays within its array and within the log.  Let every operation add up to m blocks.
      Then no run from d lists a block too many exactly when the operations keep to their reservations and
      the log has more than LOGSIZE blocks, or the log is too small to list any block at all. */
  lemma OverrunIff(L: Layout, d: Disk, m: nat)
    requires L.Fits(d) && Word(d[L.start], 0) == 0 && L.size + LOGSIZE < |d| && m >= MAXOPBLOCKS
    ensures (m == MAXOPBLOCKS && L.size > LOGSIZE) || L.size == 1 <==>
      forall run: seq<State> :: Run(L, run) && run[0].disk == d && Within(run, m) ==> Room(L, run[|run| - 1])
  {
    hide Next, Init, Word, Filling, Within;
    if (m == MAXOPBLOCKS && L.size > LOGSIZE) || L.size == 1 {
      forall run: seq<State> | Run(L, run) && run[0].disk == d && Within(run, m) ensures Room(L, run[|run| - 1]) {
        if L.size == 1 { RunBarren(L, run, |run| - 1); } else { ReservedRoomy(L, run, |run| - 1); }
      }
    } else {
      var run := Overruns(L, d, m, d[0]);
      assert !Room(L, run[|run| - 1]);
    }
  }

  /** Three operations overrun the header.  They keep to their reservations if the log has at most
      LOGSIZE blocks; otherwise one of them adds one block too many. */
  lemma Overruns(L: Layout, d: Disk, m: nat, data: Block) returns (run: seq<State>)
    requires L.Fits(d) && Word(d[L.start], 0) == 0 && L.size + LOGSIZE < |d| && L.size > 1
    requires if L.size > LOGSIZE then m > MAXOPBLOCKS else m >= MAXOPBLOCKS
    ensures Run(L, run) && run[0].disk == d && Within(run, m) && !Room(L, run[|run| - 1])
    ensures Filling(L, d, run[|run| - 1], Cap(L) + 1)
    ensures run[|run| - 1].mem[NthHome(L, |d|, Cap(L))] == data
  {
    hide Next, Init, Word, NthHome, Within;
    var k := Cap(L) - 1;
    run := FillLog(L, d, k);
    run := TwoTurns(L, d, run, k, m, data);
  }

  function Other(x: Block): (y: Block)
    ensures y != x
  {
    var y := x[0 := 255 - x[0]];
    assert y[0] != x[0];
    y
  }

  /** write_log has copied k of the listed blocks, which lie behind the copies, and nothing else has been
      written. */
  ghost predicate Copying(L: Layout, d: Disk, s: State, k: nat) {
    && s.mode == Committing(k) && k <= |s.lh| && |s.disk| == |s.mem| == |d| && s.ops == []
    && s.ever == {} && s.durable == 0 && L.start + |s.lh| < |d|
    && (forall j :: 0 <= j < |s.lh| ==> L.start + |s.lh| < s.lh[j] < |d|)
    && (forall b :: 0 <= b < |d| && !(L.start < b <= L.start + k) ==> s.disk[b] == d[b])
    && (forall j :: 0 <= j < k ==> s.disk[L.start + 1 + j] == s.mem[s.lh[j]])
  }

  ghost predicate SameListed(s: State, t: State)
    requires |s.mem| == |t.mem| && forall j :: 0 <= j < |s.lh| ==> 0 <= s.lh[j] < |s.mem|
  {
    t.lh == s.lh && t.events == s.events && forall j :: 0 <= j < |s.lh| ==> t.mem[s.lh[j]] == s.mem[s.lh[j]]
  }

  lemma CopyStep(L: Layout, d: Disk, s: State, k: nat) returns (t: State)
    requires Copying(L, d, s, k) && k < |s.lh|
    ensures Next(L, s, t) && Copying(L, d, t, k + 1) && SameListed(s, t)
  {
    hide Word, Transaction, HeadDisk;
    var b, data := L.start + 1 + k, s.mem[s.lh[k]];
    t := s.(mode := Committing(k + 1), disk := s.disk[b := data], mem := Cached(L, s.mem, b, data));
    assert CommitStep(L, s, t);
  }

  /** A run in which write_log goes on to copy k blocks. */
  lemma {:induction false} CopyBlocks(L: Layout, d: Disk, run: seq<State>, k: nat, m: nat) returns (r: seq<State>)
    requires Run(L, run) && Within(run, m) && Copying(L, d, run[|run| - 1], 0) && k <= |run[|run| - 1].lh|
    ensures Run(L, r) && Within(r, m) && r[0] == run[0] && Copying(L, d, r[|r| - 1], k)
    ensures SameListed(run[|run| - 1], r[|r| - 1])
  {
    hide Next, Init;
    if k == 0 {
      r := run;
    } else {
      r := CopyBlocks(L, d, run, k - 1, m);
      var t := CopyStep(L, d, r[|r| - 1], k - 1);
      r := Step(L, r, t, m);
    }
  }

  lemma EndFirst(L: Layout, s: State) returns (t: State)
    requires s.ops != [] && !s.ops[0].passed && s.mode.Running?
    ensures Next(L, s, t)
    ensures t == s.(ops := s.ops[1..], mode := if |s.ops| == 1 then Committing(0) else Running,
                    origin := if |s.ops| == 1 then s.disk else s.origin)
    ensures forall m: nat :: Modest(s, m) ==> Modest(t, m)
  {
    t := s.(ops := s.ops[1..], mode := if |s.ops| == 1 then Committing(0) else Running,
            origin := if |s.ops| == 1 then s.disk else s.origin);
    assert s.ops[..0] + s.ops[0 + 1..] == s.ops[1..];
    assert End(L, s, t, 0);
  }

  lemma EndThree(L: Layout, d: Disk, s: State, k: nat) returns (t: State, u: State, v: State)
    requires L.Fits(d) && Filling(L, d, s, k) && k <= L.size && L.start + L.size + k < |d|
    ensures Next(L, s, t) && Next(L, t, u) && Next(L, u, v)
    ensures forall m: nat :: Modest(s, m) ==> Modest(t, m) && Modest(u, m) && Modest(v, m)
    ensures Copying(L, d, v, 0) && v.lh == s.lh && v.events == s.events && v.mem == s.mem
  {
    hide Next, Modest;
    t := EndFirst(L, s);
    u := EndFirst(L, t);
    v := EndFirst(L, u);
  }

  /** What an overrun header does with mkfs's log of LOGSIZE blocks, or any smaller one, although every
      operation keeps to its reservation: write_log's last copy lands on the home block after the log,
      which no operation has written, and recovery does not restore it. */
  lemma OverrunDamages(L: Layout, d: Disk) returns (run: seq<State>)
    requires L.Fits(d) && Word(d[L.start], 0) == 0 && 1 < L.size <= LOGSIZE
    requires L.start + L.size + LOGSIZE < |d|
    ensures Run(L, run) && run[0].disk == d && Within(run, MAXOPBLOCKS)
    ensures var s, b := run[|run| - 1], L.start + L.size;
      && L.Home(s.disk, b) && b !in s.ever && (forall e :: e in s.events ==> e.b != b)
      && Recoverable(L, s.disk) && s.durable <= |s.events|
      && Recovered(L, s.disk)[b] != Last(d, s.events[..s.durable], b)
  {
    hide Next, Init, Word, Within;
    var b, n := L.start + L.size, L.size;
    run := Overruns(L, d, MAXOPBLOCKS, Other(d[b]));
    var s := run[|run| - 1];
    assert b !in s.lh && s.lh[n - 1] == NthHome(L, |d|, n - 1);
    var t, u, v := EndThree(L, d, s, n);
    assert Modest(s, MAXOPBLOCKS);
    run := Step(L, run, t, MAXOPBLOCKS);
    run := Step(L, run, u, MAXOPBLOCKS);
    run := Step(L, run, v, MAXOPBLOCKS);
    run := CopyBlocks(L, d, run, n, MAXOPBLOCKS);
    var w := run[|run| - 1];
    assert w.disk[L.start + 1 + (n - 1)] == w.mem[w.lh[n - 1]] == Other(d[b]);
    assert Head(w.disk[L.start]) == [];
    RecoveredOther(L, w.disk, b);
  }
}
