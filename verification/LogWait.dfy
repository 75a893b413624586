/** begin_op and end_op of log.c over sleep and wakeup of proc.c: any number of processes entering and
    leaving operations, one step at a time.  `spin` is the holder of log.lock, `ptable` that of
    ptable.lock, `n` the length of the header. */
module LogWait {
  import opened Wrappers
  import opened LogSpec

  datatype Phase =
    | Out       // no operation
    | Enter     // in begin_op, wants log.lock
    | Test      // has it, at the head of the loop
    | Sleep1    // in sleep(): about to take ptable.lock
    | Sleep2    // about to release log.lock
    | Sleep3    // about to become SLEEPING and give ptable.lock away
    | Asleep
    | Woken     // RUNNABLE again, still inside sleep()
    | Entered   // counted, about to release log.lock
    | In        // begin_op has returned
    | Exit      // in end_op, wants log.lock
    | Count     // has it, about to count itself out
    | Wake      // not the last one, about to call wakeup
    | Begin     // the last one, about to release log.lock and commit
    | Commit    // in commit(), without locks
    | Retake    // committed, wants log.lock
    | Clear     // has it, about to clear log.committing
    | WakeAll   // about to call wakeup
    | Release   // about to release log.lock
    | Panicked  // end_op found a commit in progress

  datatype State = State(outstanding: int, committing: bool, n: nat, spin: Option<nat>, ptable: Option<nat>,
                         procs: seq<Phase>)

  datatype Action =
    | Start(p: nat)         // calls begin_op
    | Write(p: nat)         // adds a block to the header, having passed log_write's test at any time before
    | End(p: nat)           // calls end_op
    | Run(p: nat)
    | Kill(p: nat)

  predicate Enabled(s: State, a: Action) {
    && a.p < |s.procs|
    && var f := s.procs[a.p];
    match a {
      case Start(_) => f == Out
      case Write(_) => f == In && s.spin == None
      case End(_) => f == In
      case Kill(_) => s.ptable == None
      case Run(_) =>
        match f {
          case Out => false
          case In => false
          case Asleep => false
          case Panicked => false
          case Enter => s.spin == None
          case Exit => s.spin == None
          case Retake => s.spin == None
          case Sleep1 => s.ptable == None
          case Woken => s.ptable == None
          case Wake => s.ptable == None
          case WakeAll => s.ptable == None
          case _ => true
        }
    }
  }

  /** Reason to sleep in begin_op. */
  predicate Blocked(s: State) { s.committing || s.n + (s.outstanding + 1) * MAXOPBLOCKS > LOGSIZE }

  function NextPhase(s: State, f: Phase): (g: Phase) {
    match f
    case Out => Out
    case Enter => Test
    case Test => if Blocked(s) then Sleep1 else Entered
    case Sleep1 => Sleep2
    case Sleep2 => Sleep3
    case Sleep3 => Asleep
    case Asleep => Asleep
    case Woken => Enter
    case Entered => In
    case In => In
    case Exit => Count
    case Count => if s.committing then Panicked else if s.outstanding == 1 then Begin else Wake
    case Wake => Release
    case Begin => Commit
    case Commit => Retake
    case Retake => Clear
    case Clear => WakeAll
    case WakeAll => Release
    case Release => Out
    case Panicked => Panicked
  }

  function NextSpin(s: State, p: nat, f: Phase): (l: Option<nat>) {
    if f == Enter || f == Exit || f == Retake then Some(p)
    else if f == Sleep2 || f == Entered || f == Begin || f == Release then None
    else s.spin
  }

  function NextTable(s: State, p: nat, f: Phase): (l: Option<nat>) {
    if f == Sleep1 then Some(p) else if f == Sleep3 then None else s.ptable
  }

  function NextCount(s: State, f: Phase): (k: int) {
    if f == Test && !Blocked(s) then s.outstanding + 1 else if f == Count then s.outstanding - 1 else s.outstanding
  }

  function NextCommitting(s: State, f: Phase): (c: bool) {
    if f == Count && !s.committing && s.outstanding == 1 then true else if f == Clear then false else s.committing
  }

  /** wakeup(&log). */
  function Wakeup(procs: seq<Phase>): (r: seq<Phase>)
    ensures |r| == |procs|
  {
    seq(|procs|, p requires 0 <= p < |procs| => if procs[p] == Asleep then Woken else procs[p])
  }

  function Go(s: State, p: nat): (t: State)
    requires p < |s.procs|
  {
    var f := s.procs[p];
    State(NextCount(s, f),
          NextCommitting(s, f),
          if f == Commit then 0 else s.n,
          NextSpin(s, p, f),
          NextTable(s, p, f),
          (if f == Wake || f == WakeAll then Wakeup(s.procs) else s.procs)[p := NextPhase(s, f)])
  }

  function Step(s: State, a: Action): (t: State)
    requires a.p < |s.procs|
  {
    match a
    case Start(p) => s.(procs := s.procs[p := Enter])
    case Write(p) => s.(n := s.n + 1)
    case End(p) => s.(procs := s.procs[p := Exit])
    case Kill(p) => s.(procs := s.procs[p := if s.procs[p] == Asleep then Woken else s.procs[p]])
    case Run(p) => Go(s, p)
  }

  // ---- invariants ----

  predicate HasSpin(f: Phase) {
    || f == Test || f == Sleep1 || f == Sleep2 || f == Entered || f == Count || f == Wake || f == Begin
    || f == Clear || f == WakeAll || f == Release
  }

  predicate HasTable(f: Phase) { f == Sleep2 || f == Sleep3 }

  /** Between being counted in and being counted out. */
  predicate Counted(f: Phase) { f == Entered || f == In || f == Exit || f == Count }

  /** The process that commits, from setting log.committing to clearing it. */
  predicate Commits(f: Phase) { f == Begin || f == Commit || f == Retake || f == Clear }

  predicate Waits(f: Phase) { f == Sleep3 || f == Asleep }

  function Ops(procs: seq<Phase>): (k: nat) {
    if procs == [] then 0 else (if Counted(procs[0]) then 1 else 0) + Ops(procs[1..])
  }

  function Committers(procs: seq<Phase>): (k: nat) {
    if procs == [] then 0 else (if Commits(procs[0]) then 1 else 0) + Committers(procs[1..])
  }

  /** A process has exactly the spin locks its phase says, and knows what it has tested. */
  predicate Fits(s: State, p: nat, f: Phase) {
    && (HasSpin(f) <==> s.spin == Some(p))
    && (HasTable(f) <==> s.ptable == Some(p))
    && (f == Sleep1 || f == Sleep2 ==> Blocked(s))
    && (f == Retake || f == Clear ==> s.n == 0)
    && f != Panicked
  }

  /** `outstanding` counts the operations, `committing` says that somebody commits, and not both. */
  ghost predicate Tallied(s: State) {
    && s.outstanding == Ops(s.procs)
    && Committers(s.procs) == (if s.committing then 1 else 0)
    && (s.committing ==> s.outstanding == 0)
  }

  /** Without operations and a commit the header is empty. */
  predicate Emptied(s: State) { s.outstanding == 0 && !s.committing ==> s.n == 0 }

  predicate WillWake(s: State) {
    s.spin.Some? && s.spin.value < |s.procs| && (s.procs[s.spin.value] == Wake || s.procs[s.spin.value] == WakeAll)
  }

  ghost predicate NoneWaits(procs: seq<Phase>) { forall p :: 0 <= p < |procs| ==> !Waits(procs[p]) }

  ghost predicate AllFit(s: State) {
    && (s.spin.Some? ==> s.spin.value < |s.procs|)
    && forall p :: 0 <= p < |s.procs| ==> Fits(s, p, s.procs[p])
  }

  ghost predicate Inv(s: State) {
    Tallied(s) && AllFit(s) && Emptied(s) && (NoneWaits(s.procs) || Blocked(s) || WillWake(s))
  }

  // ---- counting ----

  lemma {:induction false} OpsUpdate(procs: seq<Phase>, p: nat, g: Phase)
    requires p < |procs|
    ensures Ops(procs[p := g]) == Ops(procs) - (if Counted(procs[p]) then 1 else 0) + (if Counted(g) then 1 else 0)
  {
    if p == 0 {
      assert procs[p := g][1..] == procs[1..];
    } else {
      OpsUpdate(procs[1..], p - 1, g);
      assert procs[p := g][1..] == procs[1..][p - 1 := g];
    }
  }

  lemma {:induction false} CommittersUpdate(procs: seq<Phase>, p: nat, g: Phase)
    requires p < |procs|
    ensures Committers(procs[p := g]) ==
      Committers(procs) - (if Commits(procs[p]) then 1 else 0) + (if Commits(g) then 1 else 0)
  {
    if p == 0 {
      assert procs[p := g][1..] == procs[1..];
    } else {
      CommittersUpdate(procs[1..], p - 1, g);
      assert procs[p := g][1..] == procs[1..][p - 1 := g];
    }
  }

  lemma {:induction false} Positive(procs: seq<Phase>, p: nat)
    requires p < |procs|
    ensures Counted(procs[p]) ==> Ops(procs) >= 1
    ensures Commits(procs[p]) ==> Committers(procs) >= 1
  {
    if p > 0 { Positive(procs[1..], p - 1); }
  }

  lemma {:induction false} WakeupCounts(procs: seq<Phase>)
    ensures Ops(Wakeup(procs)) == Ops(procs) && Committers(Wakeup(procs)) == Committers(procs)
  {
    if procs != [] {
      WakeupCounts(procs[1..]);
      assert Wakeup(procs)[1..] == Wakeup(procs[1..]);
    }
  }

  /** The counters after one phase has changed. */
  lemma Recount(procs: seq<Phase>, p: nat, g: Phase)
    requires p < |procs|
    ensures Ops(procs[p := g]) == Ops(procs) - (if Counted(procs[p]) then 1 else 0) + (if Counted(g) then 1 else 0)
    ensures Committers(procs[p := g]) ==
      Committers(procs) - (if Commits(procs[p]) then 1 else 0) + (if Commits(g) then 1 else 0)
    ensures Counted(procs[p]) ==> Ops(procs) >= 1
    ensures Commits(procs[p]) ==> Committers(procs) >= 1
  {
    OpsUpdate(procs, p, g);
    CommittersUpdate(procs, p, g);
    Positive(procs, p);
  }

  lemma GoTallied(s: State, p: nat)
    requires Tallied(s) && p < |s.procs| && s.procs[p] != Panicked
    ensures Tallied(Go(s, p)) && NextPhase(s, s.procs[p]) != Panicked
  {
    hide Ops, Committers, Wakeup;
    var f := s.procs[p];
    Recount(s.procs, p, NextPhase(s, f));
    WakeupCounts(s.procs);
    Recount(Wakeup(s.procs), p, NextPhase(s, f));
    WakeupAt(s.procs, p);
  }

  lemma WakeupAt(procs: seq<Phase>, p: nat)
    requires p < |procs|
    ensures Wakeup(procs)[p] == if procs[p] == Asleep then Woken else procs[p]
  {
  }

  lemma TalliedKeeps(s: State, a: Action)
    requires Tallied(s) && Enabled(s, a) && s.procs[a.p] != Panicked
    ensures Tallied(Step(s, a))
  {
    hide Ops, Committers, Go;
    match a
    case Start(p) => Recount(s.procs, p, Enter);
    case Write(p) =>
    case End(p) => Recount(s.procs, p, Exit);
    case Kill(p) => Recount(s.procs, p, if s.procs[p] == Asleep then Woken else s.procs[p]);
    case Run(p) => GoTallied(s, p);
  }

  // ---- locks and sleepers ----

  lemma Others(s: State, a: Action, r: nat)
    requires Enabled(s, a) && r < |s.procs| && r != a.p
    ensures var t := Step(s, a);
      && |t.procs| == |s.procs|
      && (t.procs[r] == s.procs[r] || (s.procs[r] == Asleep && t.procs[r] == Woken))
  {
    hide NextPhase, NextCount, NextSpin, NextTable, NextCommitting;
  }

  predicate Passed(l: Option<nat>, l': Option<nat>, p: nat) {
    l' == l || (l == None && l' == Some(p)) || (l == Some(p) && l' == None)
  }

  lemma SelfLocks(s: State, a: Action)
    requires Enabled(s, a) && Fits(s, a.p, s.procs[a.p]) && Tallied(s)
    ensures var t := Step(s, a);
      && |t.procs| == |s.procs| && Passed(s.spin, t.spin, a.p) && Passed(s.ptable, t.ptable, a.p)
      && (HasSpin(t.procs[a.p]) <==> t.spin == Some(a.p)) && (HasTable(t.procs[a.p]) <==> t.ptable == Some(a.p))
      && t.procs[a.p] != Panicked
  {
    hide Tallied, NextCount, NextCommitting, Wakeup, Blocked;
    if a.Run? { GoTallied(s, a.p); }
  }

  /** Without log.lock a process only adds to the reasons to sleep. */
  lemma StaysBlocked(s: State, a: Action)
    requires Enabled(s, a) && Fits(s, a.p, s.procs[a.p]) && Tallied(s) && Blocked(s)
    requires a.Run? ==> s.procs[a.p] != Count && s.procs[a.p] != Clear
    ensures Blocked(Step(s, a))
  {
    hide Ops, Committers, NextPhase, NextSpin, NextTable, Wakeup;
    Positive(s.procs, a.p);
  }

  lemma AllFitKeeps(s: State, a: Action)
    requires Tallied(s) && AllFit(s) && Enabled(s, a)
    ensures AllFit(Step(s, a))
  {
    hide Tallied, Step, Enabled, Blocked;
    assert a.p < |s.procs| by { InRange(s, a); }
    FitsAt(s, a.p);
    SelfLocks(s, a);
    var t := Step(s, a);
    forall r | 0 <= r < |s.procs| ensures Fits(t, r, t.procs[r]) {
      FitsAt(s, r);
      if r != a.p { Others(s, a, r); }
      SleepsForCause(s, a, r);
      ClearsEmpty(s, a, r);
    }
  }

  /** From the end of commit() until log.committing is cleared the header stays empty. */
  lemma ClearsEmpty(s: State, a: Action, r: nat)
    requires Tallied(s) && AllFit(s) && Enabled(s, a) && r < |s.procs|
    ensures var t := Step(s, a); |t.procs| == |s.procs| && (t.procs[r] == Retake || t.procs[r] == Clear ==> t.n == 0)
  {
    hide Blocked, NextCount, NextCommitting, NextSpin, NextTable, Wakeup, Ops, Committers, AllFit;
    FitsAt(s, r);
    FitsAt(s, a.p);
    Positive(s.procs, r);
    Positive(s.procs, a.p);
    if r != a.p { Others(s, a, r); }
  }

  lemma EmptiedKeeps(s: State, a: Action)
    requires Tallied(s) && AllFit(s) && Emptied(s) && Enabled(s, a)
    ensures Emptied(Step(s, a))
  {
    hide Ops, Committers, Wakeup, AllFit;
    FitsAt(s, a.p);
    Positive(s.procs, a.p);
  }

  /** A process about to sleep still has reason to. */
  lemma SleepsForCause(s: State, a: Action, r: nat)
    requires Tallied(s) && AllFit(s) && Enabled(s, a) && r < |s.procs|
    ensures var t := Step(s, a); |t.procs| == |s.procs| && (t.procs[r] == Sleep1 || t.procs[r] == Sleep2 ==> Blocked(t))
  {
    hide Tallied, Blocked, NextCount, NextCommitting, NextSpin, NextTable, Wakeup;
    FitsAt(s, r);
    FitsAt(s, a.p);
    if r != a.p { Others(s, a, r); }
    if Blocked(s) && !(a.Run? && (s.procs[a.p] == Count || s.procs[a.p] == Clear)) { StaysBlocked(s, a); }
  }

  lemma InRange(s: State, a: Action)
    requires Enabled(s, a)
    ensures a.p < |s.procs|
  {
  }

  lemma FitsAt(s: State, p: nat)
    requires AllFit(s) && p < |s.procs|
    ensures Fits(s, p, s.procs[p])
  {
  }

  /** wakeup needs ptable.lock, so it meets no process between releasing log.lock and sleeping. */
  lemma WakeupReaches(s: State, p: nat)
    requires AllFit(s) && p < |s.procs| && (s.procs[p] == Wake || s.procs[p] == WakeAll) && s.ptable == None
    ensures NoneWaits(Go(s, p).procs)
  {
    hide Blocked;
    forall r | 0 <= r < |s.procs| ensures !Waits(Go(s, p).procs[r]) { FitsAt(s, r); }
  }

  lemma NoneWaitsKept(s: State, a: Action)
    requires Enabled(s, a) && NoneWaits(s.procs) && s.procs[a.p] != Sleep2
    ensures NoneWaits(Step(s, a).procs)
  {
    hide Blocked, NextCount, NextCommitting, NextSpin, NextTable, Wakeup;
    forall r | 0 <= r < |s.procs| ensures !Waits(Step(s, a).procs[r]) {
      if r != a.p { Others(s, a, r); }
    }
  }

  /** Nobody's wakeup is lost in one step. */
  lemma HeardKeeps(s: State, a: Action)
    requires Inv(s) && Enabled(s, a)
    ensures var t := Step(s, a); NoneWaits(t.procs) || Blocked(t) || WillWake(t)
  {
    hide NoneWaits, AllFit, Tallied, Blocked, NextCount, NextCommitting, Wakeup;
    FitsAt(s, a.p);
    if a.Run? && (s.procs[a.p] == Wake || s.procs[a.p] == WakeAll) {
      WakeupReaches(s, a.p);
    } else if a.Run? && (s.procs[a.p] == Count || s.procs[a.p] == Clear) {
      LeavesHeard(s, a.p);
    } else if WillWake(s) {
      FitsAt(s, s.spin.value);
      if s.spin.value != a.p { Others(s, a, s.spin.value); }
    } else if Blocked(s) {
      StaysBlocked(s, a);
    } else {
      NoneWaitsKept(s, a);
    }
  }

  /** Counting out and clearing the flag are followed by a wakeup, or leave a commit in progress. */
  lemma LeavesHeard(s: State, p: nat)
    requires Tallied(s) && AllFit(s) && p < |s.procs| && (s.procs[p] == Count || s.procs[p] == Clear)
    ensures Blocked(Go(s, p)) || WillWake(Go(s, p))
  {
    hide Tallied, AllFit, Wakeup;
    FitsAt(s, p);
    GoTallied(s, p);
  }

  lemma InvKeeps(s: State, a: Action)
    requires Inv(s) && Enabled(s, a)
    ensures Inv(Step(s, a))
  {
    hide NoneWaits, AllFit, Tallied, Blocked, Step, Enabled, WillWake, Emptied;
    assert a.p < |s.procs| by { InRange(s, a); }
    FitsAt(s, a.p);
    TalliedKeeps(s, a);
    AllFitKeeps(s, a);
    EmptiedKeeps(s, a);
    HeardKeeps(s, a);
  }

  // ---- whole runs ----

  ghost predicate Behaviour(tr: seq<State>, run: seq<Action>) {
    && |tr| == |run| + 1
    && tr[0] == State(0, false, 0, None, None, seq(|tr[0].procs|, _ => Out))
    && forall i :: 0 <= i < |run| ==> Follows(tr[i], run[i], tr[i + 1])
  }

  ghost predicate Follows(s: State, a: Action, t: State) { Enabled(s, a) && t == Step(s, a) }

  lemma {:induction false} NobodyIn(procs: seq<Phase>)
    requires forall p :: 0 <= p < |procs| ==> procs[p] == Out
    ensures Ops(procs) == 0 && Committers(procs) == 0
  {
    if procs != [] { NobodyIn(procs[1..]); }
  }

  lemma {:induction false} RunKeeps(tr: seq<State>, run: seq<Action>, i: nat)
    requires Behaviour(tr, run) && i < |tr|
    ensures Inv(tr[i])
  {
    hide Step, Enabled, Ops, Committers;
    if i == 0 {
      assert forall p :: 0 <= p < |tr[0].procs| ==> tr[0].procs[p] == Out;
      NobodyIn(tr[0].procs);
    } else {
      RunKeeps(tr, run, i - 1);
      assert Follows(tr[i - 1], run[i - 1], tr[i]);
      InvKeeps(tr[i - 1], run[i - 1]);
    }
  }

  lemma {:induction false} SomeoneIn(procs: seq<Phase>) returns (q: nat)
    requires Ops(procs) >= 1 || Committers(procs) >= 1
    ensures q < |procs| && (Counted(procs[q]) || Commits(procs[q]))
  {
    if Counted(procs[0]) || Commits(procs[0]) {
      q := 0;
    } else {
      q := SomeoneIn(procs[1..]);
      q := q + 1;
    }
  }

  /** A process sleeps in begin_op, with log.lock free, only while a commit is in progress or the log
      cannot hold one more operation's reservation.  Either way it waits for another process, one that is
      inside an operation or committing, and whose end_op will call wakeup. */
  lemma SleeperHasCause(tr: seq<State>, run: seq<Action>, i: nat, p: nat)
    requires Behaviour(tr, run) && i < |tr| && p < |tr[i].procs| && tr[i].procs[p] == Asleep && tr[i].spin == None
    ensures tr[i].committing || tr[i].n + (tr[i].outstanding + 1) * MAXOPBLOCKS > LOGSIZE
    ensures exists q :: 0 <= q < |tr[i].procs| && q != p && (Counted(tr[i].procs[q]) || Commits(tr[i].procs[q]))
  {
    hide Behaviour, AllFit, Ops, Committers;
    RunKeeps(tr, run, i);
    assert Waits(tr[i].procs[p]);
    var q := SomeoneIn(tr[i].procs);
    assert !Counted(tr[i].procs[p]) && !Commits(tr[i].procs[p]);
  }

  /** While somebody commits nobody is inside an operation, and end_op's panic is out of reach. */
  lemma CommitsAlone(tr: seq<State>, run: seq<Action>, i: nat, p: nat, q: nat)
    requires Behaviour(tr, run) && i < |tr| && p < |tr[i].procs| && q < |tr[i].procs|
    ensures tr[i].procs[p] != Panicked
    ensures Commits(tr[i].procs[p]) ==> tr[i].committing && !Counted(tr[i].procs[q])
  {
    hide Behaviour, Ops, Committers;
    RunKeeps(tr, run, i);
    FitsAt(tr[i], p);
    Positive(tr[i].procs, p);
    Positive(tr[i].procs, q);
  }
}
