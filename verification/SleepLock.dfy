/** sleeplock.c over sleep and wakeup of proc.c: any number of processes competing for one sleep lock,
    one step at a time. `spin` is the holder of the spin lock lk->lk, `ptable` that of ptable.lock. */
module SleepLock {
  import opened Wrappers

  datatype Phase =
    | Out        // not using the lock
    | Acquire    // in acquiresleep, wants lk->lk
    | Check      // has lk->lk, at the head of the wait loop
    | Sleep1     // in sleep(): about to take ptable.lock
    | Sleep2     // about to release lk->lk
    | Sleep3     // about to become SLEEPING and give ptable.lock away
    | Asleep
    | Woken      // RUNNABLE again, still inside sleep()
    | Got        // lock taken, about to release lk->lk
    | Owns       // acquiresleep has returned
    | Return     // in releasesleep, wants lk->lk
    | Clear      // has lk->lk, about to clear the lock
    | Wake       // cleared, about to call wakeup
    | Leave      // about to release lk->lk

  datatype State = State(locked: bool, pid: Option<nat>, spin: Option<nat>, ptable: Option<nat>, procs: seq<Phase>)

  datatype Action =
    | Start(p: nat)  // calls acquiresleep
    | Give(p: nat)   // the owner calls releasesleep
    | Run(p: nat)
    | Kill(p: nat)

  predicate Enabled(s: State, a: Action) {
    && a.p < |s.procs|
    && var f := s.procs[a.p];
    match a {
      case Start(_) => f == Out
      case Give(_) => f == Owns
      case Kill(_) => s.ptable == None
      case Run(_) =>
        match f {
          case Out => false
          case Owns => false
          case Asleep => false
          case Acquire => s.spin == None
          case Return => s.spin == None
          case Sleep1 => s.ptable == None
          case Woken => s.ptable == None
          case Wake => s.ptable == None
          case _ => true
        }
    }
  }

  function NextPhase(s: State, f: Phase): (g: Phase) {
    match f
    case Out => Out
    case Acquire => Check
    case Check => if s.locked then Sleep1 else Got
    case Sleep1 => Sleep2
    case Sleep2 => Sleep3
    case Sleep3 => Asleep
    case Asleep => Asleep
    case Woken => Acquire
    case Got => Owns
    case Owns => Owns
    case Return => Clear
    case Clear => Wake
    case Wake => Leave
    case Leave => Out
  }

  function NextSpin(s: State, p: nat, f: Phase): (l: Option<nat>) {
    if f == Acquire || f == Return then Some(p)
    else if f == Sleep2 || f == Got || f == Leave then None
    else s.spin
  }

  function NextTable(s: State, p: nat, f: Phase): (l: Option<nat>) {
    if f == Sleep1 then Some(p) else if f == Sleep3 then None else s.ptable
  }

  predicate Takes(s: State, f: Phase) { f == Check && !s.locked }

  function NextPid(s: State, p: nat, f: Phase): (l: Option<nat>) {
    if Takes(s, f) then Some(p) else if f == Clear then None else s.pid
  }

  /** wakeup(lk). */
  function Wakeup(procs: seq<Phase>): (r: seq<Phase>)
    ensures |r| == |procs|
  {
    seq(|procs|, p requires 0 <= p < |procs| => if procs[p] == Asleep then Woken else procs[p])
  }

  function Go(s: State, p: nat): (t: State)
    requires p < |s.procs|
  {
    var f := s.procs[p];
    State((s.locked || Takes(s, f)) && f != Clear,
          NextPid(s, p, f), NextSpin(s, p, f),
          NextTable(s, p, f), (if f == Wake then Wakeup(s.procs) else s.procs)[p := NextPhase(s, f)])
  }

  function Step(s: State, a: Action): (t: State)
    requires a.p < |s.procs|
  {
    match a
    case Start(p) => s.(procs := s.procs[p := Acquire])
    case Give(p) => s.(procs := s.procs[p := Return])
    case Kill(p) => s.(procs := s.procs[p := if s.procs[p] == Asleep then Woken else s.procs[p]])
    case Run(p) => Go(s, p)
  }

  // ---- invariants ----

  predicate HasSpin(f: Phase) {
    f == Check || f == Sleep1 || f == Sleep2 || f == Got || f == Clear || f == Wake || f == Leave
  }

  predicate HasTable(f: Phase) { f == Sleep2 || f == Sleep3 }

  predicate HasLock(f: Phase) { f == Got || f == Owns || f == Return || f == Clear }

  predicate Waits(f: Phase) { f == Sleep3 || f == Asleep }

  /** A process has exactly the locks its phase says. */
  predicate Fits(s: State, p: nat, f: Phase) {
    && (HasSpin(f) <==> s.spin == Some(p))
    && (HasTable(f) <==> s.ptable == Some(p))
    && (HasLock(f) <==> s.pid == Some(p))
    && (f == Sleep1 || f == Sleep2 ==> s.locked)
  }

  ghost predicate Owned(s: State) {
    && (s.locked <==> s.pid.Some?)
    && (s.pid.Some? ==> s.pid.value < |s.procs|)
    && (s.spin.Some? ==> s.spin.value < |s.procs|)
    && forall p :: 0 <= p < |s.procs| ==> Fits(s, p, s.procs[p])
  }

  predicate WillWake(s: State) { s.spin.Some? && s.spin.value < |s.procs| && s.procs[s.spin.value] == Wake }

  ghost predicate NoneWaits(procs: seq<Phase>) {
    forall p :: 0 <= p < |procs| ==> !Waits(procs[p])
  }

  ghost predicate Inv(s: State) {
    Owned(s) && (NoneWaits(s.procs) || s.locked || WillWake(s))
  }

  // ---- what every step keeps ----

  lemma Others(s: State, a: Action, r: nat)
    requires Enabled(s, a) && r < |s.procs| && r != a.p
    ensures var t := Step(s, a);
      && |t.procs| == |s.procs|
      && (t.procs[r] == s.procs[r] || (s.procs[r] == Asleep && t.procs[r] == Woken))
  {
    hide NextPhase, NextPid, NextSpin, NextTable;
  }

  predicate Passed(l: Option<nat>, l': Option<nat>, p: nat) {
    l' == l || (l == None && l' == Some(p)) || (l == Some(p) && l' == None)
  }

  lemma Self(s: State, a: Action)
    requires Enabled(s, a) && Fits(s, a.p, s.procs[a.p]) && (s.locked <==> s.pid.Some?)
    ensures var t := Step(s, a);
      && |t.procs| == |s.procs| && Fits(t, a.p, t.procs[a.p]) && (t.locked <==> t.pid.Some?)
      && Passed(s.spin, t.spin, a.p) && Passed(s.ptable, t.ptable, a.p) && Passed(s.pid, t.pid, a.p)
      && (t.locked != s.locked ==> s.spin == Some(a.p))
  {
  }

  lemma OwnedKeeps(s: State, a: Action)
    requires Owned(s) && Enabled(s, a)
    ensures Owned(Step(s, a))
  {
    hide Step, Enabled;
    assert a.p < |s.procs| by { InRange(s, a); }
    Self(s, a);
    forall r | 0 <= r < |s.procs| ensures Fits(Step(s, a), r, Step(s, a).procs[r]) {
      assert Fits(s, r, s.procs[r]);
      if r != a.p { Others(s, a, r); }
    }
  }

  lemma InRange(s: State, a: Action)
    requires Enabled(s, a)
    ensures a.p < |s.procs|
  {
  }

  /** wakeup needs ptable.lock, so it meets no process between releasing lk->lk and sleeping. */
  lemma WakeupReaches(s: State, p: nat)
    requires Owned(s) && p < |s.procs| && s.procs[p] == Wake && s.ptable == None
    ensures NoneWaits(Go(s, p).procs)
  {
    forall r | 0 <= r < |s.procs| ensures !Waits(Go(s, p).procs[r]) {
      assert Fits(s, r, s.procs[r]);
    }
  }

  lemma NoneWaitsKept(s: State, a: Action)
    requires Enabled(s, a) && NoneWaits(s.procs) && s.procs[a.p] != Sleep2
    ensures NoneWaits(Step(s, a).procs)
  {
    forall r | 0 <= r < |s.procs| ensures !Waits(Step(s, a).procs[r]) {
      if r != a.p { Others(s, a, r); }
    }
  }

  lemma InvKeeps(s: State, a: Action)
    requires Inv(s) && Enabled(s, a)
    ensures Inv(Step(s, a))
  {
    hide NoneWaits, Owned;
    OwnedKeeps(s, a);
    FitsAt(s, a.p);
    if a.Run? && s.procs[a.p] == Wake {
      WakeupReaches(s, a.p);
    } else if WillWake(s) {
      FitsAt(s, s.spin.value);
      if s.spin.value != a.p { Others(s, a, s.spin.value); }
    } else if s.procs[a.p] != Sleep2 && NoneWaits(s.procs) {
      NoneWaitsKept(s, a);
    }
  }

  lemma FitsAt(s: State, p: nat)
    requires Owned(s) && p < |s.procs|
    ensures Fits(s, p, s.procs[p])
  {
  }

  // ---- whole runs ----

  ghost predicate Behaviour(tr: seq<State>, run: seq<Action>) {
    && |tr| == |run| + 1
    && tr[0] == State(false, None, None, None, seq(|tr[0].procs|, _ => Out))
    && forall i :: 0 <= i < |run| ==> Follows(tr[i], run[i], tr[i + 1])
  }

  ghost predicate Follows(s: State, a: Action, t: State) { Enabled(s, a) && t == Step(s, a) }

  lemma {:induction false} RunKeeps(tr: seq<State>, run: seq<Action>, i: nat)
    requires Behaviour(tr, run) && i < |tr|
    ensures Inv(tr[i])
  {
    hide Step, Enabled;
    if i == 0 {
      assert forall p :: 0 <= p < |tr[0].procs| ==> tr[0].procs[p] == Out;
    } else {
      RunKeeps(tr, run, i - 1);
      assert Follows(tr[i - 1], run[i - 1], tr[i]);
      InvKeeps(tr[i - 1], run[i - 1]);
    }
  }

  /** No two processes are between the return of acquiresleep and the clearing in releasesleep. */
  lemma MutualExclusion(tr: seq<State>, run: seq<Action>, i: nat, p: nat, q: nat)
    requires Behaviour(tr, run) && i < |tr| && p < |tr[i].procs| && q < |tr[i].procs|
    requires HasLock(tr[i].procs[p]) && HasLock(tr[i].procs[q])
    ensures p == q && tr[i].locked && tr[i].pid == Some(p)
  {
    RunKeeps(tr, run, i);
    FitsAt(tr[i], p);
    FitsAt(tr[i], q);
  }

  /** A process sleeps, with lk->lk free, only while another one has the lock and has yet to clear it and
      call wakeup. */
  lemma SleeperWaitsForOwner(tr: seq<State>, run: seq<Action>, i: nat, p: nat)
    requires Behaviour(tr, run) && i < |tr| && p < |tr[i].procs| && tr[i].procs[p] == Asleep && tr[i].spin == None
    ensures var s := tr[i]; s.locked && s.pid.Some? && s.pid.value < |s.procs| && s.pid.value != p
                            && (s.procs[s.pid.value] == Owns || s.procs[s.pid.value] == Return)
  {
    RunKeeps(tr, run, i);
    assert Waits(tr[i].procs[p]);
    FitsAt(tr[i], p);
    FitsAt(tr[i], tr[i].pid.value);
  }
}
