/** pipe.c over sleep and wakeup of proc.c: any number of processes reading, writing and closing one
    pipe, one step at a time, with both locks explicit. */
module PipeProtocol {
  import opened Words
  import opened Pipe
  import opened Wrappers

  /** The call a process is making, with its progress. */
  datatype Role =
    | Writer(src: seq<byte>, i: nat)
    | Reader(n: nat, got: seq<byte>)
    | Closer(writable: bool)

  /** Where the process is. `Sleep1` to `Sleep3` are inside sleep(): about to take ptable.lock, about to
      release the pipe's lock, about to become SLEEPING and give ptable.lock away. */
  datatype Phase =
    | Idle      // not in pipe code
    | Acquire   // wants the pipe's lock
    | Hold      // has it, at the head of its loop
    | Copy      // a reader past its wait loop
    | WakeFirst // a writer that found the pipe full: wakeup(&nread), then sleep
    | Sleep1
    | Sleep2
    | Sleep3
    | Asleep
    | Woken     // RUNNABLE again, still inside sleep()
    | Wake      // work done: the final wakeup
    | Release

  datatype Proc = Proc(role: Role, phase: Phase, killed: bool)

  /** `accepted` and `delivered` record every byte put in and taken out, in lock order. */
  datatype State = State(ring: Ring, readopen: bool, writeopen: bool, freed: bool,
                         lock: Option<nat>, ptable: Option<nat>, procs: seq<Proc>,
                         accepted: seq<byte>, delivered: seq<byte>)

  datatype Action =
    | Start(p: nat, role: Role)
    | Run(p: nat)
    | Kill(p: nat)

  predicate OnReadEnd(r: Role) { r.Reader? || (r.Closer? && !r.writable) }

  predicate Active(q: Proc) { q.phase != Idle }

  /** Going to sleep with the pipe's lock already released, or asleep. */
  predicate Waits(q: Proc, reader: bool) {
    (q.phase == Sleep3 || q.phase == Asleep) && (q.role.Reader? <==> reader)
  }

  /** Readers sleep on &nread, writers on &nwrite; wakeup1 makes all sleepers of one kind runnable. */
  function Wakeup(procs: seq<Proc>, reader: bool): (r: seq<Proc>)
    ensures |r| == |procs|
  {
    seq(|procs|, p requires 0 <= p < |procs| =>
      if procs[p].phase == Asleep && Waits(procs[p], reader) then procs[p].(phase := Woken) else procs[p])
  }

  /** The end a call uses is open and nobody is closing it; a close needs the end unused: the file
      that refers to it is counted, and pipeclose is called for the last reference only. */
  ghost predicate MayStart(s: State, role: Role) {
    && (if OnReadEnd(role) then s.readopen else s.writeopen)
    && (forall q :: 0 <= q < |s.procs| && Active(s.procs[q]) && OnReadEnd(s.procs[q].role) == OnReadEnd(role) ==>
          !role.Closer? && !s.procs[q].role.Closer?)
    && (role.Writer? ==> role.i == 0) && (role.Reader? ==> role.got == [])
  }

  ghost predicate Enabled(s: State, a: Action) {
    && a.p < |s.procs|
    && match a {
         case Start(p, role) => s.procs[p].phase == Idle && MayStart(s, role)
         case Kill(p) => s.ptable == None
         case Run(p) =>
           match s.procs[p].phase {
             case Idle => false
             case Asleep => false
             case Acquire => s.lock == None
             case WakeFirst => s.ptable == None
             case Sleep1 => s.ptable == None
             case Woken => s.ptable == None
             case Wake => s.ptable == None
             case _ => true
           }
       }
  }

  /** pipewrite stores a byte. */
  predicate Puts(s: State, q: Proc) {
    q.phase == Hold && q.role.Writer? && q.role.i < |q.role.src| && !Full(s.ring)
  }

  /** piperead takes a byte. */
  predicate Takes(s: State, q: Proc) {
    q.phase == Copy && q.role.Reader? && |q.role.got| < q.role.n && !Empty(s.ring)
  }

  /** The head of each call's loop, with the pipe's lock held. */
  function LoopHead(s: State, q: Proc): (f: Phase) {
    match q.role
    case Writer(src, i) =>
      if i >= |src| then Wake
      else if !Full(s.ring) then Hold
      else if !s.readopen || q.killed then Idle
      else WakeFirst
    case Reader(_, _) =>
      if !(Empty(s.ring) && s.writeopen) then Copy
      else if q.killed then Idle
      else Sleep1
    case Closer(_) => Wake
  }

  function NextPhase(s: State, q: Proc): (f: Phase) {
    match q.phase
    case Idle => Idle
    case Acquire => Hold
    case Hold => LoopHead(s, q)
    case Copy => if Takes(s, q) then Copy else Wake
    case WakeFirst => Sleep1
    case Sleep1 => Sleep2
    case Sleep2 => Sleep3
    case Sleep3 => Asleep
    case Asleep => Asleep
    case Woken => Acquire
    case Wake => Release
    case Release => Idle
  }

  function NextRole(s: State, q: Proc): (r: Role)
    requires |s.ring.data| == PIPESIZE
  {
    if Puts(s, q) then Writer(q.role.src, q.role.i + 1)
    else if Takes(s, q) then Reader(q.role.n, q.role.got + [Next(s.ring)])
    else q.role
  }

  function NextRing(s: State, q: Proc): (r: Ring)
    requires |s.ring.data| == PIPESIZE
  {
    if Puts(s, q) then Put(s.ring, q.role.src[q.role.i]) else if Takes(s, q) then Drop(s.ring) else s.ring
  }

  /** Early returns release the lock like the normal end does; sleep() releases it once it has
      ptable.lock. */
  function NextLock(s: State, p: nat, q: Proc): (l: Option<nat>) {
    if q.phase == Acquire then Some(p)
    else if q.phase == Sleep2 || q.phase == Release || (q.phase == Hold && LoopHead(s, q) == Idle) then None
    else s.lock
  }

  function NextTable(s: State, p: nat, q: Proc): (l: Option<nat>) {
    if q.phase == Sleep1 then Some(p) else if q.phase == Sleep3 then None else s.ptable
  }

  /** The final wakeup is for readers after a write or the close of the write end. */
  predicate WakesReaders(q: Proc) { q.role.Writer? || q.role == Closer(true) }

  function NextProcs(s: State, q: Proc): (procs: seq<Proc>)
    ensures |procs| == |s.procs|
  {
    if q.phase == WakeFirst then Wakeup(s.procs, true)
    else if q.phase == Wake then Wakeup(s.procs, WakesReaders(q))
    else s.procs
  }

  predicate Closes(q: Proc, writable: bool) { q.phase == Hold && q.role == Closer(writable) }

  function Go(s: State, p: nat): (t: State)
    requires p < |s.procs| && |s.ring.data| == PIPESIZE
  {
    var q := s.procs[p];
    State(NextRing(s, q),
          s.readopen && !Closes(q, false), s.writeopen && !Closes(q, true),
          s.freed || (q.phase == Release && q.role.Closer? && !s.readopen && !s.writeopen),
          NextLock(s, p, q), NextTable(s, p, q),
          NextProcs(s, q)[p := Proc(NextRole(s, q), NextPhase(s, q), q.killed)],
          if Puts(s, q) then s.accepted + [q.role.src[q.role.i]] else s.accepted,
          if Takes(s, q) then s.delivered + [Next(s.ring)] else s.delivered)
  }

  function Killed(q: Proc): (q': Proc) {
    Proc(q.role, if q.phase == Asleep then Woken else q.phase, true)
  }

  function Step(s: State, a: Action): (t: State)
    requires a.p < |s.procs| && |s.ring.data| == PIPESIZE
  {
    match a
    case Start(p, role) => s.(procs := s.procs[p := Proc(role, Acquire, s.procs[p].killed)])
    case Kill(p) => s.(procs := s.procs[p := Killed(s.procs[p])])
    case Run(p) => Go(s, p)
  }

  // ---- invariants ----

  predicate HasPipeLock(f: Phase) {
    f == Hold || f == Copy || f == WakeFirst || f == Sleep1 || f == Sleep2 || f == Wake || f == Release
  }

  predicate HasTableLock(f: Phase) { f == Sleep2 || f == Sleep3 }

  /** The phases each kind of call goes through. */
  predicate PhaseFits(q: Proc) {
    && (q.phase == Copy ==> q.role.Reader?)
    && (q.phase == WakeFirst ==> q.role.Writer?)
    && (q.role.Closer? ==> q.phase in {Idle, Acquire, Hold, Wake, Release})
  }

  /** Each lock is held by the process whose phase says so, and by no other. */
  ghost predicate Locks(s: State) {
    forall p :: 0 <= p < |s.procs| ==> LockFits(s.procs[p], p, s.lock, s.ptable)
  }

  predicate LockFits(q: Proc, p: nat, lock: Option<nat>, ptable: Option<nat>) {
    && PhaseFits(q)
    && (HasPipeLock(q.phase) <==> lock == Some(p))
    && (HasTableLock(q.phase) <==> ptable == Some(p))
  }

  ghost predicate LockHolders(s: State) {
    && (s.lock.Some? ==> s.lock.value < |s.procs|)
    && (s.ptable.Some? ==> s.ptable.value < |s.procs|)
  }

  /** Every byte accepted has been delivered or is in the ring, in order. */
  ghost predicate Fifo(s: State) {
    Valid(s.ring) && s.accepted == s.delivered + Contents(s.ring)
  }

  /** What the process holding the pipe's lock has found and not let change. */
  ghost predicate HolderOk(s: State) {
    s.lock.Some? && s.lock.value < |s.procs| ==>
      && var q := s.procs[s.lock.value];
      && (q.role.Reader? && q.phase in {Sleep1, Sleep2} ==> Calm(s, true))
      && (q.role.Writer? && q.phase in {WakeFirst, Sleep1, Sleep2} ==> Calm(s, false))
  }

  /** The state in which a reader, or a writer, has reason to sleep. */
  predicate Calm(s: State, reader: bool) {
    if reader then Empty(s.ring) && s.writeopen else Full(s.ring) && s.readopen
  }

  /** The process holding the pipe's lock will call wakeup for this kind before it lets go. */
  predicate WillWake(s: State, reader: bool) {
    && s.lock.Some? && s.lock.value < |s.procs|
    && var q := s.procs[s.lock.value];
    if reader
    then (q.role.Writer? && q.phase in {Hold, WakeFirst, Wake}) || (q.role == Closer(true) && q.phase == Wake)
    else (q.role.Reader? && q.phase in {Copy, Wake}) || (q.role == Closer(false) && q.phase == Wake)
  }

  ghost predicate NoneWaits(procs: seq<Proc>, reader: bool) {
    forall p :: 0 <= p < |procs| ==> !Waits(procs[p], reader)
  }

  /** No lost wakeup, for readers or for writers. */
  ghost predicate Heard(s: State, reader: bool) {
    NoneWaits(s.procs, reader) || Calm(s, reader) || WillWake(s, reader)
  }

  /** An end is open while a call uses it, and until the one process closing it has cleared the flag. */
  ghost predicate Refs(s: State) {
    && (forall p :: 0 <= p < |s.procs| && Active(s.procs[p]) ==> EndOpen(s, s.procs[p]))
    && (forall p, q :: 0 <= p < |s.procs| && 0 <= q < |s.procs| && p != q ==> Share(s.procs[p], s.procs[q]))
    && (s.freed ==> !s.readopen && !s.writeopen && NoneActive(s.procs))
  }

  ghost predicate NoneActive(procs: seq<Proc>) {
    forall p :: 0 <= p < |procs| ==> !Active(procs[p])
  }

  /** Two calls in progress on one end: neither is closing it. */
  predicate Share(p: Proc, q: Proc) {
    Active(p) && Active(q) && OnReadEnd(p.role) == OnReadEnd(q.role) ==> !p.role.Closer? && !q.role.Closer?
  }

  predicate EndOpen(s: State, q: Proc) {
    if q.role.Closer? && (q.phase == Wake || q.phase == Release)
    then (if q.role.writable then !s.writeopen else !s.readopen)
    else (if OnReadEnd(q.role) then s.readopen else s.writeopen)
  }

  ghost predicate Inv(s: State) {
    LockHolders(s) && Locks(s) && Fifo(s) && HolderOk(s) && Refs(s)
  }

  // ---- what every step keeps ----

  /** What a step of another process can do to this one. */
  predicate Nudged(q: Proc, q': Proc) {
    q' == q || (q.phase == Asleep && q' == q.(phase := Woken))
  }

  lemma Others(s: State, a: Action, r: nat)
    requires Enabled(s, a) && |s.ring.data| == PIPESIZE && r < |s.procs| && r != a.p
    ensures |Step(s, a).procs| == |s.procs| && Nudged(s.procs[r], Step(s, a).procs[r])
  {
    hide Full, Empty, Put, Drop, Next, MayStart, NextRing, NextPhase, NextRole, NextLock, NextTable, Puts, Takes;
  }

  predicate Passed(l: Option<nat>, l': Option<nat>, p: nat) {
    l' == l || (l == None && l' == Some(p)) || (l == Some(p) && l' == None)
  }

  lemma SelfLocks(s: State, a: Action)
    requires Enabled(s, a) && |s.ring.data| == PIPESIZE && LockFits(s.procs[a.p], a.p, s.lock, s.ptable)
    ensures var t := Step(s, a);
      && |t.procs| == |s.procs| && LockFits(t.procs[a.p], a.p, t.lock, t.ptable)
      && Passed(s.lock, t.lock, a.p) && Passed(s.ptable, t.ptable, a.p)
  {
    hide Full, Empty, Put, Drop, Next, MayStart, NextRing, NextRole, Puts, Takes;
    SameCall(s, s.procs[a.p]);
  }

  predicate SameKind(r: Role, r': Role) {
    (r.Writer? <==> r'.Writer?) && (r.Reader? <==> r'.Reader?) && (r.Closer? ==> r' == r)
  }

  lemma SameCall(s: State, q: Proc)
    requires |s.ring.data| == PIPESIZE
    ensures SameKind(q.role, NextRole(s, q))
  {
  }

  lemma LocksKeep(s: State, a: Action)
    requires Inv(s) && Enabled(s, a)
    ensures LockHolders(Step(s, a)) && Locks(Step(s, a))
  {
    hide Contents, Fifo, Refs, HolderOk, Step, Enabled;
    assert Enabled(s, a) ==> a.p < |s.procs| by { InRange(s, a); }
    assert |s.ring.data| == PIPESIZE by { RingSize(s); }
    SelfLocks(s, a);
    forall r | 0 <= r < |s.procs| ensures LockFits(Step(s, a).procs[r], r, Step(s, a).lock, Step(s, a).ptable) {
      if r != a.p { Others(s, a, r); }
    }
  }

  lemma InRange(s: State, a: Action)
    requires Enabled(s, a)
    ensures a.p < |s.procs|
  {
  }

  lemma RingSize(s: State)
    requires Inv(s)
    ensures |s.ring.data| == PIPESIZE
  {
  }

  lemma FifoKeeps(s: State, a: Action)
    requires Inv(s) && Enabled(s, a)
    ensures Fifo(Step(s, a))
  {
    hide Contents, Put, Drop, Next, Full, Empty, NextPhase, NextRole, NextProcs, NextLock, NextTable, Wakeup, Locks,
      Refs, HolderOk, MayStart, LockHolders;
    var q := s.procs[a.p];
    if Puts(s, q) { PutContents(s.ring, q.role.src[q.role.i]); }
    if Takes(s, q) { DropContents(s.ring); }
  }

  /** A process without the pipe's lock changes nothing the lock protects. */
  lemma Untouched(s: State, a: Action)
    requires Enabled(s, a) && |s.ring.data| == PIPESIZE && (a.Run? ==> !HasPipeLock(s.procs[a.p].phase))
    ensures var t := Step(s, a);
      && t.ring == s.ring && t.readopen == s.readopen && t.writeopen == s.writeopen && t.freed == s.freed
      && t.accepted == s.accepted && t.delivered == s.delivered
  {
    hide Full, Empty, Put, Drop, Next, NextPhase, NextRole, NextProcs, NextLock, NextTable, MayStart;
  }

  /** The lock's holder takes a step. */
  lemma HolderSteps(s: State, p: nat)
    requires p < |s.procs| && |s.ring.data| == PIPESIZE && s.lock == Some(p) && HasPipeLock(s.procs[p].phase)
    requires HolderOk(s) && PhaseFits(s.procs[p])
    ensures HolderOk(Go(s, p))
  {
    hide Put, Drop, Next, Full, Empty, NextRole, NextProcs;
    SameCall(s, s.procs[p]);
  }

  /** Another process, or a start or kill, leaves what the holder found. */
  lemma HolderLeft(s: State, a: Action)
    requires Inv(s) && Enabled(s, a) && (a.Run? ==> !HasPipeLock(s.procs[a.p].phase))
    ensures HolderOk(Step(s, a))
  {
    hide Contents, Fifo, Refs, MayStart, Put, Drop, Next, Full, Empty, NextRole, NextProcs, NextRing, NextTable;
    RingSize(s);
    Untouched(s, a);
    var t := Step(s, a);
    if t.lock.Some? && t.lock.value != a.p {
      assert LockFits(s.procs[t.lock.value], t.lock.value, s.lock, s.ptable);
      Others(s, a, t.lock.value);
    }
    assert LockFits(s.procs[a.p], a.p, s.lock, s.ptable);
  }

  lemma HolderKeeps(s: State, a: Action)
    requires Inv(s) && Enabled(s, a)
    ensures HolderOk(Step(s, a))
  {
    hide Contents, Fifo, Refs, HolderOk, Go;
    RingSize(s);
    assert LockFits(s.procs[a.p], a.p, s.lock, s.ptable);
    if a.Run? && HasPipeLock(s.procs[a.p].phase) {
      HolderSteps(s, a.p);
    } else {
      HolderLeft(s, a);
    }
  }

  /** A process in a call stays in the same call; only Start begins one. */
  lemma SelfCall(s: State, a: Action)
    requires Enabled(s, a) && |s.ring.data| == PIPESIZE
    ensures var q, q' := s.procs[a.p], Step(s, a).procs[a.p];
      && |Step(s, a).procs| == |s.procs|
      && (a.Start? ==> q' == Proc(a.role, Acquire, q.killed))
      && (!a.Start? ==> SameKind(q.role, q'.role) && (Active(q') ==> Active(q)))
  {
    hide Full, Empty, Put, Drop, Next, MayStart, NextRole, NextRing, NextLock, NextTable, Puts, Takes, LoopHead;
    SameCall(s, s.procs[a.p]);
  }

  lemma ShareKeeps(s: State, a: Action, i: nat, j: nat)
    requires Enabled(s, a) && |s.ring.data| == PIPESIZE && i < |s.procs| && j < |s.procs| && i != j
    requires Share(s.procs[i], s.procs[j])
    ensures |Step(s, a).procs| == |s.procs| && Share(Step(s, a).procs[i], Step(s, a).procs[j])
  {
    hide Step;
    SelfCall(s, a);
    if i != a.p { Others(s, a, i); }
    if j != a.p { Others(s, a, j); }
  }

  lemma SelfOpen(s: State, a: Action)
    requires Enabled(s, a) && |s.ring.data| == PIPESIZE && PhaseFits(s.procs[a.p])
    requires Active(s.procs[a.p]) ==> EndOpen(s, s.procs[a.p])
    ensures var t := Step(s, a); |t.procs| == |s.procs| && (Active(t.procs[a.p]) ==> EndOpen(t, t.procs[a.p]))
  {
    hide Full, Empty, Put, Drop, Next, NextRole, NextRing, NextLock, NextTable, Puts, Takes;
    SameCall(s, s.procs[a.p]);
  }

  lemma OtherOpen(s: State, a: Action, r: nat)
    requires Enabled(s, a) && |s.ring.data| == PIPESIZE && r < |s.procs| && r != a.p
    requires Active(s.procs[r]) ==> EndOpen(s, s.procs[r])
    requires Share(s.procs[a.p], s.procs[r])
    ensures var t := Step(s, a); |t.procs| == |s.procs| && (Active(t.procs[r]) ==> EndOpen(t, t.procs[r]))
  {
    hide Full, Empty, Put, Drop, Next, NextRole, NextRing, NextLock, NextTable, NextProcs, NextPhase, Puts, Takes;
    Others(s, a, r);
  }

  /** The page is freed when the second end is closed, and then no process is left in a call. */
  lemma FreedKeeps(s: State, a: Action)
    requires Inv(s) && Enabled(s, a) && |s.ring.data| == PIPESIZE
    ensures var t := Step(s, a); t.freed ==> !t.readopen && !t.writeopen && NoneActive(t.procs)
  {
    hide Valid, Contents, Fifo, Full, Empty, Put, Drop, Next, NextRole, NextRing, NextLock, NextTable, NextProcs,
      NextPhase, Puts, Takes, HolderOk;
    var t := Step(s, a);
    assert LockFits(s.procs[a.p], a.p, s.lock, s.ptable);
    SelfCall(s, a);
    if t.freed {
      forall r | 0 <= r < |s.procs| ensures !Active(t.procs[r]) {
        if r == a.p { FreesItself(s, a); }
        if r != a.p {
          Others(s, a, r);
          assert LockFits(s.procs[r], r, s.lock, s.ptable) && Share(s.procs[a.p], s.procs[r]);
        }
      }
    }
  }

  lemma FreesItself(s: State, a: Action)
    requires Enabled(s, a) && |s.ring.data| == PIPESIZE && Step(s, a).freed && (s.freed ==> !s.readopen && !s.writeopen)
    requires s.freed ==> !Active(s.procs[a.p])
    ensures |Step(s, a).procs| == |s.procs| && !Active(Step(s, a).procs[a.p])
  {
    hide Full, Empty, Put, Drop, Next, NextRole, NextRing, NextLock, NextTable, Puts, Takes, LoopHead;
  }

  lemma RefsKeep(s: State, a: Action)
    requires Inv(s) && Enabled(s, a)
    ensures Refs(Step(s, a))
  {
    hide Contents, Fifo, HolderOk, Step, EndOpen, Share, Enabled;
    InRange(s, a);
    RingSize(s);
    var t := Step(s, a);
    assert LockFits(s.procs[a.p], a.p, s.lock, s.ptable);
    SelfOpen(s, a);
    forall r | 0 <= r < |s.procs| && Active(t.procs[r]) ensures EndOpen(t, t.procs[r]) {
      if r != a.p { OtherOpen(s, a, r); }
    }
    forall i, j | 0 <= i < |s.procs| && 0 <= j < |s.procs| && i != j ensures Share(t.procs[i], t.procs[j]) {
      ShareKeeps(s, a, i, j);
    }
    FreedKeeps(s, a);
  }

  lemma InvKeeps(s: State, a: Action)
    requires Inv(s) && Enabled(s, a) && |s.ring.data| == PIPESIZE
    ensures Inv(Step(s, a))
  {
    hide Step, Enabled, Fifo, Refs, HolderOk, Locks, LockHolders;
    InRange(s, a);
    LocksKeep(s, a);
    FifoKeeps(s, a);
    HolderKeeps(s, a);
    RefsKeep(s, a);
  }

  // ---- no lost wakeups ----

  predicate FallsAsleep(s: State, a: Action, reader: bool)
    requires a.p < |s.procs|
  {
    a.Run? && s.procs[a.p].phase == Sleep2 && (s.procs[a.p].role.Reader? <==> reader)
  }

  /** Nobody but a process on its way through sleep() starts to wait. */
  lemma WaitsBefore(s: State, a: Action, r: nat, reader: bool)
    requires Enabled(s, a) && |s.ring.data| == PIPESIZE && r < |s.procs| && !FallsAsleep(s, a, reader)
    ensures |Step(s, a).procs| == |s.procs| && (Waits(Step(s, a).procs[r], reader) ==> Waits(s.procs[r], reader))
  {
    hide Full, Empty, Put, Drop, Next, MayStart, NextRole, NextRing, NextLock, NextTable, NextProcs, Puts, Takes;
    if r != a.p { Others(s, a, r); }
    if r == a.p { SameCall(s, s.procs[a.p]); }
  }

  lemma NoneWaitsKept(s: State, a: Action, reader: bool)
    requires Enabled(s, a) && |s.ring.data| == PIPESIZE && !FallsAsleep(s, a, reader)
    requires NoneWaits(s.procs, reader)
    ensures NoneWaits(Step(s, a).procs, reader)
  {
    hide Step, Enabled, Waits;
    InRange(s, a);
    var t := Step(s, a);
    WaitsBefore(s, a, a.p, reader);
    forall r | 0 <= r < |t.procs| ensures !Waits(t.procs[r], reader) { WaitsBefore(s, a, r, reader); }
  }

  /** wakeup needs ptable.lock, so no process is between releasing the pipe's lock and sleeping. */
  lemma WakeupReaches(s: State, p: nat, reader: bool)
    requires p < |s.procs| && |s.ring.data| == PIPESIZE && Locks(s) && s.ptable == None
    requires var q := s.procs[p]; (q.phase == WakeFirst && reader) || (q.phase == Wake && reader == WakesReaders(q))
    ensures NoneWaits(Go(s, p).procs, reader)
  {
    hide Full, Empty, Put, Drop, Next, NextRole, NextRing, NextLock, NextTable, Puts, Takes, LoopHead;
    var t := Go(s, p);
    forall r | 0 <= r < |s.procs| ensures !Waits(t.procs[r], reader) {
      assert LockFits(s.procs[r], r, s.lock, s.ptable);
    }
  }

  lemma HeardLeft(s: State, a: Action, reader: bool)
    requires Inv(s) && Enabled(s, a) && (a.Run? ==> !HasPipeLock(s.procs[a.p].phase)) && |s.ring.data| == PIPESIZE
    requires Heard(s, reader)
    ensures Heard(Step(s, a), reader)
  {
    hide Valid, Contents, Fifo, Refs, HolderOk, MayStart, Put, Drop, Next, Full, Empty, NextRole, NextProcs, NextRing,
      NextTable, NoneWaits;
    Untouched(s, a);
    if NoneWaits(s.procs, reader) { NoneWaitsKept(s, a, reader); }
    if WillWake(s, reader) {
      assert LockFits(s.procs[s.lock.value], s.lock.value, s.lock, s.ptable);
      assert LockFits(s.procs[a.p], a.p, s.lock, s.ptable);
      if s.lock.value != a.p { Others(s, a, s.lock.value); }
    }
  }

  /** pipewrite's early return. */
  predicate GivesUp(s: State, a: Action)
    requires a.p < |s.procs|
  {
    && a.Run? && s.procs[a.p].phase == Hold && s.procs[a.p].role.Writer?
    && LoopHead(s, s.procs[a.p]) == Idle
  }

  /** The holder will still wake this kind, or has just done so. */
  lemma HeardByWork(s: State, p: nat, reader: bool)
    requires p < |s.procs| && |s.ring.data| == PIPESIZE && s.lock == Some(p) && HasPipeLock(s.procs[p].phase)
    requires PhaseFits(s.procs[p]) && !GivesUp(s, Run(p))
    requires var q := s.procs[p]; q.phase == Hold || q.phase == Copy
    requires var q := s.procs[p];
      WillWake(s, reader) || (q.role == Closer(reader) && q.phase == Hold) || (q.phase == Copy && !reader)
    ensures WillWake(Go(s, p), reader)
  {
    hide Put, Drop, Next, Full, Empty, NextRole, NextProcs, NextRing;
    SameCall(s, s.procs[p]);
  }

  /** Nothing this kind waits for changes. */
  lemma CalmKept(s: State, p: nat, reader: bool)
    requires p < |s.procs| && |s.ring.data| == PIPESIZE && Calm(s, reader)
    requires var q := s.procs[p]; !(q.role == Closer(reader) && q.phase == Hold)
    requires var q := s.procs[p]; !(reader && q.role.Writer? && q.phase == Hold) && !(!reader && q.phase == Copy)
    ensures Calm(Go(s, p), reader)
  {
    hide Put, Drop, Next, Full, Empty, NextRole, NextProcs, NextLock, NextTable;
  }

  lemma HeardByHolder(s: State, p: nat, reader: bool)
    requires Inv(s) && Enabled(s, Run(p)) && HasPipeLock(s.procs[p].phase) && |s.ring.data| == PIPESIZE
    requires Heard(s, reader) && !(GivesUp(s, Run(p)) && reader)
    ensures Heard(Go(s, p), reader)
  {
    hide Valid, Contents, Fifo, Refs, MayStart, Put, Drop, Next, Full, Empty, NoneWaits, Go, Calm, LoopHead;
    assert LockFits(s.procs[p], p, s.lock, s.ptable);
    var q := s.procs[p];
    if (q.phase == WakeFirst && reader) || (q.phase == Wake && reader == WakesReaders(q)) {
      WakeupReaches(s, p, reader);
    } else if (q.phase == Hold || q.phase == Copy)
      && (WillWake(s, reader) || q.role == Closer(reader) || (q.phase == Copy && !reader)) {
      HeardByWork(s, p, reader);
    } else if FallsAsleep(s, Run(p), reader) {
      CalmKept(s, p, reader);
    } else if NoneWaits(s.procs, reader) {
      NoneWaitsKept(s, Run(p), reader);
      assert Step(s, Run(p)) == Go(s, p);
    } else {
      CalmKept(s, p, reader);
    }
  }

  /** One step keeps the promise, except that pipewrite's early return breaks it for readers exactly
      when one of them is waiting. */
  lemma HeardKeeps(s: State, a: Action, reader: bool)
    requires Inv(s) && Enabled(s, a) && |s.ring.data| == PIPESIZE && Heard(s, reader)
    ensures Heard(Step(s, a), reader) <==> !(reader && GivesUp(s, a) && !NoneWaits(s.procs, true))
  {
    hide Valid, Contents, Fifo, Refs, MayStart, HolderOk, Put, Drop, Next, NoneWaits, Go, Calm, LoopHead, Heard,
      WillWake;
    assert LockFits(s.procs[a.p], a.p, s.lock, s.ptable);
    if reader && GivesUp(s, a) {
      GivingUp(s, a.p);
    } else if a.Run? && HasPipeLock(s.procs[a.p].phase) {
      HeardByHolder(s, a.p, reader);
    } else {
      HeardLeft(s, a, reader);
    }
  }

  lemma GivingUp(s: State, p: nat)
    requires p < |s.procs| && |s.ring.data| == PIPESIZE && GivesUp(s, Run(p))
    ensures Heard(Go(s, p), true) <==> NoneWaits(s.procs, true)
  {
    var t := Go(s, p);
    assert !Calm(t, true) && !WillWake(t, true);
    assert NoneWaits(s.procs, true) <==> NoneWaits(t.procs, true) by {
      assert t.procs == s.procs[p := Proc(s.procs[p].role, Idle, s.procs[p].killed)];
      assert forall r :: 0 <= r < |s.procs| ==> Waits(t.procs[r], true) == Waits(s.procs[r], true);
    }
  }

  // ---- whole runs ----

  ghost predicate NoneKilled(procs: seq<Proc>) {
    forall p :: 0 <= p < |procs| ==> !procs[p].killed
  }

  /** pipealloc has just set the pipe up. */
  ghost predicate Fresh(s: State) {
    && |s.ring.data| == PIPESIZE && s.ring.nread == 0 && s.ring.nwrite == 0
    && s.readopen && s.writeopen && !s.freed && s.lock == None && s.ptable == None
    && s.accepted == [] && s.delivered == [] && NoneActive(s.procs) && NoneKilled(s.procs)
  }

  ghost predicate Behaviour(tr: seq<State>, run: seq<Action>) {
    && |tr| == |run| + 1 && Fresh(tr[0])
    && forall i :: 0 <= i < |run| ==> Follows(tr[i], run[i], tr[i + 1])
  }

  ghost predicate Follows(s: State, a: Action, t: State) {
    |s.ring.data| == PIPESIZE && Enabled(s, a) && t == Step(s, a)
  }

  /** What holds in every state of every run, kills or not. */
  ghost predicate Always(s: State) { Inv(s) && Heard(s, false) }

  lemma FreshAlways(s: State)
    requires Fresh(s)
    ensures Always(s) && Heard(s, true)
  {
    assert forall p :: 0 <= p < |s.procs| ==> !Active(s.procs[p]);
    assert Contents(s.ring) == [];
    assert NoneWaits(s.procs, true) && NoneWaits(s.procs, false);
  }

  lemma KilledStays(s: State, a: Action, r: nat)
    requires Enabled(s, a) && |s.ring.data| == PIPESIZE && r < |s.procs|
    ensures |Step(s, a).procs| == |s.procs| && (s.procs[r].killed ==> Step(s, a).procs[r].killed)
  {
    hide Full, Empty, Put, Drop, Next, MayStart, NextPhase, NextRole, NextRing, NextLock, NextTable, NextProcs, Puts,
      Takes;
    if r != a.p { Others(s, a, r); }
  }

  /** With the read end closed no reader is left to be woken. */
  lemma NoReaders(s: State)
    requires Refs(s) && !s.readopen
    ensures NoneWaits(s.procs, true)
  {
    forall p | 0 <= p < |s.procs| ensures !Waits(s.procs[p], true) {
      assert Active(s.procs[p]) ==> EndOpen(s, s.procs[p]);
    }
  }

  lemma AlwaysKeeps(s: State, a: Action)
    requires Always(s) && Enabled(s, a) && |s.ring.data| == PIPESIZE
    ensures Always(Step(s, a))
  {
    hide Step, Enabled, Inv, Heard;
    InRange(s, a);
    InvKeeps(s, a);
    HeardKeeps(s, a, false);
  }

  lemma {:induction false} RunKeeps(tr: seq<State>, run: seq<Action>, i: nat)
    requires Behaviour(tr, run) && i < |tr|
    ensures Always(tr[i])
  {
    hide Step, Enabled, Always, Fresh;
    if i == 0 {
      FreshAlways(tr[0]);
    } else {
      RunKeeps(tr, run, i - 1);
      assert Follows(tr[i - 1], run[i - 1], tr[i]);
      AlwaysKeeps(tr[i - 1], run[i - 1]);
    }
  }

  /** FIFO under wrap-around: in every run the bytes delivered are a prefix of the bytes accepted and the
      rest, at most PIPESIZE bytes, is what the ring holds. */
  lemma DeliversInOrder(tr: seq<State>, run: seq<Action>, i: nat)
    requires Behaviour(tr, run) && i < |tr|
    ensures var s := tr[i];
      Valid(s.ring) && s.accepted == s.delivered + Contents(s.ring) && |Contents(s.ring)| <= PIPESIZE
  {
    hide Behaviour;
    RunKeeps(tr, run, i);
  }

  // ---- what each call reads and writes ----

  /** What y has beyond x. */
  function Added(x: seq<byte>, y: seq<byte>): (z: seq<byte>) { if |x| <= |y| then y[|x|..] else [] }

  /** What the steps of p have taken out of the pipe from state a to state i, in their order. */
  ghost function TakenBy(tr: seq<State>, run: seq<Action>, p: nat, a: nat, i: nat): (bs: seq<byte>)
    requires Behaviour(tr, run) && a <= i < |tr|
    decreases i
  {
    if i == a then []
    else TakenBy(tr, run, p, a, i - 1)
         + if run[i - 1] == Run(p) then Added(tr[i - 1].delivered, tr[i].delivered) else []
  }

  /** ... and what they have put in. */
  ghost function PutBy(tr: seq<State>, run: seq<Action>, p: nat, a: nat, i: nat): (bs: seq<byte>)
    requires Behaviour(tr, run) && a <= i < |tr|
    decreases i
  {
    if i == a then []
    else PutBy(tr, run, p, a, i - 1)
         + if run[i - 1] == Run(p) then Added(tr[i - 1].accepted, tr[i].accepted) else []
  }

  /** A reader's own step adds to `got` what it adds to `delivered`, a writer's own step moves its cursor
      over what it adds to `accepted`; no other step touches the call. */
  lemma OwnStep(s: State, a: Action, p: nat)
    requires Enabled(s, a) && |s.ring.data| == PIPESIZE && p < |s.procs| && !(a.Start? && a.p == p)
    ensures var t := Step(s, a);
      && |t.procs| == |s.procs|
      && var r, r' := s.procs[p].role, t.procs[p].role;
      && (a != Run(p) ==> r' == r)
      && (a == Run(p) && r.Reader? ==> r' == Reader(r.n, r.got + Added(s.delivered, t.delivered)))
      && (a == Run(p) && r.Writer? && r.i <= |r.src| ==>
            && r'.Writer? && r'.src == r.src && r.i <= r'.i <= |r.src|
            && r.src[r.i..r'.i] == Added(s.accepted, t.accepted))
  {
    hide Full, Empty, Put, Drop, Next, MayStart, NextPhase, NextRing, NextLock, NextTable, NextProcs;
    if a.p != p { Others(s, a, p); }
  }

  /** The call p has begun with step a - 1 and is still making at state i. */
  ghost predicate Calls(run: seq<Action>, p: nat, role: Role, a: nat, i: nat) {
    && 0 < a <= i <= |run| && run[a - 1] == Start(p, role)
    && forall k :: a <= k < i ==> !(run[k].Start? && run[k].p == p)
  }

  lemma CallBegins(tr: seq<State>, run: seq<Action>, p: nat, role: Role, a: nat)
    requires Behaviour(tr, run) && Calls(run, p, role, a, a)
    ensures p < |tr[a].procs| && tr[a].procs[p].role == role && MayStart(tr[a - 1], role)
  {
    hide Fresh, MayStart;
    assert Follows(tr[a - 1], run[a - 1], tr[a]);
  }

  /** In every run: a reader has got exactly the bytes its own steps have taken out of the pipe. */
  lemma {:induction false} ReaderGets(tr: seq<State>, run: seq<Action>, p: nat, n: nat, a: nat, i: nat)
    requires Behaviour(tr, run) && Calls(run, p, Reader(n, []), a, i)
    ensures p < |tr[i].procs| && tr[i].procs[p].role == Reader(n, TakenBy(tr, run, p, a, i))
    decreases i
  {
    hide Step, Enabled, Fresh;
    if i == a {
      CallBegins(tr, run, p, Reader(n, []), a);
    } else {
      ReaderGets(tr, run, p, n, a, i - 1);
      assert Follows(tr[i - 1], run[i - 1], tr[i]);
      OwnStep(tr[i - 1], run[i - 1], p);
      assert TakenBy(tr, run, p, a, i - 1) + [] == TakenBy(tr, run, p, a, i - 1);
    }
  }

  /** In every run: a writer's own steps have put in the bytes of its buffer up to its cursor, in order. */
  lemma {:induction false} WriterPuts(tr: seq<State>, run: seq<Action>, p: nat, src: seq<byte>, a: nat, i: nat)
    requires Behaviour(tr, run) && Calls(run, p, Writer(src, 0), a, i)
    ensures p < |tr[i].procs| && tr[i].procs[p].role.Writer?
    ensures var r := tr[i].procs[p].role; r.src == src && r.i <= |src| && PutBy(tr, run, p, a, i) == src[..r.i]
    decreases i
  {
    hide Step, Enabled, Fresh;
    if i == a {
      CallBegins(tr, run, p, Writer(src, 0), a);
    } else {
      WriterPuts(tr, run, p, src, a, i - 1);
      assert Follows(tr[i - 1], run[i - 1], tr[i]);
      OwnStep(tr[i - 1], run[i - 1], p);
      var j, k := tr[i - 1].procs[p].role.i, tr[i].procs[p].role.i;
      assert src[..j] + src[j..k] == src[..k];
    }
  }

  /** A reader has nothing before it copies; a writer that reaches its final wakeup has put in everything. */
  predicate Progress(q: Proc) {
    && (q.role.Reader? && q.phase in {Acquire, Hold, Sleep1, Sleep2, Sleep3, Asleep, Woken} ==> q.role.got == [])
    && (q.role.Writer? && Active(q) ==> q.role.i <= |q.role.src|)
    && (q.role.Writer? && q.phase in {Wake, Release} ==> q.role.i == |q.role.src|)
  }

  lemma ProgressKeeps(s: State, a: Action, p: nat)
    requires Enabled(s, a) && |s.ring.data| == PIPESIZE
    requires p < |s.procs| && Progress(s.procs[p]) && PhaseFits(s.procs[p])
    ensures |Step(s, a).procs| == |s.procs| && Progress(Step(s, a).procs[p])
  {
    hide Full, Empty, Put, Drop, Next, NextRing, NextLock, NextTable, NextProcs;
    if a.p != p { Others(s, a, p); }
  }

  lemma {:induction false} RunProgress(tr: seq<State>, run: seq<Action>, i: nat, p: nat)
    requires Behaviour(tr, run) && i < |tr| && p < |tr[i].procs|
    ensures Progress(tr[i].procs[p])
    decreases i
  {
    hide Step, Enabled, Progress;
    if i == 0 {
      assert !Active(tr[0].procs[p]);
      assert Progress(tr[0].procs[p]) by { IdleProgress(tr[0].procs[p]); }
    } else {
      assert Follows(tr[i - 1], run[i - 1], tr[i]);
      SameNumber(tr[i - 1], run[i - 1]);
      RunProgress(tr, run, i - 1, p);
      RunKeeps(tr, run, i - 1);
      assert LockFits(tr[i - 1].procs[p], p, tr[i - 1].lock, tr[i - 1].ptable);
      ProgressKeeps(tr[i - 1], run[i - 1], p);
    }
  }

  lemma IdleProgress(q: Proc)
    requires !Active(q)
    ensures Progress(q)
  {
  }

  lemma SameNumber(s: State, a: Action)
    requires Enabled(s, a) && |s.ring.data| == PIPESIZE
    ensures |Step(s, a).procs| == |s.procs|
  {
  }

  /** While p copies, it alone changes the pipe. */
  ghost predicate Copied(s: State, t: State, q: Proc, r: Proc) {
    && Valid(s.ring) && Valid(t.ring) && q.role.Reader? && r.role.Reader? && r.role.n == q.role.n
    && q.role.got <= r.role.got && t.accepted == s.accepted && t.writeopen == s.writeopen
    && var more := r.role.got[|q.role.got|..];
    && t.delivered == s.delivered + more && Contents(s.ring) == more + Contents(t.ring)
  }

  /** One step while reader p copies: p takes the oldest byte, or stops because it has enough or there is no
      more. */
  lemma CopyStep(s: State, a: Action, p: nat)
    requires Inv(s) && Enabled(s, a) && |s.ring.data| == PIPESIZE
    requires p < |s.procs| && s.procs[p].phase == Copy && s.procs[p].role.Reader?
    ensures var t := Step(s, a);
      && |t.procs| == |s.procs| && Copied(s, t, s.procs[p], t.procs[p])
      && (|s.procs[p].role.got| <= s.procs[p].role.n ==> |t.procs[p].role.got| <= s.procs[p].role.n)
      && (t.procs[p].phase == Wake ==>
            && (|t.procs[p].role.got| >= s.procs[p].role.n || Contents(t.ring) == [])
            && t.procs[p].role == s.procs[p].role)
  {
    hide Contents, Put, Drop, Next, Full, Empty, HolderOk, Refs, MayStart, NextProcs, Wakeup;
    assert LockFits(s.procs[p], p, s.lock, s.ptable);
    if a.p == p {
      CopySelf(s, a, p);
    } else {
      assert LockFits(s.procs[a.p], a.p, s.lock, s.ptable);
      Untouched(s, a);
      Others(s, a, p);
    }
  }

  lemma CopySelf(s: State, a: Action, p: nat)
    requires Fifo(s) && Enabled(s, a) && |s.ring.data| == PIPESIZE && a.p == p
    requires p < |s.procs| && s.procs[p].phase == Copy && s.procs[p].role.Reader?
    ensures var t := Step(s, a);
      && |t.procs| == |s.procs| && Copied(s, t, s.procs[p], t.procs[p])
      && (|s.procs[p].role.got| <= s.procs[p].role.n ==> |t.procs[p].role.got| <= s.procs[p].role.n)
      && (t.procs[p].phase == Wake ==>
            && (|t.procs[p].role.got| >= s.procs[p].role.n || Contents(t.ring) == [])
            && t.procs[p].role == s.procs[p].role)
  {
    hide Contents, Put, Drop, Next, Full, Empty, NextLock, NextTable, MayStart;
    var q := s.procs[p];
    Tests(s.ring);
    if Takes(s, q) && a.Run? { DropContents(s.ring); }
  }

  /** Reader p copies from state a on, up to state i. */
  ghost predicate CopiesUpTo(tr: seq<State>, p: nat, a: nat, i: nat) {
    && a <= i < |tr| && p < |tr[a].procs| && tr[a].procs[p].role.Reader?
    && forall k :: a <= k < i ==> p < |tr[k].procs| && tr[k].procs[p].phase == Copy
  }

  lemma {:induction false} CopyRun(tr: seq<State>, run: seq<Action>, p: nat, a: nat, i: nat)
    requires Behaviour(tr, run) && CopiesUpTo(tr, p, a, i) && tr[a].procs[p].role.got == []
    ensures p < |tr[i].procs| && Copied(tr[a], tr[i], tr[a].procs[p], tr[i].procs[p])
    ensures |tr[i].procs[p].role.got| <= tr[i].procs[p].role.n
    ensures a < i && tr[i].procs[p].phase == Wake ==>
      |tr[i].procs[p].role.got| == tr[i].procs[p].role.n || Contents(tr[i].ring) == []
    decreases i
  {
    hide Step, Enabled, Fresh, Contents, Locks, HolderOk, Refs, LockHolders;
    RunKeeps(tr, run, i);
    if a < i {
      CopyRun(tr, run, p, a, i - 1);
      RunKeeps(tr, run, i - 1);
      assert Follows(tr[i - 1], run[i - 1], tr[i]);
      CopyStep(tr[i - 1], run[i - 1], p);
      CopiedTwice(tr[a], tr[i - 1], tr[i], tr[a].procs[p], tr[i - 1].procs[p], tr[i].procs[p]);
    }
  }

  lemma CopiedTwice(s: State, t: State, u: State, q: Proc, r: Proc, w: Proc)
    requires Copied(s, t, q, r) && Copied(t, u, r, w)
    ensures Copied(s, u, q, w)
  {
    hide Contents;
    var x, y, z := q.role.got, r.role.got, w.role.got;
    assert z[|x|..] == y[|x|..] + z[|y|..];
    assert s.delivered + y[|x|..] + z[|y|..] == s.delivered + (y[|x|..] + z[|y|..]);
    assert y[|x|..] + (z[|y|..] + Contents(u.ring)) == (y[|x|..] + z[|y|..]) + Contents(u.ring);
  }

  /** piperead, from leaving its wait loop to its final wakeup, in every run: it gets the oldest bytes held,
      as many as it asked for or all there are, one contiguous piece of what was accepted; it gets none that
      it wanted only if no writer is left. */
  lemma ReadDelivers(tr: seq<State>, run: seq<Action>, p: nat, a: nat, i: nat)
    requires Behaviour(tr, run) && a + 1 < i && a + 1 < |tr|
    requires p < |tr[a].procs| && tr[a].procs[p].role.Reader? && tr[a].procs[p].phase == Hold
    requires CopiesUpTo(tr, p, a + 1, i) && p < |tr[i].procs| && tr[i].procs[p].phase == Wake
    ensures Valid(tr[a].ring) && tr[i].procs[p].role.Reader?
    ensures var held, n, got := Contents(tr[a].ring), tr[a].procs[p].role.n, tr[i].procs[p].role.got;
      && got == held[..if n <= |held| then n else |held|]
      && |tr[a].delivered| + |got| <= |tr[i].accepted|
      && got == tr[i].accepted[|tr[a].delivered|..|tr[a].delivered| + |got|]
      && (got == [] && n > 0 ==> !tr[a].writeopen)
  {
    hide Step, Enabled, Fresh, Contents, Locks, HolderOk, Refs, LockHolders;
    RunKeeps(tr, run, a);
    RunKeeps(tr, run, i);
    assert Follows(tr[a], run[a], tr[a + 1]);
    SameNumber(tr[a], run[a]);
    StartsCopying(tr[a], run[a], p);
    RunProgress(tr, run, a, p);
    CopyRun(tr, run, p, a + 1, i);
    var got := tr[i].procs[p].role.got;
    assert got[0..] == got;
    assert Contents(tr[a].ring) == got + Contents(tr[i].ring);
    assert Contents(tr[a].ring)[..|got|] == got;
    Tests(tr[a].ring);
    assert tr[i].accepted == (tr[a].delivered + got) + Contents(tr[i].ring);
  }

  lemma StartsCopying(s: State, a: Action, p: nat)
    requires Enabled(s, a) && |s.ring.data| == PIPESIZE && p < |s.procs| && s.procs[p].role.Reader?
    requires s.procs[p].phase == Hold && |Step(s, a).procs| == |s.procs| && Step(s, a).procs[p].phase == Copy
    ensures var t := Step(s, a);
      && t.ring == s.ring && t.delivered == s.delivered && t.accepted == s.accepted
      && t.procs[p].role == s.procs[p].role && !(Empty(s.ring) && s.writeopen)
  {
    hide Full, Empty, Put, Drop, Next, MayStart, NextLock, NextTable;
    if a.p != p { Others(s, a, p); }
  }

  /** pipewrite reaches its final wakeup only when every byte of its buffer is in. */
  lemma WriteCompletes(tr: seq<State>, run: seq<Action>, p: nat, src: seq<byte>, a: nat, i: nat)
    requires Behaviour(tr, run) && Calls(run, p, Writer(src, 0), a, i)
    ensures p < |tr[i].procs| && (tr[i].procs[p].phase == Wake ==> PutBy(tr, run, p, a, i) == src)
  {
    hide Follows, Fresh, PutBy;
    WriterPuts(tr, run, p, src, a, i);
    RunProgress(tr, run, i, p);
    assert src[..|src|] == src;
  }

  /** A writer sleeps, with the pipe's lock free, only while the pipe is full and somebody can still read. */
  lemma WriterSleepsForCause(tr: seq<State>, run: seq<Action>, i: nat, p: nat)
    requires Behaviour(tr, run) && i < |tr| && p < |tr[i].procs|
    requires tr[i].procs[p].phase == Asleep && tr[i].procs[p].role.Writer? && tr[i].lock == None
    ensures Full(tr[i].ring) && tr[i].readopen
  {
    hide Behaviour;
    RunKeeps(tr, run, i);
    assert Waits(tr[i].procs[p], false);
  }

  /** pipewrite returns early while a reader waits. */
  ghost predicate Abandons(s: State, a: Action) {
    a.p < |s.procs| && GivesUp(s, a) && !NoneWaits(s.procs, true)
  }

  /** One step of a run, for readers. */
  lemma ReadersStep(tr: seq<State>, run: seq<Action>, i: nat)
    requires Behaviour(tr, run) && i < |run| && Heard(tr[i], true)
    ensures Heard(tr[i + 1], true) <==> !Abandons(tr[i], run[i])
  {
    hide Step, Enabled, Heard, NoneWaits, GivesUp, Inv, Fresh;
    RunKeeps(tr, run, i);
    assert Follows(tr[i], run[i], tr[i + 1]);
    InRange(tr[i], run[i]);
    HeardKeeps(tr[i], run[i], true);
  }

  /** The exact condition over runs: no wakeup for readers is lost up to state n if and only if none of
      the first n steps is an early return of pipewrite while a reader waits. */
  lemma {:induction false} ReadersHeardIff(tr: seq<State>, run: seq<Action>, n: nat)
    requires Behaviour(tr, run) && n <= |run|
    ensures (forall i :: 0 <= i <= n ==> Heard(tr[i], true)) <==> (forall i :: 0 <= i < n ==> !Abandons(tr[i], run[i]))
  {
    hide Follows, Fresh, Heard, Abandons;
    if n == 0 {
      StartsHeard(tr, run);
    } else {
      ReadersHeardIff(tr, run, n - 1);
      if forall i :: 0 <= i <= n - 1 ==> Heard(tr[i], true) { ReadersStep(tr, run, n - 1); }
    }
  }

  lemma StartsHeard(tr: seq<State>, run: seq<Action>)
    requires Behaviour(tr, run)
    ensures Heard(tr[0], true)
  {
    FreshAlways(tr[0]);
  }

  /** A reader sleeps, with the pipe's lock free and no early return behind it that left a reader
      waiting, only while the pipe is empty and somebody can still write. */
  lemma ReaderSleepsForCause(tr: seq<State>, run: seq<Action>, i: nat, p: nat)
    requires Behaviour(tr, run) && i < |tr| && p < |tr[i].procs|
    requires forall j :: 0 <= j < i ==> !Abandons(tr[j], run[j])
    requires tr[i].procs[p].phase == Asleep && tr[i].procs[p].role.Reader? && tr[i].lock == None
    ensures Empty(tr[i].ring) && tr[i].writeopen
  {
    hide Follows, Fresh, Abandons;
    ReadersHeardIff(tr, run, i);
    assert Waits(tr[i].procs[p], true);
  }

  /** While nobody has been killed, nobody has left a reader waiting: an early return then means that the
      read end is closed, and no reader uses a closed end. */
  lemma {:induction false} UnkilledNeverAbandon(tr: seq<State>, run: seq<Action>, i: nat, j: nat)
    requires Behaviour(tr, run) && j < i < |tr| && NoneKilled(tr[i].procs)
    ensures NoneKilled(tr[j].procs) && !Abandons(tr[j], run[j])
    decreases i - j
  {
    hide Step, Enabled, Heard, NoneWaits, Fresh, Fifo, HolderOk, Locks, LockHolders;
    assert Follows(tr[j], run[j], tr[j + 1]);
    InRange(tr[j], run[j]);
    if j + 1 < i { UnkilledNeverAbandon(tr, run, i, j + 1); }
    KilledStays(tr[j], run[j], run[j].p);
    forall r | 0 <= r < |tr[j].procs| ensures !tr[j].procs[r].killed { KilledStays(tr[j], run[j], r); }
    RunKeeps(tr, run, j);
    if !tr[j].readopen { NoReaders(tr[j]); }
  }

  /** In particular: with no process killed, a reader asleep means an empty pipe with its write end open. */
  lemma UnkilledReaderSleepsForCause(tr: seq<State>, run: seq<Action>, i: nat, p: nat)
    requires Behaviour(tr, run) && i < |tr| && p < |tr[i].procs| && NoneKilled(tr[i].procs)
    requires tr[i].procs[p].phase == Asleep && tr[i].procs[p].role.Reader? && tr[i].lock == None
    ensures Empty(tr[i].ring) && tr[i].writeopen
  {
    hide Follows, Fresh, Abandons;
    forall j | 0 <= j < i ensures !Abandons(tr[j], run[j]) { UnkilledNeverAbandon(tr, run, i, j); }
    ReaderSleepsForCause(tr, run, i, p);
  }

  /** The pipe's page is freed at most once, and no process is then inside the pipe code. */
  lemma FreedOnce(tr: seq<State>, run: seq<Action>, i: nat)
    requires Behaviour(tr, run) && i < |run| && tr[i].freed
    ensures run[i].Kill? && NoneActive(tr[i + 1].procs) && tr[i + 1].freed
  {
    RunKeeps(tr, run, i);
    RunKeeps(tr, run, i + 1);
    assert Follows(tr[i], run[i], tr[i + 1]);
  }

  /** Has closed its end and not yet left. */
  predicate Closing(q: Proc) { q.role.Closer? && (q.phase == Wake || q.phase == Release) }

  /** With both ends closed the page is freed, or the process that closed the second is about to free it. */
  ghost predicate Reclaims(s: State) {
    !s.readopen && !s.writeopen && !s.freed ==>
      exists p :: 0 <= p < |s.procs| && Closing(s.procs[p])
  }

  lemma ReclaimsKeeps(s: State, a: Action)
    requires Inv(s) && Enabled(s, a) && |s.ring.data| == PIPESIZE && Reclaims(s)
    ensures Reclaims(Step(s, a))
  {
    hide Valid, Contents, Fifo, Full, Empty, Put, Drop, Next, NextRing, NextLock, NextTable, NextProcs, Puts, Takes,
      HolderOk, Refs, MayStart, Locks, NextRole;
    var t := Step(s, a);
    SelfCall(s, a);
    if !t.readopen && !t.writeopen && !t.freed {
      if !s.readopen && !s.writeopen {
        var p :| 0 <= p < |s.procs| && Closing(s.procs[p]);
        if p != a.p { Others(s, a, p); }
        assert Closing(t.procs[p]);
      } else {
        assert Closing(t.procs[a.p]);
      }
    }
  }

  lemma {:induction false} RunReclaims(tr: seq<State>, run: seq<Action>, i: nat)
    requires Behaviour(tr, run) && i < |tr|
    ensures Reclaims(tr[i])
  {
    hide Step, Enabled, Reclaims;
    if i == 0 {
      assert Reclaims(tr[0]) by { OpenReclaims(tr[0]); }
    } else {
      RunReclaims(tr, run, i - 1);
      RunKeeps(tr, run, i - 1);
      assert Follows(tr[i - 1], run[i - 1], tr[i]);
      ReclaimsKeeps(tr[i - 1], run[i - 1]);
    }
  }

  lemma OpenReclaims(s: State)
    requires s.readopen
    ensures Reclaims(s)
  {
  }

  /** In every run: once both ends are closed and nobody is in the pipe code, the page has been freed. */
  lemma ClosedIsFreed(tr: seq<State>, run: seq<Action>, i: nat)
    requires Behaviour(tr, run) && i < |tr| && !tr[i].readopen && !tr[i].writeopen && NoneActive(tr[i].procs)
    ensures tr[i].freed
  {
    hide Follows, Fresh;
    RunReclaims(tr, run, i);
  }

  // ---- killed processes ----

  /** Killed and not on its way to sleep. */
  predicate Doomed(q: Proc) { q.killed && q.phase !in {WakeFirst, Sleep1, Sleep2, Sleep3, Asleep} }

  /** Whatever happens, such a process does not sleep on the pipe again. */
  lemma DoomedStays(s: State, a: Action, p: nat)
    requires Enabled(s, a) && |s.ring.data| == PIPESIZE && p < |s.procs| && Doomed(s.procs[p])
    ensures |Step(s, a).procs| == |s.procs| && Doomed(Step(s, a).procs[p])
  {
    hide Full, Empty, Put, Drop, Next, MayStart, NextRole, NextRing, NextLock, NextTable, NextProcs, Takes;
    if a.p != p { Others(s, a, p); }
  }

  lemma {:induction false} NeverSleepsAgain(tr: seq<State>, run: seq<Action>, p: nat, i: nat, j: nat)
    requires Behaviour(tr, run) && i <= j < |tr| && p < |tr[i].procs| && Doomed(tr[i].procs[p])
    ensures p < |tr[j].procs| && Doomed(tr[j].procs[p])
    decreases j
  {
    hide Step, Enabled, Fresh, Doomed;
    if i < j {
      NeverSleepsAgain(tr, run, p, i, j - 1);
      assert Follows(tr[j - 1], run[j - 1], tr[j]);
      DoomedStays(tr[j - 1], run[j - 1], p);
    }
  }

  /** kill reaches a sleeper, but not a process that has found reason to sleep and not yet fallen asleep:
      its victim is out of the pipe's sleep for good exactly if it is in neither of these two phases. */
  lemma KillDooms(s: State, p: nat)
    requires Inv(s) && Enabled(s, Kill(p)) && |s.ring.data| == PIPESIZE
    ensures var q := Step(s, Kill(p)).procs[p];
      && q.killed && q.phase != Asleep
      && (Doomed(q) <==> s.procs[p].phase != WakeFirst && s.procs[p].phase != Sleep1)
  {
    assert LockFits(s.procs[p], p, s.lock, s.ptable);
  }

  // ---- the early return of a killed writer ----

  ghost predicate Reachable(s: State) {
    exists tr: seq<State>, run: seq<Action> :: Behaviour(tr, run) && tr[|run|] == s
  }

  lemma ReachStep(s: State, a: Action) returns (t: State)
    requires Reachable(s) && Enabled(s, a) && |s.ring.data| == PIPESIZE
    ensures Reachable(t) && t == Step(s, a)
  {
    hide Step, Enabled, Fresh;
    InRange(s, a);
    t := Step(s, a);
    var tr: seq<State>, run: seq<Action> :| Behaviour(tr, run) && tr[|run|] == s;
    var tr', run' := tr + [t], run + [a];
    forall i | 0 <= i < |run'| ensures Follows(tr'[i], run'[i], tr'[i + 1]) {
      if i < |run| { assert Follows(tr[i], run[i], tr[i + 1]); }
    }
    assert Behaviour(tr', run') && tr'[|run'|] == t;
  }

  /** A reader asleep on the empty pipe and a writer that has put i of its 513 bytes. */
  ghost predicate Filling(s: State, i: nat) {
    && Valid(s.ring) && Count(s.ring) == i && s.readopen && s.writeopen && s.lock == Some(1) && s.ptable == None
    && |s.procs| == 2 && s.procs[0] == Proc(Reader(1, []), Asleep, false)
    && s.procs[1].role.Writer? && s.procs[1].phase == Hold && !s.procs[1].killed
    && |s.procs[1].role.src| == 513 && s.procs[1].role.i == i
  }

  lemma {:induction false} FillUp(s: State, i: nat) returns (t: State)
    requires Reachable(s) && Filling(s, i) && i <= PIPESIZE
    ensures Reachable(t) && Filling(t, PIPESIZE)
    decreases PIPESIZE - i
  {
    hide Reachable;
    if i == PIPESIZE {
      t := s;
    } else {
      Tests(s.ring);
      PutContents(s.ring, s.procs[1].role.src[i]);
      var u := ReachStep(s, Run(1));
      t := FillUp(u, i + 1);
    }
  }

  lemma ReaderAsleep() returns (s: State)
    ensures Reachable(s) && Valid(s.ring) && Count(s.ring) == 0 && s.readopen && s.writeopen && s.lock == None
    ensures s.ptable == None && s.procs == [Proc(Reader(1, []), Asleep, false), Proc(Closer(true), Idle, false)]
  {
    hide Reachable;
    var ring := Ring(seq(PIPESIZE, _ => 0), 0, 0);
    var idle := Proc(Closer(true), Idle, false);
    var s0 := State(ring, true, true, false, None, None, [idle, idle], [], []);
    FreshReachable(s0);
    var s1 := ReachStep(s0, Start(0, Reader(1, [])));
    var s2 := ReachStep(s1, Run(0));
    s := FallAsleep(s2);
  }

  /** A reader that finds the pipe empty goes through sleep(). */
  lemma FallAsleep(s2: State) returns (s: State)
    requires Reachable(s2) && Valid(s2.ring) && Count(s2.ring) == 0 && s2.readopen && s2.writeopen
    requires s2.lock == Some(0) && s2.ptable == None
    requires s2.procs == [Proc(Reader(1, []), Hold, false), Proc(Closer(true), Idle, false)]
    ensures Reachable(s) && Valid(s.ring) && Count(s.ring) == 0 && s.readopen && s.writeopen && s.lock == None
    ensures s.ptable == None && s.procs == [Proc(Reader(1, []), Asleep, false), Proc(Closer(true), Idle, false)]
  {
    hide Reachable;
    var s3 := ReachStep(s2, Run(0));
    var s4 := ReachStep(s3, Run(0));
    var s5 := ReachStep(s4, Run(0));
    s := ReachStep(s5, Run(0));
  }

  lemma FreshReachable(s: State)
    requires Fresh(s)
    ensures Reachable(s)
  {
    var none: seq<Action> := [];
    assert Behaviour([s], none) && [s][|none|] == s;
  }

  /** Without the condition on killed processes the promise to readers is false: a writer killed after
      filling the pipe leaves a reader asleep on 512 bytes. */
  lemma KilledWriterLosesWakeup() returns (s: State)
    ensures Reachable(s) && s.lock == None && s.ptable == None && s.readopen && s.writeopen
    ensures |s.procs| == 2 && s.procs[0] == Proc(Reader(1, []), Asleep, false) && s.procs[1].phase == Idle
    ensures Full(s.ring) && !Empty(s.ring)
  {
    hide Reachable;
    var s0 := ReaderAsleep();
    var s1 := ReachStep(s0, Start(1, Writer(seq(513, _ => 7), 0)));
    var s2 := ReachStep(s1, Run(1));
    var s3 := FillUp(s2, 0);
    var s4 := ReachStep(s3, Kill(1));
    Tests(s4.ring);
    s := ReachStep(s4, Run(1));
  }
}
