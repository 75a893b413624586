/** proc.c: the process table.  Each method is one critical section of ptable.lock (or one of the
    unlocked writes fork makes to the slot it is building), so any interleaving of calls is a run of
    the kernel and `Valid` is what holds whenever the lock is free. */
module ProcTable {
  import opened Wrappers

  datatype State = UNUSED | EMBRYO | SLEEPING | RUNNABLE | RUNNING | ZOMBIE

  const NONE := -1

  /** `parent` is a slot number or NONE.  A channel below the table size is the address of that slot
      (wait sleeps there); other channels are larger; NONE is no channel. */
  datatype Proc = Proc(state: State, pid: int, parent: int, chan: int, killed: bool)

  type Table = seq<Proc>

  predicate Alive(p: Proc) { p.state == SLEEPING || p.state == RUNNABLE || p.state == RUNNING }

  predicate Unused(p: Proc) { p.state == UNUSED }

  predicate Embryo(p: Proc) { p.state == EMBRYO }

  /** Occupied by a process that fork has let loose. */
  predicate Loose(p: Proc) { Alive(p) || p.state == ZOMBIE }

  // ---------------------------------------------------------------- what the loops compute

  /** wakeup1. */
  function Woken(t: Table, chan: int): (r: Table)
    ensures |r| == |t|
    ensures forall i :: 0 <= i < |t| ==>
      r[i] == if t[i].state == SLEEPING && t[i].chan == chan then t[i].(state := RUNNABLE) else t[i]
  {
    seq(|t|, i requires 0 <= i < |t| =>
      if t[i].state == SLEEPING && t[i].chan == chan then t[i].(state := RUNNABLE) else t[i])
  }

  /** Every child of `me` handed to `init`. */
  function Adopted(t: Table, me: int, init: int): (r: Table)
    ensures |r| == |t|
    ensures forall i :: 0 <= i < |t| ==> r[i] == if t[i].parent == me then t[i].(parent := init) else t[i]
  {
    seq(|t|, i requires 0 <= i < |t| => if t[i].parent == me then t[i].(parent := init) else t[i])
  }

  predicate ZombieChild(t: Table, me: int, i: int)
    requires 0 <= i < |t|
  {
    t[i].parent == me && t[i].state == ZOMBIE
  }

  predicate HasZombie(t: Table, me: int) {
    exists i :: 0 <= i < |t| && ZombieChild(t, me, i)
  }

  /** The table exit leaves. */
  function Exited(t: Table, me: nat, init: int): (r: Table)
    requires me < |t|
    ensures |r| == |t|
  {
    var a := Adopted(Woken(t, t[me].parent), me, init);
    var b := if HasZombie(t, me) then Woken(a, init) else a;
    b[me := b[me].(state := ZOMBIE)]
  }

  // ---------------------------------------------------------------- the invariant

  /** Every process but init that is loose has a live parent. */
  ghost predicate Parented(t: Table, init: int) {
    && 0 <= init < |t| && Alive(t[init])
    && forall i {:trigger Loose(t[i])} :: 0 <= i < |t| && Loose(t[i]) && i != init ==>
         0 <= t[i].parent < |t| && t[i].parent != i && Alive(t[t[i].parent])
  }

  /** Asleep in wait. */
  predicate Waits(t: Table, i: int) { 0 <= i < |t| && t[i].state == SLEEPING && t[i].chan == i }

  predicate HasChild(t: Table, me: int) { exists i :: 0 <= i < |t| && t[i].parent == me }

  /** Whoever sleeps in wait has a child, none that has exited, and has not been killed. */
  ghost predicate NoneForgotten(t: Table) {
    && (forall i, j :: Waits(t, i) && 0 <= j < |t| ==> !ZombieChild(t, i, j))
    && (forall i :: Waits(t, i) ==> HasChild(t, i) && !t[i].killed)
  }

  /** Slots not yet let loose belong to no one, or to the live process that is forking them. */
  ghost predicate Embryos(t: Table, forking: map<int, int>) {
    && (forall i {:trigger Unused(t[i])} :: 0 <= i < |t| && Unused(t[i]) ==> t[i].parent == NONE)
    && (forall i {:trigger Embryo(t[i])} :: 0 <= i < |t| && Embryo(t[i]) ==> i in forking)
    && (forall i {:trigger i in forking} :: i in forking ==>
         && 0 <= i < |t| && Embryo(t[i])
         && 0 <= forking[i] < |t| && Alive(t[forking[i]]) && (t[i].parent == NONE || t[i].parent == forking[i]))
  }

  /** Process identifiers are distinct, old, and not among those wait has returned.  A slot that holds no
      process has none, or that of a fork that failed. */
  ghost predicate Pids(t: Table, nextpid: int, returned: set<int>) {
    && (forall i :: 0 <= i < |t| ==> 0 <= t[i].pid < nextpid && t[i].pid !in returned)
    && (forall i :: 0 <= i < |t| && t[i].state != UNUSED ==> t[i].pid != 0)
    && (forall i, j :: 0 <= i < j < |t| && t[i].pid != 0 ==> t[i].pid != t[j].pid)
    && (forall p :: p in returned ==> 0 < p < nextpid) && nextpid > 0
  }

  ghost predicate Invariant(t: Table, init: int, forking: map<int, int>, nextpid: int, returned: set<int>) {
    Parented(t, init) && NoneForgotten(t) && Embryos(t, forking) && Pids(t, nextpid, returned)
  }

  /** A process that is between fork's allocproc and its last step. */
  ghost predicate Forking(forking: map<int, int>, me: int) { exists i :: i in forking && forking[i] == me }

  /** Exit, slot by slot. */
  ghost predicate ExitEffect(t: Table, r: Table, me: nat, init: int) {
    && |r| == |t| && me < |t|
    && r[me].state == ZOMBIE
    && (forall i :: 0 <= i < |t| ==>
         && r[i].pid == t[i].pid && r[i].chan == t[i].chan && r[i].killed == t[i].killed
         && r[i].parent == if t[i].parent == me then init else t[i].parent)
    && (forall i :: 0 <= i < |t| && i != me ==>
         r[i].state == if t[i].state == SLEEPING && Wakes(t, me, init, t[i].chan) then RUNNABLE else t[i].state)
  }

  /** Exit wakes the parent, and init if it inherits an exited child. */
  predicate Wakes(t: Table, me: nat, init: int, chan: int)
    requires me < |t|
  {
    chan == t[me].parent || (chan == init && HasZombie(t, me))
  }

  lemma ExitedEffect(t: Table, me: nat, init: int)
    requires me < |t|
    ensures ExitEffect(t, Exited(t, me, init), me, init)
  {
    hide HasZombie;
  }

  lemma ExitParented(t: Table, r: Table, me: nat, init: int, forking: map<int, int>)
    requires Parented(t, init) && Embryos(t, forking) && ExitEffect(t, r, me, init) && me != init
    requires t[me].state == RUNNING && !Forking(forking, me)
    ensures Parented(r, init)
  {
    hide HasZombie;
    forall i | 0 <= i < |r| && Loose(r[i]) && i != init
      ensures 0 <= r[i].parent < |r| && r[i].parent != i && Alive(r[r[i].parent])
    {
      assert Loose(t[i]) && Alive(t[t[i].parent]);
    }
    assert Alive(t[init]);
  }

  lemma ExitEmbryos(t: Table, r: Table, me: nat, init: int, forking: map<int, int>)
    requires Embryos(t, forking) && ExitEffect(t, r, me, init) && t[me].state == RUNNING && !Forking(forking, me)
    requires 0 <= init < |t| && me != init
    ensures Embryos(r, forking)
  {
    hide HasZombie;
    forall i | 0 <= i < |r| && Unused(r[i]) ensures r[i].parent == NONE {
      assert Unused(t[i]);
    }
    forall i | 0 <= i < |r| && Embryo(r[i]) ensures i in forking {
      assert Embryo(t[i]);
    }
    forall i | i in forking
      ensures 0 <= i < |r| && Embryo(r[i]) && 0 <= forking[i] < |r| && Alive(r[forking[i]])
      ensures r[i].parent == NONE || r[i].parent == forking[i]
    {
      assert Embryo(t[i]) && forking[i] != me && Alive(t[forking[i]]);
    }
  }

  lemma ExitForgets(t: Table, r: Table, me: nat, init: int)
    requires Parented(t, init) && NoneForgotten(t) && ExitEffect(t, r, me, init) && me != init && t[me].state == RUNNING
    ensures NoneForgotten(r)
  {
    forall i, j | Waits(r, i) && 0 <= j < |r| ensures !ZombieChild(r, i, j) {
      assert Waits(t, i) && !ZombieChild(t, i, j);
      assert Loose(t[me]);
      if ZombieChild(t, me, j) { assert HasZombie(t, me); }
    }
    forall i | Waits(r, i) ensures HasChild(r, i) && !r[i].killed {
      assert Waits(t, i) && HasChild(t, i);
      var j :| 0 <= j < |t| && t[j].parent == i;
      assert r[j].parent == i;
    }
  }

  lemma ExitSpares(t: Table, r: Table, me: nat, init: int)
    requires ExitEffect(t, r, me, init)
    ensures Spared(t) ==> Spared(r)
  {
    hide HasZombie;
  }

  lemma ExitPids(t: Table, r: Table, me: nat, init: int, nextpid: int, returned: set<int>)
    requires Pids(t, nextpid, returned) && ExitEffect(t, r, me, init) && t[me].state == RUNNING
    ensures Pids(r, nextpid, returned)
  {
    hide HasZombie;
    assert forall i :: 0 <= i < |t| ==> (r[i].state == UNUSED <==> t[i].state == UNUSED);
  }

  /** Exit keeps the whole protocol. */
  lemma ExitKeeps(t: Table, init: int, forking: map<int, int>, nextpid: int, returned: set<int>, me: nat)
    requires Invariant(t, init, forking, nextpid, returned) && me < |t| && me != init
    requires t[me].state == RUNNING && !Forking(forking, me)
    ensures Invariant(Exited(t, me, init), init, forking, nextpid, returned)
  {
    hide NoneForgotten, Embryos, Pids, Exited, ExitEffect, Forking;
    var r := Exited(t, me, init);
    ExitedEffect(t, me, init);
    ExitParented(t, r, me, init, forking);
    ExitEmbryos(t, r, me, init, forking);
    ExitForgets(t, r, me, init);
    ExitPids(t, r, me, init, nextpid, returned);
  }

  // ---------------------------------------------------------------- wait

  /** The slot wait has emptied. */
  function Reaped(t: Table, i: nat): (r: Table)
    requires i < |t|
    ensures |r| == |t|
  {
    t[i := t[i].(state := UNUSED, pid := 0, parent := NONE, killed := false)]
  }

  lemma ReapKeeps(t: Table, init: int, forking: map<int, int>, nextpid: int, returned: set<int>, me: nat, i: nat)
    requires Invariant(t, init, forking, nextpid, returned) && i < |t| && t[i].state == ZOMBIE && t[i].parent == me
    requires me < |t| && t[me].state == RUNNING
    ensures Invariant(Reaped(t, i), init, forking, nextpid, returned + {t[i].pid}) && t[i].pid !in returned
  {
    hide NoneForgotten, Embryos, Pids, Parented;
    OneForgets(t, i, Reaped(t, i)[i]);
    ReapParented(t, init, i);
    ReapEmbryos(t, forking, i);
    ReapPids(t, nextpid, returned, i);
  }

  lemma ReapParented(t: Table, init: int, i: nat)
    requires Parented(t, init) && i < |t| && t[i].state == ZOMBIE
    ensures Parented(Reaped(t, i), init)
  {
    var r := Reaped(t, i);
    forall j | 0 <= j < |r| && Loose(r[j]) && j != init
      ensures 0 <= r[j].parent < |r| && r[j].parent != j && Alive(r[r[j].parent])
    {
      assert Loose(t[j]);
    }
  }

  lemma ReapEmbryos(t: Table, forking: map<int, int>, i: nat)
    requires Embryos(t, forking) && i < |t| && t[i].state == ZOMBIE
    ensures Embryos(Reaped(t, i), forking)
  {
    var r := Reaped(t, i);
    forall j | 0 <= j < |r| && Unused(r[j]) ensures r[j].parent == NONE { assert j != i ==> Unused(t[j]); }
    forall j | 0 <= j < |r| && Embryo(r[j]) ensures j in forking { assert Embryo(t[j]); }
  }

  lemma ReapPids(t: Table, nextpid: int, returned: set<int>, i: nat)
    requires Pids(t, nextpid, returned) && i < |t| && t[i].state == ZOMBIE
    ensures Pids(Reaped(t, i), nextpid, returned + {t[i].pid}) && t[i].pid !in returned
  {
  }

  /** Changing one slot: no one sleeping in wait gains an exited child or loses the last one. */
  lemma OneForgets(t: Table, i: nat, p: Proc)
    requires NoneForgotten(t) && i < |t|
    requires p.state == ZOMBIE ==> t[i].state == ZOMBIE && t[i].parent == p.parent
    requires p.state == SLEEPING && p.chan == i ==> !p.killed && (Waits(t, i) || (!HasZombie(t, i) && HasChild(t, i)))
    requires p.parent == t[i].parent || (p.state != SLEEPING && !Waits(t, t[i].parent))
    ensures NoneForgotten(t[i := p])
  {
    var r := t[i := p];
    forall j, k | Waits(r, j) && 0 <= k < |r| ensures !ZombieChild(r, j, k) {
      assert j != i ==> Waits(t, j);
      assert ZombieChild(t, j, k) ==> HasZombie(t, j);
    }
    forall j | Waits(r, j) ensures HasChild(r, j) && !r[j].killed {
      assert j != i ==> Waits(t, j);
      var k :| 0 <= k < |t| && t[k].parent == j;
      assert r[k].parent == j;
    }
  }

  lemma WaitSleepKeeps(t: Table, init: int, forking: map<int, int>, nextpid: int, returned: set<int>, me: nat)
    requires Invariant(t, init, forking, nextpid, returned) && me < |t| && t[me].state == RUNNING && !HasZombie(t, me)
    requires HasChild(t, me) && !t[me].killed
    ensures Invariant(t[me := t[me].(state := SLEEPING, chan := me)], init, forking, nextpid, returned)
  {
    StateChange(t, init, forking, nextpid, returned, me, t[me].(state := SLEEPING, chan := me));
  }

  /** Same process in every slot, still alive, exited or being built as it was. */
  ghost predicate SameKinds(t: Table, r: Table) {
    && |r| == |t|
    && forall i {:trigger r[i]} :: 0 <= i < |t| ==>
         && Alive(r[i]) == Alive(t[i]) && Loose(r[i]) == Loose(t[i])
         && Unused(r[i]) == Unused(t[i]) && Embryo(r[i]) == Embryo(t[i])
         && r[i].pid == t[i].pid && r[i].parent == t[i].parent
  }

  lemma KindsKeep(t: Table, r: Table, init: int, forking: map<int, int>, nextpid: int, returned: set<int>)
    requires SameKinds(t, r) && Parented(t, init) && Embryos(t, forking) && Pids(t, nextpid, returned)
    ensures Parented(r, init) && Embryos(r, forking) && Pids(r, nextpid, returned)
  {
    forall i | 0 <= i < |r| && Loose(r[i]) && i != init
      ensures 0 <= r[i].parent < |r| && r[i].parent != i && Alive(r[r[i].parent])
    {
      assert Loose(t[i]);
    }
    forall i | 0 <= i < |r| ensures (r[i].state == UNUSED) == (t[i].state == UNUSED) {
      assert Unused(r[i]) == Unused(t[i]);
    }
    assert r[init] == r[init];
    forall i | i in forking
      ensures Embryo(r[i]) && Alive(r[forking[i]])
    {
      assert Embryo(t[i]) && Alive(t[forking[i]]);
    }
  }

  /** A live process changing state, channel or killed flag, as long as it does not fall asleep in wait
      over an exited child or without any child. */
  lemma StateChange(t: Table, init: int, forking: map<int, int>, nextpid: int, returned: set<int>, i: nat, p: Proc)
    requires Invariant(t, init, forking, nextpid, returned) && i < |t| && Alive(t[i]) && Alive(p)
    requires p.pid == t[i].pid && p.parent == t[i].parent
    requires p.state == SLEEPING && p.chan == i ==> !p.killed && (Waits(t, i) || (!HasZombie(t, i) && HasChild(t, i)))
    ensures Invariant(t[i := p], init, forking, nextpid, returned)
  {
    hide Parented, Embryos, Pids, NoneForgotten, HasZombie;
    assert SameKinds(t, t[i := p]);
    KindsKeep(t, t[i := p], init, forking, nextpid, returned);
    OneForgets(t, i, p);
  }

  lemma WakeKeeps(t: Table, init: int, forking: map<int, int>, nextpid: int, returned: set<int>, chan: int)
    requires Invariant(t, init, forking, nextpid, returned)
    ensures Invariant(Woken(t, chan), init, forking, nextpid, returned)
  {
    hide Parented, Embryos, Pids;
    var r := Woken(t, chan);
    assert SameKinds(t, r);
    KindsKeep(t, r, init, forking, nextpid, returned);
    forall j, k | Waits(r, j) && 0 <= k < |r| ensures !ZombieChild(r, j, k) {
      assert Waits(t, j) && !ZombieChild(t, j, k);
    }
    forall j | Waits(r, j) ensures HasChild(r, j) && !r[j].killed {
      assert Waits(t, j);
      var k :| 0 <= k < |t| && t[k].parent == j;
      assert r[k].parent == j;
    }
  }

  // ---------------------------------------------------------------- fork

  /** allocproc. */
  lemma AllocKeeps(t: Table, init: int, forking: map<int, int>, nextpid: int, returned: set<int>, me: nat, i: nat)
    requires Invariant(t, init, forking, nextpid, returned) && me < |t| && Alive(t[me]) && i < |t| && Unused(t[i])
    ensures Invariant(t[i := t[i].(state := EMBRYO, pid := nextpid)], init, forking[i := me], nextpid + 1, returned)
  {
    hide NoneForgotten, HasZombie;
    var p := t[i].(state := EMBRYO, pid := nextpid);
    OneForgets(t, i, p);
    SlotParented(t, init, i, p);
    var r, forking' := t[i := p], forking[i := me];
    forall j | 0 <= j < |r| && Unused(r[j]) ensures r[j].parent == NONE { assert Unused(t[j]); }
    forall j | 0 <= j < |r| && Embryo(r[j]) ensures j in forking' { assert j != i ==> Embryo(t[j]); }
    forall j | j in forking' && j != i ensures Embryo(r[j]) && Alive(r[forking'[j]]) { assert j in forking; }
  }

  /** A slot that holds no live process takes on a state that is not loose, or a live child. */
  lemma SlotParented(t: Table, init: int, i: nat, p: Proc)
    requires Parented(t, init) && i < |t| && !Alive(t[i])
    requires Loose(p) ==> 0 <= p.parent < |t| && p.parent != i && Alive(t[p.parent])
    ensures Parented(t[i := p], init)
  {
    var r := t[i := p];
    forall j | 0 <= j < |r| && Loose(r[j]) && j != init
      ensures 0 <= r[j].parent < |r| && r[j].parent != j && Alive(r[r[j].parent])
    {
      assert j != i ==> Loose(t[j]);
    }
  }

  lemma BeingBuilt(t: Table, init: int, forking: map<int, int>, nextpid: int, returned: set<int>, i: nat)
    requires Invariant(t, init, forking, nextpid, returned) && i in forking && i < |t|
    ensures Embryo(t[i])
  {
  }

  /** fork gives up before it has set the parent. */
  lemma AbortKeeps(t: Table, init: int, forking: map<int, int>, nextpid: int, returned: set<int>, i: nat)
    requires Invariant(t, init, forking, nextpid, returned) && i in forking && i < |t| && t[i].parent == NONE
    ensures Invariant(t[i := t[i].(state := UNUSED)], init, forking - {i}, nextpid, returned)
  {
    hide NoneForgotten, HasZombie;
    var p := t[i].(state := UNUSED);
    assert Embryo(t[i]);
    OneForgets(t, i, p);
    SlotParented(t, init, i, p);
    var r, forking' := t[i := p], forking - {i};
    forall j | 0 <= j < |r| && Unused(r[j]) ensures r[j].parent == NONE { assert j != i ==> Unused(t[j]); }
    forall j | 0 <= j < |r| && Embryo(r[j]) ensures j in forking' { assert Embryo(t[j]); }
    forall j | j in forking' ensures Embryo(r[j]) && Alive(r[forking'[j]]) { assert j in forking; }
  }

  /** fork's unlocked assignment to np->parent. */
  lemma ParentKeeps(t: Table, init: int, forking: map<int, int>, nextpid: int, returned: set<int>, i: nat)
    requires Invariant(t, init, forking, nextpid, returned) && i in forking && i < |t|
    ensures Invariant(t[i := t[i].(parent := forking[i])], init, forking, nextpid, returned)
  {
    hide NoneForgotten, HasZombie;
    var p := t[i].(parent := forking[i]);
    assert Embryo(t[i]);
    OneForgets(t, i, p);
    SlotParented(t, init, i, p);
    var r := t[i := p];
    forall j | 0 <= j < |r| && Unused(r[j]) ensures r[j].parent == NONE { assert Unused(t[j]); }
    forall j | 0 <= j < |r| && Embryo(r[j]) ensures j in forking { assert Embryo(t[j]); }
    forall j | j in forking ensures Embryo(r[j]) && Alive(r[forking[j]]) { assert Embryo(t[j]); }
  }

  /** fork lets the child loose. */
  lemma PublishKeeps(t: Table, init: int, forking: map<int, int>, nextpid: int, returned: set<int>, i: nat)
    requires Invariant(t, init, forking, nextpid, returned) && i in forking && i < |t| && t[i].parent == forking[i]
    ensures Invariant(t[i := t[i].(state := RUNNABLE)], init, forking - {i}, nextpid, returned)
  {
    hide NoneForgotten, HasZombie;
    var p := t[i].(state := RUNNABLE);
    assert Embryo(t[i]) && Alive(t[forking[i]]);
    OneForgets(t, i, p);
    SlotParented(t, init, i, p);
    var r, forking' := t[i := p], forking - {i};
    forall j | 0 <= j < |r| && Unused(r[j]) ensures r[j].parent == NONE { assert Unused(t[j]); }
    forall j | 0 <= j < |r| && Embryo(r[j]) ensures j in forking' { assert Embryo(t[j]); }
    forall j | j in forking' ensures Embryo(r[j]) && Alive(r[forking'[j]]) { assert j in forking; }
  }

  // ---------------------------------------------------------------- killed before birth

  /** No slot that holds no process is marked as killed. */
  ghost predicate Spared(t: Table) { forall i :: 0 <= i < |t| && Unused(t[i]) ==> !t[i].killed }

  /** kill marks the first slot with the given pid whatever its state is ... */
  lemma KillSpares(t: Table, i: nat)
    requires Spared(t) && i < |t|
    ensures Spared(t[i := Killed(t[i])]) <==> !Unused(t[i])
  {
    var r := t[i := Killed(t[i])];
    assert Unused(r[i]) <==> Unused(t[i]);
    assert forall j :: 0 <= j < |t| && j != i ==> r[j] == t[j];
  }

  /** ... and a fork that gives up leaves the mark of a kill that came too early. */
  lemma AbortSpares(t: Table, i: nat)
    requires Spared(t) && i < |t| && Embryo(t[i])
    ensures Spared(t[i := t[i].(state := UNUSED)]) <==> !t[i].killed
  {
    var r := t[i := t[i].(state := UNUSED)];
    assert Unused(r[i]);
    assert forall j :: 0 <= j < |t| && j != i ==> r[j] == t[j];
  }

  // ---------------------------------------------------------------- the table

  /** What one pass of wait's loop comes to. */
  datatype WaitResult = Child(pid: int) | NoChildren | Asleep

  class ProcTable {
    const init: int                   // initproc
    var procs: Table
    var nextpid: int
    ghost var forking: map<int, int>  // slots under construction, and who is building each
    ghost var returned: set<int>      // identifiers wait has returned

    ghost predicate Valid()
      reads this
    {
      Invariant(procs, init, forking, nextpid, returned)
    }

    /** userinit: the table of n slots holds the first process, and only that. */
    constructor (n: nat)
      requires n > 0
      ensures Valid() && |procs| == n && init == 0 && nextpid == 2 && forking == map[] && returned == {}
      ensures procs[0] == Proc(RUNNABLE, 1, NONE, NONE, false)
      ensures forall i :: 1 <= i < n ==> procs[i] == Proc(UNUSED, 0, NONE, NONE, false)
      ensures Spared(procs)
    {
      init, nextpid, forking, returned := 0, 2, map[], {};
      procs := [Proc(RUNNABLE, 1, NONE, NONE, false)] + seq(n - 1, _ => Proc(UNUSED, 0, NONE, NONE, false));
    }

    method Wakeup1(chan: int)
      modifies this`procs
      ensures procs == Woken(old(procs), chan)
    {
      ghost var t := procs;
      var i := 0;
      while i < |procs|
        invariant 0 <= i <= |procs| == |t|
        invariant forall j :: 0 <= j < i ==> procs[j] == Woken(t, chan)[j]
        invariant forall j :: i <= j < |t| ==> procs[j] == t[j]
      {
        if procs[i].state == SLEEPING && procs[i].chan == chan {
          procs := procs[i := procs[i].(state := RUNNABLE)];
        }
        i := i + 1;
      }
    }

    /** wakeup. */
    method Wakeup(chan: int)
      requires Valid()
      modifies this`procs
      ensures Valid() && procs == Woken(old(procs), chan)
      ensures Spared(procs) <==> old(Spared(procs))
    {
      hide Invariant;
      WakeKeeps(procs, init, forking, nextpid, returned, chan);
      Wakeup1(chan);
    }

    /** allocproc, up to releasing the lock: the first unused slot becomes an embryo with a new pid. */
    method AllocProc(me: nat) returns (r: Option<nat>)
      requires Valid() && me < |procs| && Alive(procs[me])
      modifies this`procs, this`nextpid, this`forking
      ensures Valid()
      ensures r.None? ==> procs == old(procs) && nextpid == old(nextpid)
      ensures r.None? ==> forall j :: 0 <= j < |procs| ==> !Unused(procs[j])
      ensures r.Some? ==>
        && r.value < |old(procs)| && Unused(old(procs)[r.value]) && nextpid == old(nextpid) + 1
        && procs == old(procs)[r.value := old(procs)[r.value].(state := EMBRYO, pid := old(nextpid))]
        && forking == old(forking)[r.value := me]
        && (forall j :: 0 <= j < r.value ==> !Unused(old(procs)[j]))
      ensures old(Spared(procs)) ==> Spared(procs) && (r.Some? ==> !procs[r.value].killed)
    {
      hide Invariant;
      var i := 0;
      while i < |procs|
        invariant 0 <= i <= |procs| && procs == old(procs) && nextpid == old(nextpid) && forking == old(forking)
        invariant forall j :: 0 <= j < i ==> !Unused(procs[j])
      {
        if procs[i].state == UNUSED {
          AllocKeeps(procs, init, forking, nextpid, returned, me, i);
          procs := procs[i := procs[i].(state := EMBRYO, pid := nextpid)];
          nextpid := nextpid + 1;
          forking := forking[i := me];
          return Some(i);
        }
        i := i + 1;
      }
      return None;
    }

    /** allocproc without a kernel stack, or fork without memory for the copy. */
    method AbortFork(i: nat)
      requires Valid() && i in forking && i < |procs| && procs[i].parent == NONE
      modifies this`procs, this`forking
      ensures Valid() && procs == old(procs)[i := old(procs)[i].(state := UNUSED)] && forking == old(forking) - {i}
      ensures old(Spared(procs)) ==> (Spared(procs) <==> !old(procs)[i].killed)
    {
      hide Invariant;
      assert Embryo(procs[i]) by { BeingBuilt(procs, init, forking, nextpid, returned, i); }
      if Spared(procs) { AbortSpares(procs, i); }
      AbortKeeps(procs, init, forking, nextpid, returned, i);
      procs := procs[i := procs[i].(state := UNUSED)];
      forking := forking - {i};
    }

    /** fork: np->parent = proc, without the lock. */
    method SetParent(me: nat, i: nat)
      requires Valid() && i in forking && forking[i] == me && i < |procs|
      modifies this`procs
      ensures Valid() && procs == old(procs)[i := old(procs)[i].(parent := me)]
      ensures old(Spared(procs)) ==> Spared(procs)
    {
      hide Invariant;
      ParentKeeps(procs, init, forking, nextpid, returned, i);
      procs := procs[i := procs[i].(parent := me)];
    }

    /** fork: the child becomes runnable. */
    method Publish(i: nat) returns (pid: int)
      requires Valid() && i in forking && i < |procs| && procs[i].parent == forking[i]
      modifies this`procs, this`forking
      ensures Valid() && pid == old(procs)[i].pid && pid !in returned
      ensures procs == old(procs)[i := old(procs)[i].(state := RUNNABLE)] && forking == old(forking) - {i}
      ensures old(Spared(procs)) ==> Spared(procs)
    {
      hide Invariant;
      PublishKeeps(procs, init, forking, nextpid, returned, i);
      NotReturned(procs, init, forking, nextpid, returned, i);
      pid := procs[i].pid;
      procs := procs[i := procs[i].(state := RUNNABLE)];
      forking := forking - {i};
    }

    /** exit's critical section. */
    method Exit(me: nat)
      requires Valid() && me < |procs| && me != init && procs[me].state == RUNNING && !Forking(forking, me)
      modifies this`procs
      ensures Valid() && procs == Exited(old(procs), me, init)
      ensures old(Spared(procs)) ==> Spared(procs)
    {
      hide Invariant, Exited, HasZombie;
      ExitedEffect(procs, me, init);
      ExitSpares(procs, Exited(procs, me, init), me, init);
      ExitKeeps(procs, init, forking, nextpid, returned, me);
      ghost var t := procs;
      Wakeup1(procs[me].parent);
      ghost var w := procs;
      ghost var seen := false;
      var i := 0;
      while i < |procs|
        invariant 0 <= i <= |procs| == |w| == |t|
        invariant seen <==> exists j :: 0 <= j < i && ZombieChild(t, me, j)
        invariant forall j :: 0 <= j < |w| ==> procs[j] == Passing(w, me, init, i, seen, j)
      {
        assert ZombieChild(t, me, i) <==> w[i].parent == me && w[i].state == ZOMBIE;
        if procs[i].parent == me {
          procs := procs[i := procs[i].(parent := init)];
          if procs[i].state == ZOMBIE {
            seen := true;
            Wakeup1(init);
          }
        }
        i := i + 1;
      }
      procs := procs[me := procs[me].(state := ZOMBIE)];
      PassedAll(t, w, procs, me, init, seen);
    }

    /** One pass of wait's loop: reap an exited child, or report that there is nothing to wait for, or
        go to sleep on the process's own slot. */
    method WaitPass(me: nat) returns (r: WaitResult)
      requires Valid() && me < |procs| && procs[me].state == RUNNING
      modifies this`procs, this`returned
      ensures Valid()
      ensures r.Child? ==>
        && r.pid !in old(returned) && returned == old(returned) + {r.pid}
        && exists i: nat ::
          && i < |old(procs)| && ZombieChild(old(procs), me, i) && old(procs)[i].pid == r.pid
          && procs == old(procs)[i := Proc(UNUSED, 0, NONE, old(procs)[i].chan, false)]
      ensures !r.Child? ==> returned == old(returned) && !HasZombie(old(procs), me)
      ensures r.NoChildren? <==>
        && !HasZombie(old(procs), me)
        && (old(procs)[me].killed || forall i :: 0 <= i < |old(procs)| ==> old(procs)[i].parent != me)
      ensures r.NoChildren? ==> procs == old(procs)
      ensures r.Asleep? ==> procs == old(procs)[me := old(procs)[me].(state := SLEEPING, chan := me)]
      ensures old(Spared(procs)) ==> Spared(procs)
    {
      hide Invariant;
      var havekids := false;
      var i := 0;
      while i < |procs|
        invariant 0 <= i <= |procs| && procs == old(procs) && returned == old(returned)
        invariant forall j :: 0 <= j < i ==> !ZombieChild(procs, me, j)
        invariant havekids <==> exists j :: 0 <= j < i && procs[j].parent == me
      {
        if procs[i].parent == me {
          havekids := true;
          if procs[i].state == ZOMBIE {
            ReapKeeps(procs, init, forking, nextpid, returned, me, i);
            assert ZombieChild(procs, me, i);
            var pid := procs[i].pid;
            procs := procs[i := procs[i].(state := UNUSED, pid := 0, parent := NONE, killed := false)];
            returned := returned + {pid};
            return Child(pid);
          }
        }
        i := i + 1;
      }
      if !havekids || procs[me].killed {
        return NoChildren;
      }
      WaitSleepKeeps(procs, init, forking, nextpid, returned, me);
      procs := procs[me := procs[me].(state := SLEEPING, chan := me)];
      return Asleep;
    }

    /** sleep on any channel but a table slot. */
    method Sleep(me: nat, chan: int)
      requires Valid() && me < |procs| && procs[me].state == RUNNING && chan >= |procs|
      modifies this`procs
      ensures Valid() && procs == old(procs)[me := old(procs)[me].(state := SLEEPING, chan := chan)]
      ensures old(Spared(procs)) ==> Spared(procs)
    {
      hide Invariant, HasZombie;
      StateChange(procs, init, forking, nextpid, returned, me, procs[me].(state := SLEEPING, chan := chan));
      procs := procs[me := procs[me].(state := SLEEPING, chan := chan)];
    }

    /** The scheduler picks a runnable process; a sleeper's channel is cleared as it resumes. */
    method Schedule(i: nat)
      requires Valid() && i < |procs| && procs[i].state == RUNNABLE
      modifies this`procs
      ensures Valid() && procs == old(procs)[i := old(procs)[i].(state := RUNNING, chan := NONE)]
      ensures old(Spared(procs)) ==> Spared(procs)
    {
      hide Invariant, HasZombie;
      StateChange(procs, init, forking, nextpid, returned, i, procs[i].(state := RUNNING, chan := NONE));
      procs := procs[i := procs[i].(state := RUNNING, chan := NONE)];
    }

    method Yield(me: nat)
      requires Valid() && me < |procs| && procs[me].state == RUNNING
      modifies this`procs
      ensures Valid() && procs == old(procs)[me := old(procs)[me].(state := RUNNABLE)]
      ensures old(Spared(procs)) ==> Spared(procs)
    {
      hide Invariant, HasZombie;
      StateChange(procs, init, forking, nextpid, returned, me, procs[me].(state := RUNNABLE));
      procs := procs[me := procs[me].(state := RUNNABLE)];
    }

    /** kill: the first slot with that pid, whatever its state, is marked, and woken if it sleeps. */
    method Kill(pid: int) returns (r: int)
      requires Valid()
      modifies this`procs
      ensures Valid()
      ensures r == -1 ==> procs == old(procs) && forall i :: 0 <= i < |procs| ==> procs[i].pid != pid
      ensures r == 0 ==> exists i: nat ::
        && Marks(old(procs), procs, pid, i)
        && (old(Spared(procs)) ==> (Spared(procs) <==> !Unused(old(procs)[i])))
      ensures (r == 0 || r == -1) && (pid in returned ==> r == -1)
    {
      hide Invariant;
      var i := 0;
      while i < |procs|
        invariant 0 <= i <= |procs| && procs == old(procs)
        invariant forall j :: 0 <= j < i ==> procs[j].pid != pid
      {
        if procs[i].pid == pid {
          KillKeeps(procs, init, forking, nextpid, returned, i);
          procs := procs[i := procs[i].(killed := true)];
          if procs[i].state == SLEEPING {
            procs := procs[i := procs[i].(state := RUNNABLE)];
          }
          assert procs == old(procs)[i := Killed(old(procs)[i])];
          assert Marks(old(procs), procs, pid, i);
          NotReturned(old(procs), init, forking, nextpid, returned, i);
          if Spared(old(procs)) { KillSpares(old(procs), i); }
          return 0;
        }
        i := i + 1;
      }
      return -1;
    }
  }

  /** Slot i, the first with this pid, is marked as killed and does not sleep; nothing else has changed. */
  ghost predicate Marks(t: Table, r: Table, pid: int, i: nat) {
    && i < |t| == |r| && t[i].pid == pid && (forall j :: 0 <= j < i ==> t[j].pid != pid)
    && r[i].killed && r[i].pid == pid && r[i].parent == t[i].parent && r[i].chan == t[i].chan
    && r[i].state == (if t[i].state == SLEEPING then RUNNABLE else t[i].state)
    && (forall j :: 0 <= j < |t| && j != i ==> r[j] == t[j])
  }

  lemma NotReturned(t: Table, init: int, forking: map<int, int>, nextpid: int, returned: set<int>, i: nat)
    requires Invariant(t, init, forking, nextpid, returned) && i < |t|
    ensures t[i].pid !in returned
  {
  }

  function Killed(p: Proc): (r: Proc) {
    p.(killed := true, state := if p.state == SLEEPING then RUNNABLE else p.state)
  }

  lemma KillKeeps(t: Table, init: int, forking: map<int, int>, nextpid: int, returned: set<int>, i: nat)
    requires Invariant(t, init, forking, nextpid, returned) && i < |t|
    ensures Invariant(t[i := Killed(t[i])], init, forking, nextpid, returned)
  {
    hide Parented, Embryos, Pids, NoneForgotten, HasZombie;
    assert SameKinds(t, t[i := Killed(t[i])]);
    KindsKeep(t, t[i := Killed(t[i])], init, forking, nextpid, returned);
    OneForgets(t, i, Killed(t[i]));
  }

  /** Slot j in the middle of exit's loop, when i slots have been passed. */
  function Passing(w: Table, me: int, init: int, i: int, seen: bool, j: nat): (p: Proc)
    requires j < |w|
  {
    var q := if j < i && w[j].parent == me then w[j].(parent := init) else w[j];
    if seen && q.state == SLEEPING && q.chan == init then q.(state := RUNNABLE) else q
  }

  lemma PassedAll(t: Table, w: Table, r: Table, me: nat, init: int, seen: bool)
    requires me < |t| && w == Woken(t, t[me].parent) && |r| == |t|
    requires seen <==> exists j :: 0 <= j < |t| && ZombieChild(t, me, j)
    requires forall j :: 0 <= j < |t| ==>
      && var p := Passing(w, me, init, |t|, seen, j);
      && r[j] == if j == me then p.(state := ZOMBIE) else p
    ensures r == Exited(t, me, init)
  {
    assert seen <==> HasZombie(t, me);
    hide HasZombie;
  }

  /** The first fork after kill(0) makes a process that has been killed already: unused slots have pid 0,
      and allocproc does not clear the mark. */
  method KilledBeforeBirth(n: nat) returns (table: ProcTable, child: nat)
    requires n > 1
    ensures fresh(table) && table.Valid() && child < |table.procs| == n
    ensures Embryo(table.procs[child]) && table.procs[child].killed
  {
    hide Invariant;
    table := new ProcTable(n);
    assert table.procs[1].pid == 0;
    var r := table.Kill(0);
    var slot := table.AllocProc(0);
    assert Unused(table.procs[1]) || slot.Some?;
    child := slot.value;
  }

  // ---------------------------------------------------------------- what the invariant says

  /** A killed process does not sleep in wait. */
  lemma KilledNeverWaits(t: Table, init: int, forking: map<int, int>, nextpid: int, returned: set<int>, i: nat)
    requires Invariant(t, init, forking, nextpid, returned) && i < |t| && t[i].killed
    ensures !Waits(t, i)
  {
  }

  /** Whenever the lock is free: an exited or live process (but init) has a live parent, and that parent
      is not asleep in wait if the process has exited. */
  lemma ExitedAreCollectable(t: Table, init: int, forking: map<int, int>, nextpid: int, returned: set<int>, i: nat)
    requires Invariant(t, init, forking, nextpid, returned) && i < |t| && Loose(t[i]) && i != init
    ensures 0 <= t[i].parent < |t| && Alive(t[t[i].parent])
    ensures t[i].state == ZOMBIE ==> !Waits(t, t[i].parent)
  {
    assert t[i].state == ZOMBIE ==> ZombieChild(t, t[i].parent, i);
  }

  /** Whenever the lock is free, a process asleep in wait has a child that is alive or being built, so an
      exit that can end the wait is still to come. */
  lemma WaiterExpects(t: Table, init: int, forking: map<int, int>, nextpid: int, returned: set<int>, i: nat)
    requires Invariant(t, init, forking, nextpid, returned) && Waits(t, i)
    ensures exists j :: 0 <= j < |t| && t[j].parent == i && (Alive(t[j]) || Embryo(t[j]))
  {
    hide Parented, Pids;
    var j :| 0 <= j < |t| && t[j].parent == i;
    assert !ZombieChild(t, i, j);
    assert !Unused(t[j]);
  }
}
