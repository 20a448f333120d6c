/**
 The process table of proc.c: fork, exit, wait, sleep, wakeup and kill.  Everything between
 acquire(&ptable.lock) and its release is one step; so is each unlocked write of fork().
 */
module ProcTable {
  import opened Base

  datatype PState = UNUSED | EMBRYO | SLEEPING | RUNNABLE | RUNNING | ZOMBIE

  /** What a process sleeps on: a process slot (wait) or anything else. */
  datatype Chan = NoChan | OnProc(slot: nat) | OnOther(x: nat)

  datatype Proc = Proc(state: PState, pid: nat, parent: Option<nat>, chan: Chan, killed: bool)

  type Table = seq<Proc>

  /** Past EMBRYO and not dead. */
  predicate Live(p: Proc) {
    p.state == SLEEPING || p.state == RUNNABLE || p.state == RUNNING
  }

  predicate SleepsOn(p: Proc, chan: Chan) {
    p.state == SLEEPING && p.chan == chan
  }

  // ---------------------------------------------------------------- what the scans compute

  /** wakeup1(chan) */
  function Wakeup1(t: Table, chan: Chan): (r: Table)
    ensures |r| == |t|
    ensures forall i :: 0 <= i < |t| ==> r[i] == if SleepsOn(t[i], chan) then t[i].(state := RUNNABLE) else t[i]
  {
    seq(|t|, i requires 0 <= i < |t| => if SleepsOn(t[i], chan) then t[i].(state := RUNNABLE) else t[i])
  }

  predicate IsChild(t: Table, i: nat, c: nat) {
    i < |t| && t[i].parent == Some(c)
  }

  predicate HasZombie(t: Table, c: nat) {
    exists i :: 0 <= i < |t| && ZombieOf(t, i, c)
  }

  /** exit's loop over the table: init becomes the parent of c's children and is woken for those that have exited. */
  function Reparent(t: Table, c: nat, init: nat): (r: Table)
    ensures |r| == |t|
    ensures forall i :: 0 <= i < |t| ==>
              r[i].parent == if IsChild(t, i, c) then Some(init) else t[i].parent
    ensures forall i :: 0 <= i < |t| ==>
              r[i].(parent := t[i].parent) ==
              if HasZombie(t, c) && SleepsOn(t[i], OnProc(init)) then t[i].(state := RUNNABLE) else t[i]
  {
    var moved := seq(|t|, i requires 0 <= i < |t| => if IsChild(t, i, c) then t[i].(parent := Some(init)) else t[i]);
    if HasZombie(t, c) then Wakeup1(moved, OnProc(init)) else moved
  }

  /** exit(): the part under ptable.lock. */
  function ExitTable(t: Table, c: nat, init: nat): (r: Table)
    requires c < |t|
    ensures |r| == |t|
  {
    var woken := if t[c].parent.Some? then Wakeup1(t, OnProc(t[c].parent.value)) else t;
    var moved := Reparent(woken, c, init);
    moved[c := moved[c].(state := ZOMBIE)]
  }

  /** The first free slot, as allocproc finds it. */
  predicate FirstUnused(t: Table, k: nat) {
    k < |t| && t[k].state == UNUSED && forall j :: 0 <= j < k ==> t[j].state != UNUSED
  }

  predicate ZombieOf(t: Table, k: nat, c: nat) {
    k < |t| && IsChild(t, k, c) && t[k].state == ZOMBIE
  }

  /** The first zombie child of c, as wait finds it. */
  predicate FirstZombie(t: Table, k: nat, c: nat) {
    ZombieOf(t, k, c) && forall j :: 0 <= j < k ==> !ZombieOf(t, j, c)
  }

  /** The first slot with this pid, as kill finds it, in whatever state. */
  predicate FirstWithPid(t: Table, pid: nat, k: nat) {
    k < |t| && t[k].pid == pid && forall j :: 0 <= j < k ==> t[j].pid != pid
  }

  // ---------------------------------------------------------------- the system

  /** A fork() in progress: the slot allocated for the child, and whether its parent is set. */
  datatype Fork = Fork(slot: nat, adopted: bool)

  datatype Sys = Sys(
    table: Table,
    init: nat,
    nextpid: nat,
    forks: map<nat, Fork>,       // by the forking process's slot
    reaped: seq<nat>)            // pids wait() has returned

  datatype Step =
    | AllocProc(c: nat, k: nat)
    | ForkFail(c: nat)           // kalloc or copyuvm failed: the child's slot is free again
    | ForkAdopt(c: nat)          // the child gets its parent
    | ForkRun(c: nat)            // the child becomes RUNNABLE
    | Exit(c: nat)
    | Reap(c: nat, k: nat)       // wait() finds a zombie child
    | WaitFail(c: nat)           // wait() returns -1
    | WaitSleep(c: nat)
    | Sleep(c: nat, x: nat)      // sleep on some other channel
    | Wakeup(x: nat)
    | Kill(pid: nat, k: nat)     // kill() finds the pid in slot k
    | Schedule(k: nat)
    | Yield(c: nat)

  /** c is the slot of a process that is on a CPU and not inside fork(). */
  predicate Running(s: Sys, c: nat) {
    c < |s.table| && s.table[c].state == RUNNING && c !in s.forks
  }

  ghost predicate Enabled(s: Sys, step: Step) {
    match step
    case AllocProc(c, k) => Running(s, c) && FirstUnused(s.table, k)
    case ForkFail(c) => c in s.forks && !s.forks[c].adopted && s.forks[c].slot < |s.table|
    case ForkAdopt(c) => c in s.forks && !s.forks[c].adopted && s.forks[c].slot < |s.table|
    case ForkRun(c) => c in s.forks && s.forks[c].adopted && s.forks[c].slot < |s.table|
    case Exit(c) => Running(s, c) && c != s.init
    case Reap(c, k) => Running(s, c) && FirstZombie(s.table, k, c)
    case WaitFail(c) =>
      Running(s, c) && !HasZombie(s.table, c) &&
      (s.table[c].killed || forall i :: 0 <= i < |s.table| ==> !IsChild(s.table, i, c))
    case WaitSleep(c) =>
      Running(s, c) && !HasZombie(s.table, c) && !s.table[c].killed &&
      exists i :: 0 <= i < |s.table| && IsChild(s.table, i, c)
    case Sleep(c, x) => c < |s.table| && s.table[c].state == RUNNING
    case Wakeup(x) => true
    case Kill(pid, k) => FirstWithPid(s.table, pid, k)
    case Schedule(k) => k < |s.table| && s.table[k].state == RUNNABLE
    case Yield(c) => c < |s.table| && s.table[c].state == RUNNING
  }

  function Next(s: Sys, step: Step): Sys
    requires step.ForkFail? || step.ForkAdopt? || step.ForkRun? ==> step.c in s.forks && s.forks[step.c].slot < |s.table|
    requires step.AllocProc? || step.Reap? || step.Kill? || step.Schedule? ==> step.k < |s.table|
    requires step.Exit? || step.WaitSleep? || step.Sleep? || step.Yield? ==> step.c < |s.table|
  {
    var t := s.table;
    match step
    case AllocProc(c, k) =>
      s.(table := t[k := t[k].(state := EMBRYO, pid := s.nextpid)], nextpid := s.nextpid + 1,
         forks := s.forks[c := Fork(k, false)])
    case ForkFail(c) =>
      var k := s.forks[c].slot;
      s.(table := t[k := t[k].(state := UNUSED)], forks := s.forks - {c})
    case ForkAdopt(c) =>
      var k := s.forks[c].slot;
      s.(table := t[k := t[k].(parent := Some(c))], forks := s.forks[c := Fork(k, true)])
    case ForkRun(c) =>
      var k := s.forks[c].slot;
      s.(table := t[k := t[k].(state := RUNNABLE)], forks := s.forks - {c})
    case Exit(c) => s.(table := ExitTable(t, c, s.init))
    case Reap(c, k) =>
      s.(table := t[k := Proc(UNUSED, 0, None, t[k].chan, false)], reaped := s.reaped + [t[k].pid])
    case WaitFail(c) => s
    case WaitSleep(c) => s.(table := t[c := t[c].(state := SLEEPING, chan := OnProc(c))])
    case Sleep(c, x) => s.(table := t[c := t[c].(state := SLEEPING, chan := OnOther(x))])
    case Wakeup(x) => s.(table := Wakeup1(t, OnOther(x)))
    case Kill(_, k) =>
      s.(table := t[k := t[k].(killed := true, state := if t[k].state == SLEEPING then RUNNABLE else t[k].state)])
    case Schedule(k) => s.(table := t[k := t[k].(state := RUNNING, chan := NoChan)])
    case Yield(c) => s.(table := t[c := t[c].(state := RUNNABLE)])
  }

  /** After userinit(): init is runnable, every other slot free. */
  predicate Init(s: Sys) {
    && s.init < |s.table| && s.table[s.init] == Proc(RUNNABLE, 1, None, NoChan, false)
    && (forall i :: 0 <= i < |s.table| && i != s.init ==>
          s.table[i].state == UNUSED && s.table[i].parent == None && s.table[i].pid == 0 && !s.table[i].killed)
    && s.nextpid == 2 && s.forks == map[] && s.reaped == []
  }

  ghost predicate IsRun(run: seq<Sys>, steps: seq<Step>) {
    && |run| == |steps| + 1
    && Init(run[0])
    && forall i :: 0 <= i < |steps| ==> Enabled(run[i], steps[i]) && run[i + 1] == Next(run[i], steps[i])
  }

  // ---------------------------------------------------------------- invariants

  /** Past EMBRYO, dead or alive. */
  predicate Past(p: Proc) {
    Live(p) || p.state == ZOMBIE
  }

  predicate LiveParent(t: Table, i: nat) {
    i < |t| && t[i].parent.Some? && t[i].parent.value < |t| && Live(t[t[i].parent.value])
  }

  /** Who has which parent. */
  predicate FamilyInv(s: Sys) {
    && s.init < |s.table| && Live(s.table[s.init]) && s.table[s.init].parent.None?
    && (forall i :: 0 <= i < |s.table| ==> s.table[i].parent != Some(i))
    && (forall i {:trigger LiveParent(s.table, i)} ::
          0 <= i < |s.table| && i != s.init && Past(s.table[i]) ==> LiveParent(s.table, i))
    && (forall i :: 0 <= i < |s.table| && s.table[i].state == UNUSED ==> s.table[i].parent.None?)
    && (forall i :: 0 <= i < |s.table| && s.table[i].state == EMBRYO && s.table[i].parent.Some? ==>
          s.table[i].parent.value in s.forks && s.forks[s.table[i].parent.value].slot == i)
  }

  /** Forks in progress: a live parent, an EMBRYO slot of its own. */
  predicate ForkInv(s: Sys) {
    && (forall c :: c in s.forks ==>
          && c < |s.table| && Live(s.table[c])
          && s.forks[c].slot < |s.table| && s.table[s.forks[c].slot].state == EMBRYO
          && s.table[s.forks[c].slot].parent == if s.forks[c].adopted then Some(c) else None)
    && (forall c, d :: c in s.forks && d in s.forks && s.forks[c].slot == s.forks[d].slot ==> c == d)
  }

  /** A process asleep in wait() has a child and no zombie child. */
  ghost predicate WaitInv(s: Sys) {
    forall i, c :: 0 <= i < |s.table| && SleepsOn(s.table[i], OnProc(c)) ==>
      && i == c && c !in s.forks && !HasZombie(s.table, c)
      && exists k :: 0 <= k < |s.table| && IsChild(s.table, k, c)
  }

  /** Pids in use, or returned by wait(), are all different. */
  predicate PidInv(s: Sys) {
    && (forall i :: 0 <= i < |s.table| && s.table[i].state != UNUSED ==> s.table[i].pid < s.nextpid && s.table[i].pid !in s.reaped)
    && (forall i, j :: 0 <= i < j < |s.table| && s.table[i].state != UNUSED && s.table[j].state != UNUSED ==>
          s.table[i].pid != s.table[j].pid)
    && (forall i :: 0 <= i < |s.reaped| ==> s.reaped[i] < s.nextpid)
    && (forall i, j :: 0 <= i < j < |s.reaped| ==> s.reaped[i] != s.reaped[j])
  }

  ghost predicate Inv(s: Sys) {
    FamilyInv(s) && ForkInv(s) && WaitInv(s) && PidInv(s)
  }

  // ---------------------------------------------------------------- every step keeps them

  /** Only scheduling state changes. */
  predicate Rescheduled(t: Table, r: Table) {
    && |r| == |t|
    && forall i :: 0 <= i < |t| ==>
         && r[i].parent == t[i].parent && r[i].pid == t[i].pid
         && (r[i].state == t[i].state || (Live(t[i]) && Live(r[i])))
  }

  lemma RescheduledFamily(s: Sys, r: Table)
    requires FamilyInv(s) && Rescheduled(s.table, r)
    ensures FamilyInv(s.(table := r))
  {
    forall i | 0 <= i < |r| && i != s.init && Past(r[i]) ensures LiveParent(r, i) {
      assert LiveParent(s.table, i);
    }
  }

  lemma RescheduledFork(s: Sys, r: Table)
    requires ForkInv(s) && Rescheduled(s.table, r)
    ensures ForkInv(s.(table := r))
  {
  }

  lemma RescheduledPid(s: Sys, r: Table)
    requires PidInv(s) && Rescheduled(s.table, r)
    ensures PidInv(s.(table := r))
  {
  }

  /** exit() under the lock, slot by slot. */
  predicate Exited(t: Table, r: Table, c: nat, init: nat) {
    && |r| == |t|
    && forall i :: 0 <= i < |t| ==>
         && r[i].pid == t[i].pid && r[i].chan == t[i].chan
         && r[i].parent == (if t[i].parent == Some(c) then Some(init) else t[i].parent)
         && (if i == c then r[i].state == ZOMBIE
             else r[i].state == t[i].state || (t[i].state == SLEEPING && r[i].state == RUNNABLE))
  }

  lemma ExitShape(t: Table, c: nat, init: nat)
    requires c < |t|
    ensures Exited(t, ExitTable(t, c, init), c, init)
  {
  }

  /** Whom exit() wakes: the parent, and init if it inherits a zombie. */
  lemma ExitWakes(t: Table, c: nat, init: nat)
    requires c < |t|
    ensures t[c].parent.Some? ==>
              forall i :: 0 <= i < |t| ==> !SleepsOn(ExitTable(t, c, init)[i], OnProc(t[c].parent.value))
    ensures HasZombie(t, c) ==> forall i :: 0 <= i < |t| ==> !SleepsOn(ExitTable(t, c, init)[i], OnProc(init))
  {
    var woken := if t[c].parent.Some? then Wakeup1(t, OnProc(t[c].parent.value)) else t;
    if HasZombie(t, c) {
      var z :| 0 <= z < |t| && ZombieOf(t, z, c);
      assert ZombieOf(woken, z, c);
    }
  }

  lemma ExitFamily(s: Sys, r: Table, c: nat)
    requires FamilyInv(s) && ForkInv(s) && Running(s, c) && c != s.init && Exited(s.table, r, c, s.init)
    ensures FamilyInv(s.(table := r))
  {
    forall i | 0 <= i < |r| && i != s.init && Past(r[i]) ensures LiveParent(r, i) {
      assert LiveParent(s.table, i);
    }
  }

  lemma ExitFork(s: Sys, r: Table, c: nat)
    requires ForkInv(s) && Running(s, c) && Exited(s.table, r, c, s.init)
    ensures ForkInv(s.(table := r))
  {
  }

  lemma ExitPid(s: Sys, r: Table, c: nat)
    requires PidInv(s) && Running(s, c) && Exited(s.table, r, c, s.init)
    ensures PidInv(s.(table := r))
  {
  }

  lemma AllocFamily(s: Sys, c: nat, k: nat)
    requires FamilyInv(s) && ForkInv(s) && Enabled(s, AllocProc(c, k))
    ensures FamilyInv(Next(s, AllocProc(c, k)))
  {
    hide HasZombie, ExitTable, Wakeup1;
    var r := Next(s, AllocProc(c, k)).table;
    forall i | 0 <= i < |r| && i != s.init && Past(r[i]) ensures LiveParent(r, i) {
      assert LiveParent(s.table, i);
    }
  }

  lemma AllocFork(s: Sys, c: nat, k: nat)
    requires FamilyInv(s) && ForkInv(s) && Enabled(s, AllocProc(c, k))
    ensures ForkInv(Next(s, AllocProc(c, k)))
  {
    hide HasZombie, ExitTable, Wakeup1, FirstZombie;
  }

  lemma AllocPid(s: Sys, c: nat, k: nat)
    requires PidInv(s) && Enabled(s, AllocProc(c, k))
    ensures PidInv(Next(s, AllocProc(c, k)))
  {
  }

  lemma ForkFailFamily(s: Sys, c: nat)
    requires FamilyInv(s) && ForkInv(s) && Enabled(s, ForkFail(c))
    ensures FamilyInv(Next(s, ForkFail(c)))
  {
    FreedFamily(s, Next(s, ForkFail(c)), c, s.forks[c].slot);
  }

  /** A slot that no process has for a parent becomes free. */
  lemma FreedFamily(s: Sys, t: Sys, c: nat, k: nat)
    requires FamilyInv(s) && ForkInv(s) && c in s.forks && k == s.forks[c].slot && !s.forks[c].adopted && k < |s.table|
    requires t == s.(table := s.table[k := s.table[k].(state := UNUSED)], forks := s.forks - {c})
    ensures FamilyInv(t)
  {
    hide Wakeup1, HasZombie;
    var r := t.table;
    forall i | 0 <= i < |r| && i != s.init && Past(r[i]) ensures LiveParent(r, i) {
      assert LiveParent(s.table, i);
    }
  }

  lemma ForkFailFork(s: Sys, c: nat)
    requires FamilyInv(s) && ForkInv(s) && Enabled(s, ForkFail(c))
    ensures ForkInv(Next(s, ForkFail(c)))
  {
    hide HasZombie, ExitTable, Wakeup1, FirstZombie;
  }

  lemma ForkFailPid(s: Sys, c: nat)
    requires ForkInv(s) && PidInv(s) && Enabled(s, ForkFail(c))
    ensures PidInv(Next(s, ForkFail(c)))
  {
  }

  lemma ForkAdoptFamily(s: Sys, c: nat)
    requires FamilyInv(s) && ForkInv(s) && Enabled(s, ForkAdopt(c))
    ensures FamilyInv(Next(s, ForkAdopt(c)))
  {
    hide HasZombie, ExitTable, Wakeup1;
    var r := Next(s, ForkAdopt(c)).table;
    forall i | 0 <= i < |r| && i != s.init && Past(r[i]) ensures LiveParent(r, i) {
      assert LiveParent(s.table, i);
    }
  }

  lemma ForkAdoptFork(s: Sys, c: nat)
    requires FamilyInv(s) && ForkInv(s) && Enabled(s, ForkAdopt(c))
    ensures ForkInv(Next(s, ForkAdopt(c)))
  {
    hide HasZombie, ExitTable, Wakeup1, FirstZombie;
  }

  lemma ForkAdoptPid(s: Sys, c: nat)
    requires ForkInv(s) && PidInv(s) && Enabled(s, ForkAdopt(c))
    ensures PidInv(Next(s, ForkAdopt(c)))
  {
    hide HasZombie, ExitTable, Wakeup1, FirstZombie;
  }

  lemma ForkRunFamily(s: Sys, c: nat)
    requires FamilyInv(s) && ForkInv(s) && Enabled(s, ForkRun(c))
    ensures FamilyInv(Next(s, ForkRun(c)))
  {
    hide HasZombie, ExitTable, Wakeup1, FamilyInv, ForkInv;
    StartedFamily(s, Next(s, ForkRun(c)), c, s.forks[c].slot);
  }

  lemma StartedFamily(s: Sys, t: Sys, c: nat, k: nat)
    requires FamilyInv(s) && ForkInv(s) && c in s.forks && k == s.forks[c].slot && s.forks[c].adopted && k < |s.table|
    requires t == s.(table := s.table[k := s.table[k].(state := RUNNABLE)], forks := s.forks - {c})
    ensures FamilyInv(t)
  {
    var r := t.table;
    forall i | 0 <= i < |r| && i != s.init && Past(r[i]) ensures LiveParent(r, i) {
      assert i == k || LiveParent(s.table, i);
    }
  }

  lemma ForkRunFork(s: Sys, c: nat)
    requires FamilyInv(s) && ForkInv(s) && Enabled(s, ForkRun(c))
    ensures ForkInv(Next(s, ForkRun(c)))
  {
    hide HasZombie, ExitTable, Wakeup1, FirstZombie;
  }

  lemma ForkRunPid(s: Sys, c: nat)
    requires ForkInv(s) && PidInv(s) && Enabled(s, ForkRun(c))
    ensures PidInv(Next(s, ForkRun(c)))
  {
    hide HasZombie, ExitTable, Wakeup1, FirstZombie;
  }

  lemma ReapFamily(s: Sys, c: nat, k: nat)
    requires FamilyInv(s) && ForkInv(s) && Enabled(s, Reap(c, k))
    ensures FamilyInv(Next(s, Reap(c, k)))
  {
    hide HasZombie, ExitTable, Wakeup1;
    var r := Next(s, Reap(c, k)).table;
    forall i | 0 <= i < |r| && i != s.init && Past(r[i]) ensures LiveParent(r, i) {
      assert LiveParent(s.table, i);
    }
  }

  lemma ReapFork(s: Sys, c: nat, k: nat)
    requires FamilyInv(s) && ForkInv(s) && Enabled(s, Reap(c, k))
    ensures ForkInv(Next(s, Reap(c, k)))
  {
  }

  lemma ReapPid(s: Sys, c: nat, k: nat)
    requires ForkInv(s) && PidInv(s) && Enabled(s, Reap(c, k))
    ensures PidInv(Next(s, Reap(c, k)))
  {
  }

  /** For whoever is still asleep in wait(), no child was lost and no child became a zombie. */
  ghost predicate WaitersKept(s: Sys, t: Sys) {
    && |t.table| == |s.table|
    && forall i, c :: 0 <= i < |t.table| && SleepsOn(t.table[i], OnProc(c)) ==>
         && SleepsOn(s.table[i], OnProc(c)) && c !in t.forks
         && forall k :: 0 <= k < |t.table| ==>
              && (IsChild(s.table, k, c) ==> IsChild(t.table, k, c))
              && (ZombieOf(t.table, k, c) ==> ZombieOf(s.table, k, c))
  }

  lemma KeptWait(s: Sys, t: Sys)
    requires WaitInv(s) && WaitersKept(s, t)
    ensures WaitInv(t)
  {
    forall i, c | 0 <= i < |t.table| && SleepsOn(t.table[i], OnProc(c))
      ensures i == c && c !in t.forks && !HasZombie(t.table, c) && exists k :: 0 <= k < |t.table| && IsChild(t.table, k, c)
    {
      var k :| 0 <= k < |s.table| && IsChild(s.table, k, c);
      assert IsChild(t.table, k, c);
      forall z | 0 <= z < |t.table| ensures !ZombieOf(t.table, z, c) {
        assert !ZombieOf(s.table, z, c);
      }
    }
  }

  /** A step that changes one slot, makes no zombie and takes no child from a sleeping parent. */
  lemma OneSlotKept(s: Sys, t: Sys, k: nat)
    requires WaitInv(s) && k < |s.table| && |t.table| == |s.table|
    requires forall j :: 0 <= j < |s.table| && j != k ==> t.table[j] == s.table[j]
    requires t.table[k].state == SLEEPING ==> !t.table[k].chan.OnProc?
    requires t.table[k].state == ZOMBIE ==> s.table[k].state == ZOMBIE && t.table[k].parent == s.table[k].parent
    requires s.table[k].parent.Some? && t.table[k].parent != s.table[k].parent ==>
               var c := s.table[k].parent.value; c < |s.table| && s.table[c].state != SLEEPING && c != k
    requires forall c :: c in t.forks && c !in s.forks ==> c < |s.table| && s.table[c].state != SLEEPING
    ensures WaitersKept(s, t)
  {
  }

  /** wakeup() on any other channel wakes nobody who is in wait(). */
  lemma WakeupKept(s: Sys, x: nat)
    requires WaitInv(s)
    ensures WaitersKept(s, Next(s, Wakeup(x)))
  {
    var r := Wakeup1(s.table, OnOther(x));
    forall k, c | 0 <= k < |r| ensures IsChild(r, k, c) <==> IsChild(s.table, k, c) {
    }
    forall k, c | 0 <= k < |r| ensures ZombieOf(r, k, c) <==> ZombieOf(s.table, k, c) {
    }
  }

  lemma ExitedKept(s: Sys, r: Table, c: nat)
    requires WaitInv(s) && FamilyInv(s) && Running(s, c) && c != s.init && Exited(s.table, r, c, s.init)
    requires s.table[c].parent.Some? ==> forall i :: 0 <= i < |r| ==> !SleepsOn(r[i], OnProc(s.table[c].parent.value))
    requires HasZombie(s.table, c) ==> forall i :: 0 <= i < |r| ==> !SleepsOn(r[i], OnProc(s.init))
    ensures WaitersKept(s, s.(table := r))
  {
    var t := s.table;
    forall i, w | 0 <= i < |r| && SleepsOn(r[i], OnProc(w))
      ensures SleepsOn(t[i], OnProc(w)) && w != c && t[c].parent != Some(w) && !(w == s.init && HasZombie(t, c))
    {
      assert SleepsOn(t[i], OnProc(w));
    }
    hide WaitInv, FamilyInv;
    forall i, w, k | 0 <= i < |r| && SleepsOn(r[i], OnProc(w)) && 0 <= k < |r|
      ensures IsChild(t, k, w) ==> IsChild(r, k, w)
      ensures ZombieOf(r, k, w) ==> ZombieOf(t, k, w)
    {
      assert t[k].parent == Some(c) && t[k].state == ZOMBIE ==> ZombieOf(t, k, c);
    }
  }

  lemma ExitKept(s: Sys, c: nat)
    requires WaitInv(s) && FamilyInv(s) && Running(s, c) && c != s.init
    ensures WaitersKept(s, Next(s, Exit(c)))
  {
    hide ExitTable, WaitInv, FamilyInv, WaitersKept, Exited;
    ExitShape(s.table, c, s.init);
    ExitWakes(s.table, c, s.init);
    ExitedKept(s, ExitTable(s.table, c, s.init), c);
  }

  lemma WaitSleepWait(s: Sys, c: nat)
    requires WaitInv(s) && Enabled(s, WaitSleep(c))
    ensures WaitInv(Next(s, WaitSleep(c)))
  {
    var t, r := s.table, Next(s, WaitSleep(c)).table;
    assert forall k, w :: 0 <= k < |r| ==> (IsChild(r, k, w) <==> IsChild(t, k, w));
    assert forall k, w :: 0 <= k < |r| ==> (ZombieOf(r, k, w) <==> ZombieOf(t, k, w));
    forall i, w | 0 <= i < |r| && SleepsOn(r[i], OnProc(w))
      ensures i == w && w !in s.forks && !HasZombie(r, w) && exists k :: 0 <= k < |r| && IsChild(r, k, w)
    {
      var k :| 0 <= k < |t| && IsChild(t, k, w);
      assert IsChild(r, k, w);
      assert !HasZombie(t, w);
    }
  }

  lemma OneSlotStep(s: Sys, step: Step, k: nat)
    requires Inv(s) && Enabled(s, step)
    requires match step
             case AllocProc(_, slot) => k == slot
             case ForkFail(c) => k == s.forks[c].slot
             case ForkAdopt(c) => k == s.forks[c].slot
             case ForkRun(c) => k == s.forks[c].slot
             case Reap(_, slot) => k == slot
             case Sleep(c, _) => k == c
             case Kill(_, slot) => k == slot
             case Schedule(slot) => k == slot
             case Yield(c) => k == c
             case _ => false
    ensures WaitInv(Next(s, step))
  {
    OneSlotKept(s, Next(s, step), k);
    KeptWait(s, Next(s, step));
  }

  /** The steps of fork() and the reaping step of wait(). */
  lemma ForkStepInv(s: Sys, step: Step)
    requires Inv(s) && Enabled(s, step)
    requires step.AllocProc? || step.ForkFail? || step.ForkAdopt? || step.ForkRun? || step.Reap?
    ensures Inv(Next(s, step))
  {
    hide FamilyInv, ForkInv, WaitInv, PidInv;
    match step
    case AllocProc(c, k) =>
      AllocFamily(s, c, k); AllocFork(s, c, k); AllocPid(s, c, k); OneSlotStep(s, step, k);
    case ForkFail(c) =>
      ForkFailFamily(s, c); ForkFailFork(s, c); ForkFailPid(s, c); OneSlotStep(s, step, s.forks[c].slot);
    case ForkAdopt(c) =>
      ForkAdoptFamily(s, c); ForkAdoptFork(s, c); ForkAdoptPid(s, c); OneSlotStep(s, step, s.forks[c].slot);
    case ForkRun(c) =>
      ForkRunFamily(s, c); ForkRunFork(s, c); ForkRunPid(s, c); OneSlotStep(s, step, s.forks[c].slot);
    case Reap(c, k) =>
      ReapFamily(s, c, k); ReapFork(s, c, k); ReapPid(s, c, k); OneSlotStep(s, step, k);
  }

  lemma StepInv(s: Sys, step: Step)
    requires Inv(s) && Enabled(s, step)
    ensures Inv(Next(s, step))
  {
    hide FamilyInv, ForkInv, WaitInv, PidInv, ExitTable, HasZombie;
    var t := Next(s, step);
    match step
    case Exit(c) => ExitInv(s, c);
    case WaitFail(c) =>
    case WaitSleep(c) => Resched(s, t.table); WaitSleepWait(s, c);
    case Wakeup(x) => Resched(s, t.table); WakeupKept(s, x); KeptWait(s, t);
    case Sleep(_, _) => SlotStepInv(s, step);
    case Kill(_, _) => SlotStepInv(s, step);
    case Schedule(_) => SlotStepInv(s, step);
    case Yield(_) => SlotStepInv(s, step);
    case _ => ForkStepInv(s, step);
  }

  lemma ExitInv(s: Sys, c: nat)
    requires Inv(s) && Enabled(s, Exit(c))
    ensures Inv(Next(s, Exit(c)))
  {
    hide FamilyInv, ForkInv, WaitInv, PidInv, ExitTable;
    var t := Next(s, Exit(c));
    ExitShape(s.table, c, s.init);
    ExitFamily(s, t.table, c); ExitFork(s, t.table, c); ExitPid(s, t.table, c); ExitKept(s, c); KeptWait(s, t);
  }

  /** Steps that only change whether one process runs. */
  lemma SlotStepInv(s: Sys, step: Step)
    requires Inv(s) && Enabled(s, step) && (step.Sleep? || step.Kill? || step.Schedule? || step.Yield?)
    ensures Inv(Next(s, step))
  {
    hide FamilyInv, ForkInv, WaitInv, PidInv;
    Resched(s, Next(s, step).table);
    OneSlotStep(s, step, if step.Sleep? || step.Yield? then step.c else step.k);
  }

  lemma Resched(s: Sys, r: Table)
    requires FamilyInv(s) && ForkInv(s) && PidInv(s) && Rescheduled(s.table, r)
    ensures FamilyInv(s.(table := r)) && ForkInv(s.(table := r)) && PidInv(s.(table := r))
  {
    RescheduledFamily(s, r);
    RescheduledFork(s, r);
    RescheduledPid(s, r);
  }

  lemma {:induction false} RunInv(run: seq<Sys>, steps: seq<Step>, n: nat)
    requires IsRun(run, steps) && n < |run|
    ensures Inv(run[n])
  {
    hide Init, Inv, Enabled, Next;
    if n == 0 {
      InitInv(run[0]);
    } else {
      RunInv(run, steps, n - 1);
      StepInv(run[n - 1], steps[n - 1]);
    }
  }

  lemma InitInv(s: Sys)
    requires Init(s)
    ensures Inv(s)
  {
  }

  /** In every run, every process past EMBRYO other than init has a live parent. */
  lemma ParentsAreLive(run: seq<Sys>, steps: seq<Step>, n: nat, i: nat)
    requires IsRun(run, steps) && n < |run| && i < |run[n].table| && i != run[n].init
    requires Past(run[n].table[i])
    ensures LiveParent(run[n].table, i)
  {
    RunInv(run, steps, n);
  }

  /** In every run, a process asleep in wait() has a child, and none of its children is a zombie. */
  lemma WaitersWaitForSomething(run: seq<Sys>, steps: seq<Step>, n: nat, c: nat)
    requires IsRun(run, steps) && n < |run| && c < |run[n].table| && SleepsOn(run[n].table[c], OnProc(c))
    ensures exists k :: 0 <= k < |run[n].table| && IsChild(run[n].table, k, c)
    ensures !HasZombie(run[n].table, c)
  {
    RunInv(run, steps, n);
  }

  /** In every run, pids in use are distinct, and no pid is returned by wait() twice or while in use. */
  lemma PidsAreDistinct(run: seq<Sys>, steps: seq<Step>, n: nat)
    requires IsRun(run, steps) && n < |run|
    ensures forall i, j :: 0 <= i < j < |run[n].table| && run[n].table[i].state != UNUSED && run[n].table[j].state != UNUSED ==>
              run[n].table[i].pid != run[n].table[j].pid
    ensures forall i, j :: 0 <= i < j < |run[n].reaped| ==> run[n].reaped[i] != run[n].reaped[j]
    ensures forall i :: 0 <= i < |run[n].table| && run[n].table[i].state != UNUSED ==> run[n].table[i].pid !in run[n].reaped
  {
    RunInv(run, steps, n);
  }

  lemma UnusedSlot(t: Table, k: nat)
    requires FirstUnused(t, k)
    ensures k < |t| && !Past(t[k])
  {
  }

  /** A process past EMBRYO leaves its slot only by being reaped. */
  lemma StepKeepsProcess(s: Sys, step: Step, i: nat)
    requires Inv(s) && Enabled(s, step) && i < |s.table| && Past(s.table[i])
    ensures var t := Next(s, step);
            && i < |t.table| && s.reaped <= t.reaped
            && ((Past(t.table[i]) && t.table[i].pid == s.table[i].pid) || s.table[i].pid in t.reaped)
  {
    hide FamilyInv, WaitInv, PidInv, ExitTable, Wakeup1, FirstUnused, HasZombie;
    if step.AllocProc? { assert FirstUnused(s.table, step.k); UnusedSlot(s.table, step.k); }
    if step.Exit? { ExitShape(s.table, step.c, s.init); }
    if step.Reap? { assert (s.reaped + [s.table[step.k].pid])[|s.reaped|] == s.table[step.k].pid; }
  }

  /** In every run a process once started is still in its slot or has been returned by wait(). */
  lemma {:induction false} NoProcessLost(run: seq<Sys>, steps: seq<Step>, n: nat, m: nat, i: nat)
    requires IsRun(run, steps) && n <= m < |run| && i < |run[n].table| && Past(run[n].table[i])
    ensures var p := run[n].table[i].pid;
            && i < |run[m].table| && run[n].reaped <= run[m].reaped
            && ((Past(run[m].table[i]) && run[m].table[i].pid == p) || p in run[m].reaped)
    decreases m
  {
    hide Init, Inv, Enabled, Next;
    if n < m {
      NoProcessLost(run, steps, n, m - 1, i);
      RunInv(run, steps, m - 1);
      var s, p := run[m - 1], run[n].table[i].pid;
      if Past(s.table[i]) && s.table[i].pid == p {
        StepKeepsProcess(s, steps[m - 1], i);
      } else {
        StepReaped(s, steps[m - 1]);
      }
    }
  }

  lemma StepReaped(s: Sys, step: Step)
    requires Inv(s) && Enabled(s, step)
    ensures |Next(s, step).table| == |s.table| && s.reaped <= Next(s, step).reaped
    ensures forall p :: p in s.reaped ==> p in Next(s, step).reaped
  {
    hide FamilyInv, WaitInv, PidInv;
    if step.Exit? { ExitShape(s.table, step.c, s.init); }
  }

  /** A pid left in a free slot belongs to no process in use. */
  predicate StaleInv(s: Sys) {
    && s.nextpid > 0
    && (forall i :: 0 <= i < |s.table| ==> s.table[i].pid < s.nextpid && (s.table[i].state != UNUSED ==> s.table[i].pid > 0))
    && (forall i, j :: 0 <= i < |s.table| && 0 <= j < |s.table| && s.table[i].state == UNUSED && s.table[j].state != UNUSED ==>
          s.table[i].pid != s.table[j].pid)
  }

  predicate InUse(p: Proc) { p.state != UNUSED }

  /** The same slots are in use, under the same pids. */
  predicate SameUse(t: Table, r: Table) {
    |r| == |t| && forall i :: 0 <= i < |t| ==> r[i].pid == t[i].pid && (InUse(r[i]) <==> InUse(t[i]))
  }

  lemma StaleSame(s: Sys, t: Sys)
    requires StaleInv(s) && SameUse(s.table, t.table) && t.nextpid == s.nextpid
    ensures StaleInv(t)
  {
  }

  /** Slot k changes hands: it is given up, or taken under a new pid. */
  lemma StaleSlot(s: Sys, t: Sys, k: nat, p: Proc)
    requires StaleInv(s) && k < |s.table| && t.table == s.table[k := p] && s.nextpid <= t.nextpid && p.pid < t.nextpid
    requires if InUse(p) then p.pid >= s.nextpid else
               forall j :: 0 <= j < |s.table| && j != k && InUse(s.table[j]) ==> s.table[j].pid != p.pid
    ensures StaleInv(t)
  {
  }

  lemma ForkFailStale(s: Sys, c: nat)
    requires Inv(s) && StaleInv(s) && Enabled(s, ForkFail(c))
    ensures StaleInv(Next(s, ForkFail(c)))
  {
    hide FamilyInv, WaitInv;
    var k := s.forks[c].slot;
    StaleSlot(s, Next(s, ForkFail(c)), k, s.table[k].(state := UNUSED));
  }

  lemma StepSameUse(s: Sys, step: Step)
    requires Inv(s) && Enabled(s, step) && !step.AllocProc? && !step.ForkFail? && !step.Reap?
    ensures SameUse(s.table, Next(s, step).table)
  {
    hide FamilyInv, WaitInv, PidInv, ExitTable, HasZombie, FirstZombie, FirstUnused;
    if step.Exit? { ExitShape(s.table, step.c, s.init); }
  }

  lemma StepStale(s: Sys, step: Step)
    requires Inv(s) && StaleInv(s) && Enabled(s, step)
    ensures StaleInv(Next(s, step))
  {
    hide Inv, StaleInv, SameUse;
    match step
    case AllocProc(_, k) =>
      StaleSlot(s, Next(s, step), k, s.table[k].(state := EMBRYO, pid := s.nextpid));
    case ForkFail(c) => ForkFailStale(s, c);
    case Reap(_, k) => StaleReap(s, step);
    case _ =>
      StepSameUse(s, step);
      StaleSame(s, Next(s, step));
  }

  lemma StaleReap(s: Sys, step: Step)
    requires StaleInv(s) && Enabled(s, step) && step.Reap?
    ensures StaleInv(Next(s, step))
  {
    StaleSlot(s, Next(s, step), step.k, Proc(UNUSED, 0, None, s.table[step.k].chan, false));
  }

  lemma {:induction false} RunStale(run: seq<Sys>, steps: seq<Step>, n: nat)
    requires IsRun(run, steps) && n < |run|
    ensures StaleInv(run[n])
  {
    hide Inv, Enabled, Next;
    if n > 0 {
      RunStale(run, steps, n - 1);
      RunInv(run, steps, n - 1);
      StepStale(run[n - 1], steps[n - 1]);
    }
  }

  /** In every run kill(pid) marks the slot it finds, and that is a process in use exactly if some process in use has the pid. */
  lemma KillMarksProcessIff(run: seq<Sys>, steps: seq<Step>, n: nat, pid: nat, k: nat)
    requires IsRun(run, steps) && n < |steps| && steps[n] == Kill(pid, k)
    ensures var t, r := run[n].table, run[n + 1].table;
            && k < |t| == |r| && r[k].killed && (forall j :: 0 <= j < |t| && j != k ==> r[j] == t[j])
            && (InUse(r[k]) <==> exists j :: 0 <= j < |t| && InUse(t[j]) && t[j].pid == pid)
  {
    RunStale(run, steps, n);
    var t := run[n].table;
    assert InUse(t[k]) ==> t[k].pid == pid;
  }

  /**
   kill() does not look at the state of the slot whose pid it matches.  A fork that fails leaves
   its pid in a free slot, so killing that pid marks the free slot, and the next process to be
   given the slot, under a pid nobody killed, starts out killed.
   */
  lemma KillMarksFreeSlot() returns (run: seq<Sys>, steps: seq<Step>)
    ensures IsRun(run, steps) && |steps| == 5 && steps[3] == Kill(2, 1)
    ensures |run[3].table| == |run[5].table| == 2
    ensures run[3].table[1].state == UNUSED && run[3].table[1].pid == 2
    ensures run[5].table[1] == Proc(EMBRYO, 3, None, NoChan, true)
  {
    run, steps := FailedFork();
    var s3 := run[3];
    run, steps := ExtendRun(run, steps, Kill(2, 1));
    run, steps := ExtendRun(run, steps, AllocProc(0, 1));
    assert run[3] == s3;
  }

  // ---------------------------------------------------------------- processes that start out killed

  predicate Kills(step: Step, k: nat) { step.Kill? && step.k == k }

  predicate Reaps(step: Step, k: nat) { step.Reap? && step.k == k }

  lemma StepKilled(s: Sys, step: Step, k: nat)
    requires Enabled(s, step) && k < |s.table|
    ensures |Next(s, step).table| == |s.table|
    ensures Next(s, step).table[k].killed <==> Kills(step, k) || (s.table[k].killed && !Reaps(step, k))
  {
    if step.Exit? {
      hide HasZombie;
      var t := s.table;
      var woken := if t[step.c].parent.Some? then Wakeup1(t, OnProc(t[step.c].parent.value)) else t;
      assert Reparent(woken, step.c, s.init)[k].(parent := woken[k].parent).killed == t[k].killed;
    }
  }

  /** Only wait() frees the slot of a process that got past EMBRYO, and no step lowers nextpid. */
  lemma StepPast(s: Sys, step: Step, k: nat)
    requires Inv(s) && Enabled(s, step) && k < |s.table|
    ensures |Next(s, step).table| == |s.table| && s.nextpid <= Next(s, step).nextpid
    ensures Past(s.table[k]) && !Reaps(step, k) ==> Past(Next(s, step).table[k])
  {
    hide FamilyInv, WaitInv, PidInv, ExitTable, HasZombie;
    if step.Exit? { ExitShape(s.table, step.c, s.init); }
  }

  /** Step m kills slot k, and no step from then to n reaps it. */
  predicate Marks(steps: seq<Step>, m: nat, n: nat, k: nat) {
    m < n <= |steps| && Kills(steps[m], k) && forall l :: m < l < n ==> !Reaps(steps[l], k)
  }

  lemma MarksMore(steps: seq<Step>, n: nat, end: nat, k: nat)
    requires n < end == n + 1 <= |steps|
    ensures (exists m: nat :: Marks(steps, m, end, k)) <==>
            Kills(steps[n], k) || ((exists m: nat :: Marks(steps, m, n, k)) && !Reaps(steps[n], k))
  {
    if m: nat :| Marks(steps, m, end, k) && m != n {
      assert Marks(steps, m, n, k);
    }
    if m: nat :| Marks(steps, m, n, k) && !Reaps(steps[n], k) {
      assert Marks(steps, m, end, k);
    }
    if Kills(steps[n], k) { assert Marks(steps, n, end, k); }
  }

  lemma {:induction false} RunKilled(run: seq<Sys>, steps: seq<Step>, n: nat, k: nat)
    requires IsRun(run, steps) && n < |run| && k < |run[0].table|
    ensures |run[n].table| == |run[0].table|
    ensures run[n].table[k].killed <==> exists m: nat :: Marks(steps, m, n, k)
    decreases n
  {
    hide Init, Next;
    if n == 0 {
      StartsUnkilled(run[0], k);
    } else {
      RunKilled(run, steps, n - 1, k);
      StepKilled(run[n - 1], steps[n - 1], k);
      MarksMore(steps, n - 1, n, k);
    }
  }

  lemma StartsUnkilled(s: Sys, k: nat)
    requires Init(s) && k < |s.table|
    ensures !s.table[k].killed
  {
  }

  lemma {:induction false} RunPast(run: seq<Sys>, steps: seq<Step>, m: nat, n: nat, k: nat)
    requires IsRun(run, steps) && m <= n < |run| && k < |run[m].table|
    ensures |run[n].table| == |run[m].table| && run[m].nextpid <= run[n].nextpid
    ensures Past(run[m].table[k]) && (forall l :: m <= l < n ==> !Reaps(steps[l], k)) ==> Past(run[n].table[k])
    decreases n
  {
    hide Init, Next, Past, Enabled;
    if m < n {
      RunPast(run, steps, m, n - 1, k);
      RunInv(run, steps, n - 1);
      StepPast(run[n - 1], steps[n - 1], k);
    }
  }

  /**
   In every run a new process starts out killed exactly if a kill() has found its slot since it was
   last reaped.  That kill found the slot free or an EMBRYO, under another, smaller pid.
   */
  lemma StartsKilledIff(run: seq<Sys>, steps: seq<Step>, n: nat, c: nat, k: nat)
    requires IsRun(run, steps) && n < |steps| && steps[n] == AllocProc(c, k)
    ensures k < |run[n + 1].table| && (run[n + 1].table[k].killed <==> exists m: nat :: Marks(steps, m, n, k))
    ensures forall m: nat :: Marks(steps, m, n, k) ==>
              && k < |run[m].table| && (run[m].table[k].state == UNUSED || run[m].table[k].state == EMBRYO)
              && steps[m].pid < run[n + 1].table[k].pid
  {
    RunLength(run, steps, n, k);
    RunKilled(run, steps, n, k);
    StepKilled(run[n], steps[n], k);
    forall m: nat | Marks(steps, m, n, k)
      ensures k < |run[m].table| && !Past(run[m].table[k]) && steps[m].pid < run[n + 1].table[k].pid
    {
      MarkedEarly(run, steps, m, n, c, k);
    }
  }

  lemma {:induction false} RunLength(run: seq<Sys>, steps: seq<Step>, n: nat, k: nat)
    requires IsRun(run, steps) && n < |run| && k < |run[n].table|
    ensures k < |run[0].table|
    decreases n
  {
    hide Init, Inv, Enabled, Next;
    if n > 0 {
      RunInv(run, steps, n - 1);
      StepReaped(run[n - 1], steps[n - 1]);
      RunLength(run, steps, n - 1, k);
    }
  }

  lemma MarkedEarly(run: seq<Sys>, steps: seq<Step>, m: nat, n: nat, c: nat, k: nat)
    requires IsRun(run, steps) && n < |steps| && steps[n] == AllocProc(c, k) && Marks(steps, m, n, k)
    ensures k < |run[m].table| && k < |run[n + 1].table| && !Past(run[m].table[k]) && steps[m].pid < run[n + 1].table[k].pid
  {
    assert Enabled(run[m], steps[m]) && Enabled(run[n], steps[n]);
    RunPast(run, steps, m, n, k);
    RunStale(run, steps, m);
  }

  /** The shortest case: kill(0), before any other process exists, finds the first free slot. */
  lemma KillZero() returns (run: seq<Sys>, steps: seq<Step>)
    ensures IsRun(run, steps) && steps == [Kill(0, 1), Schedule(0), AllocProc(0, 1)]
    ensures |run[0].table| == |run[3].table| == 2
    ensures run[0].table[1].state == UNUSED && run[3].table[1] == Proc(EMBRYO, 2, None, NoChan, true)
  {
    var s0 := Sys([Proc(RUNNABLE, 1, None, NoChan, false), Proc(UNUSED, 0, None, NoChan, false)], 0, 2, map[], []);
    var s1 := Next(s0, Kill(0, 1));
    var s2 := Next(s1, Schedule(0));
    run := [s0, s1, s2, Next(s2, AllocProc(0, 1))];
    steps := [Kill(0, 1), Schedule(0), AllocProc(0, 1)];
  }

  lemma ExtendRun(run: seq<Sys>, steps: seq<Step>, step: Step) returns (run': seq<Sys>, steps': seq<Step>)
    requires IsRun(run, steps) && Enabled(run[|run| - 1], step)
    ensures IsRun(run', steps') && run' == run + [Next(run[|run| - 1], step)] && steps' == steps + [step]
  {
    hide Next, Init;
    run' := run + [Next(run[|run| - 1], step)];
    steps' := steps + [step];
  }

  /** init forks, and the fork fails. */
  lemma FailedFork() returns (run: seq<Sys>, steps: seq<Step>)
    ensures IsRun(run, steps) && |steps| == 3
    ensures run[3] == Sys([Proc(RUNNING, 1, None, NoChan, false), Proc(UNUSED, 2, None, NoChan, false)], 0, 3, map[], [])
  {
    var s0 := Sys([Proc(RUNNABLE, 1, None, NoChan, false), Proc(UNUSED, 0, None, NoChan, false)], 0, 2, map[], []);
    var s1 := Next(s0, Schedule(0));
    var s2 := Next(s1, AllocProc(0, 1));
    var s3 := Next(s2, ForkFail(0));
    run := [s0, s1, s2, s3];
    steps := [Schedule(0), AllocProc(0, 1), ForkFail(0)];
  }
}
