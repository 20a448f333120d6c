/** Who wakes a sleeping process, and what fork leaves behind, over whole runs of the process table. */
module ProcWaits {
  import opened Base
  import opened ProcTable

  /** From step i up to step n process c is not given a CPU. */
  predicate Unscheduled(steps: seq<Step>, i: nat, n: nat, c: nat) {
    forall l :: i < l < n && l < |steps| ==> steps[l] != Schedule(c)
  }

  /** The step makes a process that went to sleep in wait() runnable. */
  ghost predicate WakesWaiter(s: Sys, step: Step, c: nat) {
    || Kills(step, c)
    || (step.Exit? && step.c < |s.table| && (s.table[step.c].parent == Some(c) || (c == s.init && HasZombie(s.table, step.c))))
  }

  /** The step makes a process that went to sleep on x runnable. */
  predicate WakesSleeper(step: Step, c: nat, x: nat) {
    Kills(step, c) || step == Wakeup(x)
  }

  ghost predicate Wakes(s: Sys, step: Step, c: nat, chan: Chan) {
    match chan
    case NoChan => false
    case OnProc(_) => WakesWaiter(s, step, c)
    case OnOther(x) => WakesSleeper(step, c, x)
  }

  /** c sleeps on chan, or was woken and has not run since. */
  predicate Resting(s: Sys, c: nat, chan: Chan) {
    c < |s.table| && (s.table[c].state == RUNNABLE || SleepsOn(s.table[c], chan))
  }

  // ---------------------------------------------------------------- one step

  /** Whom exit() makes runnable. */
  lemma ExitWakesIff(t: Table, d: nat, init: nat, c: nat)
    requires d < |t| && c < |t| && t[d].state == RUNNING && t[c].state != RUNNING
    ensures ExitTable(t, d, init)[c].chan == t[c].chan
    ensures t[c].state == RUNNABLE ==> ExitTable(t, d, init)[c].state == RUNNABLE
    ensures t[c].state == SLEEPING ==>
              ExitTable(t, d, init)[c].state ==
                if (t[d].parent.Some? && t[c].chan == OnProc(t[d].parent.value)) || (HasZombie(t, d) && t[c].chan == OnProc(init))
                then RUNNABLE else SLEEPING
  {
    var woken := if t[d].parent.Some? then Wakeup1(t, OnProc(t[d].parent.value)) else t;
    assert HasZombie(woken, d) <==> HasZombie(t, d) by {
      assert forall i :: 0 <= i < |t| ==> (ZombieOf(woken, i, d) <==> ZombieOf(t, i, d));
    }
    hide HasZombie;
    var moved := Reparent(woken, d, init);
    assert moved[c].(parent := woken[c].parent).state == moved[c].state && moved[c].(parent := woken[c].parent).chan == moved[c].chan;
  }

  lemma StepRests(s: Sys, step: Step, c: nat, chan: Chan)
    requires Inv(s) && Enabled(s, step) && step != Schedule(c) && Resting(s, c, chan)
    requires chan == OnProc(c) || chan.OnOther?
    ensures Resting(Next(s, step), c, chan)
    ensures Next(s, step).table[c].state == RUNNABLE <==> s.table[c].state == RUNNABLE || Wakes(s, step, c, chan)
  {
    hide FamilyInv, WaitInv, PidInv, HasZombie, ExitTable;
    if step.Exit? { ExitWakesIff(s.table, step.c, s.init, c); }
  }

  // ---------------------------------------------------------------- whole runs

  ghost predicate WokenBy(run: seq<Sys>, steps: seq<Step>, i: nat, n: nat, c: nat, chan: Chan) {
    exists m :: i < m < n && m < |steps| && m < |run| && Wakes(run[m], steps[m], c, chan)
  }

  lemma WokenMore(run: seq<Sys>, steps: seq<Step>, i: nat, n: nat, c: nat, chan: Chan)
    requires i < n < |steps| && |run| == |steps| + 1
    ensures WokenBy(run, steps, i, n + 1, c, chan) <==> WokenBy(run, steps, i, n, c, chan) || Wakes(run[n], steps[n], c, chan)
  {
    hide Wakes;
  }

  lemma {:induction false} RunRests(run: seq<Sys>, steps: seq<Step>, i: nat, n: nat, c: nat, chan: Chan)
    requires IsRun(run, steps) && i < n < |run| && Unscheduled(steps, i, n, c)
    requires (steps[i] == WaitSleep(c) && chan == OnProc(c)) || (exists x :: steps[i] == Sleep(c, x) && chan == OnOther(x))
    ensures Resting(run[n], c, chan) && (run[n].table[c].state == RUNNABLE <==> WokenBy(run, steps, i, n, c, chan))
    decreases n
  {
    hide Wakes, Inv, Init, Next, Enabled;
    if n == i + 1 {
      FallsAsleep(run[i], steps[i], c, chan);
    } else {
      RunRests(run, steps, i, n - 1, c, chan);
      RunInv(run, steps, n - 1);
      StepRests(run[n - 1], steps[n - 1], c, chan);
      WokenMore(run, steps, i, n - 1, c, chan);
    }
  }

  lemma FallsAsleep(s: Sys, step: Step, c: nat, chan: Chan)
    requires Enabled(s, step)
    requires (step == WaitSleep(c) && chan == OnProc(c)) || (exists x :: step == Sleep(c, x) && chan == OnOther(x))
    ensures Resting(Next(s, step), c, chan) && Next(s, step).table[c].state == SLEEPING
  {
  }

  /**
   In every run a process that went to sleep in wait() and has not run since is runnable exactly if
   since then it was killed, a child of it exited, or, being init, it inherited a zombie.  While it still
   sleeps it has a child and no zombie child.
   */
  lemma WaiterWokenIff(run: seq<Sys>, steps: seq<Step>, i: nat, n: nat, c: nat)
    requires IsRun(run, steps) && i < n < |run| && steps[i] == WaitSleep(c) && Unscheduled(steps, i, n, c)
    ensures c < |run[n].table| && (run[n].table[c].state == RUNNABLE || run[n].table[c].state == SLEEPING)
    ensures run[n].table[c].state == RUNNABLE <==> exists m :: i < m < n && WakesWaiter(run[m], steps[m], c)
    ensures run[n].table[c].state == SLEEPING ==>
              !HasZombie(run[n].table, c) && exists k :: 0 <= k < |run[n].table| && IsChild(run[n].table, k, c)
  {
    hide Inv, Next, Enabled, HasZombie, WakesWaiter;
    RunRests(run, steps, i, n, c, OnProc(c));
    if SleepsOn(run[n].table[c], OnProc(c)) { WaitersWaitForSomething(run, steps, n, c); }
    assert WokenBy(run, steps, i, n, c, OnProc(c)) <==> exists m :: i < m < n && WakesWaiter(run[m], steps[m], c) by {
      assert forall m :: i < m < n ==> (Wakes(run[m], steps[m], c, OnProc(c)) <==> WakesWaiter(run[m], steps[m], c));
    }
  }

  /** So the exit of a child leaves a waiting parent runnable, beside a zombie to reap. */
  lemma ExitWakesParent(run: seq<Sys>, steps: seq<Step>, i: nat, n: nat, c: nat, d: nat)
    requires IsRun(run, steps) && i < n < |steps| && steps[i] == WaitSleep(c) && Unscheduled(steps, i, n, c)
    requires steps[n] == Exit(d) && d < |run[n].table| && run[n].table[d].parent == Some(c)
    ensures c < |run[n + 1].table| && run[n + 1].table[c].state == RUNNABLE && HasZombie(run[n + 1].table, c)
  {
    hide Inv, Init, Unscheduled, HasZombie;
    assert WakesWaiter(run[n], steps[n], c);
    UnscheduledMore(steps, i, n, c);
    assert Enabled(run[n], Exit(d)) && run[n + 1] == Next(run[n], Exit(d));
    RunInv(run, steps, n);
    ExitLeavesZombie(run[n], c, d);
    hide Next, Enabled, WakesWaiter;
    WaiterWokenIff(run, steps, i, n + 1, c);
  }

  lemma UnscheduledMore(steps: seq<Step>, i: nat, n: nat, c: nat)
    requires Unscheduled(steps, i, n, c) && n < |steps| && steps[n] != Schedule(c)
    ensures Unscheduled(steps, i, n + 1, c)
  {
  }

  lemma ExitLeavesZombie(s: Sys, c: nat, d: nat)
    requires Inv(s) && Enabled(s, Exit(d)) && s.table[d].parent == Some(c)
    ensures HasZombie(Next(s, Exit(d)).table, c)
  {
    hide ForkInv, WaitInv, PidInv;
    ExitShape(s.table, d, s.init);
    assert ZombieOf(Next(s, Exit(d)).table, d, c);
  }

  /** In every run a process asleep on a channel is runnable exactly if since then that channel was woken or the process killed. */
  lemma SleeperWokenIff(run: seq<Sys>, steps: seq<Step>, i: nat, n: nat, c: nat, x: nat)
    requires IsRun(run, steps) && i < n < |run| && steps[i] == Sleep(c, x) && Unscheduled(steps, i, n, c)
    ensures c < |run[n].table| && (run[n].table[c].state == RUNNABLE || run[n].table[c].state == SLEEPING)
    ensures run[n].table[c].state == RUNNABLE <==> exists m :: i < m < n && WakesSleeper(steps[m], c, x)
  {
    hide Inv, Next, Enabled, WakesSleeper;
    RunRests(run, steps, i, n, c, OnOther(x));
    assert WokenBy(run, steps, i, n, c, OnOther(x)) <==> exists m :: i < m < n && WakesSleeper(steps[m], c, x) by {
      assert forall m :: i < m < n ==> (Wakes(run[m], steps[m], c, OnOther(x)) <==> WakesSleeper(steps[m], c, x));
    }
  }

  // ---------------------------------------------------------------- fork

  /** Between its steps a fork keeps its slot, EMBRYO under the pid it was given. */
  predicate Forking(s: Sys, c: nat, k: nat, pid: nat) {
    c in s.forks && s.forks[c].slot == k < |s.table| && s.table[k].state == EMBRYO && s.table[k].pid == pid
  }

  lemma StepForking(s: Sys, step: Step, c: nat, k: nat, pid: nat)
    requires Inv(s) && Enabled(s, step) && Forking(s, c, k, pid) && step != ForkRun(c) && step != ForkFail(c)
    ensures Forking(Next(s, step), c, k, pid)
  {
    hide FamilyInv, WaitInv, PidInv, HasZombie, ExitTable;
    if step.Exit? { ExitShape(s.table, step.c, s.init); }
  }

  lemma {:induction false} RunForking(run: seq<Sys>, steps: seq<Step>, i: nat, n: nat, c: nat, k: nat)
    requires IsRun(run, steps) && i < n < |run| && steps[i] == AllocProc(c, k)
    requires forall l :: i < l < n ==> steps[l] != ForkRun(c) && steps[l] != ForkFail(c)
    ensures Forking(run[n], c, k, run[i].nextpid)
    decreases n
  {
    if n == i + 1 {
      assert Enabled(run[i], steps[i]) && run[n] == Next(run[i], steps[i]);
    } else {
      RunForking(run, steps, i, n - 1, c, k);
      RunInv(run, steps, n - 1);
      hide Init, Inv, Next, Enabled, Forking;
      StepForking(run[n - 1], steps[n - 1], c, k, run[i].nextpid);
    }
  }

  /** In every run a fork that comes to its end leaves a runnable child of its own, in the slot and under the pid it was given. */
  lemma ForkMakesChild(run: seq<Sys>, steps: seq<Step>, i: nat, n: nat, c: nat, k: nat)
    requires IsRun(run, steps) && i < n < |steps| && steps[i] == AllocProc(c, k) && steps[n] == ForkRun(c)
    requires forall l :: i < l < n ==> steps[l] != ForkRun(c) && steps[l] != ForkFail(c)
    ensures k < |run[n + 1].table| && run[n + 1].table[k].state == RUNNABLE
    ensures run[n + 1].table[k].parent == Some(c) && run[n + 1].table[k].pid == run[i].nextpid
  {
    RunForking(run, steps, i, n, c, k);
    RunInv(run, steps, n);
    assert Enabled(run[n], steps[n]) && run[n + 1] == Next(run[n], steps[n]);
  }

  // ---------------------------------------------------------------- wait and the CPU

  ghost predicate CanReap(s: Sys, c: nat) {
    exists k :: 0 <= k < |s.table| && Enabled(s, Reap(c, k))
  }

  /** wait() does exactly one of three things: reap if there is a zombie child, else fail or sleep. */
  lemma WaitDecides(s: Sys, c: nat)
    requires Running(s, c)
    ensures CanReap(s, c) <==> HasZombie(s.table, c)
    ensures CanReap(s, c) || Enabled(s, WaitFail(c)) || Enabled(s, WaitSleep(c))
    ensures !(CanReap(s, c) && Enabled(s, WaitFail(c))) && !(CanReap(s, c) && Enabled(s, WaitSleep(c)))
    ensures !(Enabled(s, WaitFail(c)) && Enabled(s, WaitSleep(c)))
    ensures s.table[c].killed ==> !Enabled(s, WaitSleep(c))
  {
    if z :| 0 <= z < |s.table| && ZombieOf(s.table, z, c) {
      var k := FirstOf(s.table, z, c);
      assert Enabled(s, Reap(c, k));
    }
  }

  lemma {:induction false} FirstOf(t: Table, z: nat, c: nat) returns (k: nat)
    requires ZombieOf(t, z, c)
    ensures k < |t| && FirstZombie(t, k, c)
    decreases z
  {
    if j :| 0 <= j < z && ZombieOf(t, j, c) { k := FirstOf(t, j, c); } else { k := z; }
  }

  predicate GivesUp(step: Step, c: nat) {
    step == Yield(c) || step == WaitSleep(c) || step == Exit(c) || (step.Sleep? && step.c == c)
  }

  lemma StepRunning(s: Sys, step: Step, c: nat)
    requires Inv(s) && Enabled(s, step) && c < |s.table|
    ensures |Next(s, step).table| == |s.table|
    ensures Next(s, step).table[c].state == RUNNING <==> step == Schedule(c) || (s.table[c].state == RUNNING && !GivesUp(step, c))
  {
    hide FamilyInv, WaitInv, PidInv, HasZombie, ExitTable;
    if step.Exit? { ExitShape(s.table, step.c, s.init); }
  }

  /** c was given a CPU at step m and has not given it up before step n. */
  predicate OnCpuSince(steps: seq<Step>, m: nat, n: nat, c: nat) {
    m < n <= |steps| && steps[m] == Schedule(c) && forall l :: m < l < n ==> !GivesUp(steps[l], c)
  }

  lemma OnCpuMore(steps: seq<Step>, n: nat, end: nat, c: nat)
    requires n < end == n + 1 <= |steps|
    ensures (exists m: nat :: OnCpuSince(steps, m, end, c)) <==>
            steps[n] == Schedule(c) || ((exists m: nat :: OnCpuSince(steps, m, n, c)) && !GivesUp(steps[n], c))
  {
    if m: nat :| OnCpuSince(steps, m, end, c) && m != n {
      assert OnCpuSince(steps, m, n, c);
    }
    if m: nat :| OnCpuSince(steps, m, n, c) && !GivesUp(steps[n], c) {
      assert OnCpuSince(steps, m, end, c);
    }
    if steps[n] == Schedule(c) { assert OnCpuSince(steps, n, end, c); }
  }

  lemma NoneRunning(s: Sys, c: nat)
    requires Init(s) && c < |s.table|
    ensures s.table[c].state != RUNNING
  {
  }

  /** In every run a process is on a CPU exactly if the scheduler gave it one and it has not yielded, slept or exited since. */
  lemma {:induction false} OnCpuIff(run: seq<Sys>, steps: seq<Step>, n: nat, c: nat)
    requires IsRun(run, steps) && n < |run| && c < |run[0].table|
    ensures |run[n].table| == |run[0].table|
    ensures run[n].table[c].state == RUNNING <==> exists m: nat :: OnCpuSince(steps, m, n, c)
    decreases n
  {
    hide Init, Inv, Next, Enabled, GivesUp;
    if n == 0 {
      NoneRunning(run[0], c);
    } else {
      hide OnCpuSince;
      OnCpuIff(run, steps, n - 1, c);
      RunInv(run, steps, n - 1);
      StepRunning(run[n - 1], steps[n - 1], c);
      OnCpuMore(steps, n - 1, n, c);
    }
  }

  // ---------------------------------------------------------------- nothing is refused that the code does

  /** In every run a fork in progress can go on, a runnable process be scheduled, and a running one give up its CPU. */
  lemma CanGoOn(run: seq<Sys>, steps: seq<Step>, n: nat, c: nat)
    requires IsRun(run, steps) && n < |run| && c < |run[n].table|
    ensures var s := run[n];
            && (c in s.forks && !s.forks[c].adopted ==> Enabled(s, ForkAdopt(c)) && Enabled(s, ForkFail(c)))
            && (c in s.forks && s.forks[c].adopted ==> Enabled(s, ForkRun(c)))
            && (s.table[c].state == RUNNABLE ==> Enabled(s, Schedule(c)))
            && (s.table[c].state == RUNNING ==> Enabled(s, Yield(c)) && forall x :: Enabled(s, Sleep(c, x)))
            && (s.table[c].state == RUNNING && c !in s.forks && c != s.init ==> Enabled(s, Exit(c)))
  {
    RunInv(run, steps, n);
    hide FamilyInv, WaitInv, PidInv;
  }

  /** Each of the three scans finds at most one slot. */
  lemma OneSlotFound(s: Sys, c: nat, pid: nat, j: nat, k: nat)
    ensures Enabled(s, AllocProc(c, j)) && Enabled(s, AllocProc(c, k)) ==> j == k
    ensures Enabled(s, Reap(c, j)) && Enabled(s, Reap(c, k)) ==> j == k
    ensures Enabled(s, Kill(pid, j)) && Enabled(s, Kill(pid, k)) ==> j == k
  {
    if Enabled(s, Reap(c, j)) && Enabled(s, Reap(c, k)) {
      assert ZombieOf(s.table, j, c) && ZombieOf(s.table, k, c);
    }
  }
}
