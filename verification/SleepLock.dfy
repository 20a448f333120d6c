/**
 Sleep locks over spin locks, sleep() and wakeup(), for any number of processes
 (sleeplock.c, spinlock.c, and sleep/wakeup/kill of proc.c).  A step is one action of one
 process; taking a spin lock is one atomic action, enabled when the lock is free.
 */
module SleepLock {
  import opened Base

  /** Where a process stands.  lk is the sleep lock's inner spin lock, pt is ptable.lock. */
  datatype Pc =
    | Outside        // not using this lock
    | Elsewhere      // holds pt for something unrelated
    | Acquiring      // acquiresleep: waits for lk
    | Checking       // holds lk, about to look whether locked is set
    | SleepWantsPt   // sleep(): holds lk, waits for pt
    | SleepHasBoth   // sleep(): holds lk and pt, about to release lk
    | GoingToSleep   // sleep(): holds pt, about to set SLEEPING and give up the CPU
    | Asleep         // SLEEPING on this lock
    | Woken          // RUNNABLE again
    | Resumed        // scheduled, holds pt, about to release it and retake lk
    | Taken          // holds lk, has set locked, about to release lk
    | Inside         // acquiresleep has returned
    | Releasing      // releasesleep: waits for lk
    | Clearing       // holds lk, about to clear locked
    | WakeWantsPt    // wakeup(): holds lk, waits for pt
    | WakeHasBoth    // wakeup(): holds lk and pt, about to run wakeup1
    | WakeDone       // wakeup(): holds lk and pt, wakeup1 has run
    | Leaving        // holds lk, about to release it

  datatype State = State(
    lk: Option<nat>,        // holder of the inner spin lock
    pt: Option<nat>,        // holder of ptable.lock
    locked: bool,
    pid: Option<nat>,
    pcs: map<nat, Pc>)

  predicate HoldsLk(pc: Pc) {
    pc.Checking? || pc.SleepWantsPt? || pc.SleepHasBoth? || pc.Taken? || pc.Clearing? || pc.WakeWantsPt? || pc.WakeHasBoth? || pc.WakeDone? || pc.Leaving?
  }

  predicate HoldsPt(pc: Pc) {
    pc.Elsewhere? || pc.SleepHasBoth? || pc.GoingToSleep? || pc.Resumed? || pc.WakeHasBoth? || pc.WakeDone?
  }

  /** Between acquiresleep's setting of locked and releasesleep's clearing of it. */
  predicate Owns(pc: Pc) {
    pc.Taken? || pc.Inside? || pc.Releasing? || pc.Clearing?
  }

  /** Has seen locked set and will sleep, or sleeps already. */
  predicate Committed(pc: Pc) {
    pc.SleepWantsPt? || pc.SleepHasBoth? || pc.GoingToSleep? || pc.Asleep?
  }

  /** Has cleared locked and has not yet run wakeup1. */
  predicate Waking(pc: Pc) {
    pc.WakeWantsPt? || pc.WakeHasBoth?
  }

  /** wakeup1(lk): every process sleeping on the lock becomes RUNNABLE. */
  function Wakeup1(pcs: map<nat, Pc>): map<nat, Pc> {
    map p | p in pcs :: if pcs[p] == Asleep then Woken else pcs[p]
  }

  /** p's next action does not have to wait: a spin lock it wants is free, and it is not asleep. */
  predicate CanRun(s: State, p: nat) {
    p in s.pcs && match s.pcs[p]
      case Acquiring => s.lk.None?
      case Releasing => s.lk.None?
      case SleepWantsPt => s.pt.None?
      case WakeWantsPt => s.pt.None?
      case Woken => s.pt.None?
      case Asleep => false
      case _ => true
  }

  /** p's next action. */
  function Next(s: State, p: nat): State
    requires CanRun(s, p)
  {
    match s.pcs[p]
    case Outside => s.(pcs := s.pcs[p := Acquiring])
    case Elsewhere => s.(pt := None, pcs := s.pcs[p := Outside])
    case Acquiring => s.(lk := Some(p), pcs := s.pcs[p := Checking])
    case Checking =>
      if s.locked then s.(pcs := s.pcs[p := SleepWantsPt])
      else s.(locked := true, pid := Some(p), pcs := s.pcs[p := Taken])
    case SleepWantsPt => s.(pt := Some(p), pcs := s.pcs[p := SleepHasBoth])
    case SleepHasBoth => s.(lk := None, pcs := s.pcs[p := GoingToSleep])
    case GoingToSleep => s.(pt := None, pcs := s.pcs[p := Asleep])
    case Woken => s.(pt := Some(p), pcs := s.pcs[p := Resumed])
    case Resumed => s.(pt := None, pcs := s.pcs[p := Acquiring])
    case Taken => s.(lk := None, pcs := s.pcs[p := Inside])
    case Inside => s.(pcs := s.pcs[p := Releasing])
    case Releasing => s.(lk := Some(p), pcs := s.pcs[p := Clearing])
    case Clearing => s.(locked := false, pid := None, pcs := s.pcs[p := WakeWantsPt])
    case WakeWantsPt => s.(pt := Some(p), pcs := s.pcs[p := WakeHasBoth])
    case WakeHasBoth => s.(pcs := Wakeup1(s.pcs)[p := WakeDone])
    case WakeDone => s.(pt := None, pcs := s.pcs[p := Leaving])
    case Leaving => s.(lk := None, pcs := s.pcs[p := Outside])
  }

  datatype Action = Run | Busy | Kill

  /** A step of process p; Busy takes pt for something else, Kill is kill(p) by anyone. */
  predicate Step(s: State, t: State, p: nat, action: Action) {
    match action
    case Run => CanRun(s, p) && t == Next(s, p)
    case Busy => p in s.pcs && s.pcs[p] == Outside && s.pt.None? && t == s.(pt := Some(p), pcs := s.pcs[p := Elsewhere])
    case Kill => p in s.pcs && s.pcs[p] == Asleep && s.pt.None? && t == s.(pcs := s.pcs[p := Woken])
  }

  predicate Init(s: State) {
    && s.lk.None? && s.pt.None? && !s.locked && s.pid.None?
    && forall p :: p in s.pcs ==> s.pcs[p] == Outside
  }

  ghost predicate IsRun(run: seq<State>, procs: seq<nat>, actions: seq<Action>) {
    && |run| == |procs| + 1 == |actions| + 1
    && Init(run[0])
    && forall i :: 0 <= i < |procs| ==> Step(run[i], run[i + 1], procs[i], actions[i])
  }

  predicate LkAt(s: State, p: nat) { p in s.pcs ==> (HoldsLk(s.pcs[p]) <==> s.lk == Some(p)) }

  /** The inner spin lock has exactly the holder it records. */
  ghost predicate LkInv(s: State) {
    (forall p {:trigger LkAt(s, p)} :: LkAt(s, p)) && (s.lk.Some? ==> s.lk.value in s.pcs)
  }

  /** So has ptable.lock. */
  ghost predicate PtInv(s: State) {
    (forall p {:trigger PtAt(s, p)} :: PtAt(s, p)) && (s.pt.Some? ==> s.pt.value in s.pcs)
  }

  predicate PtAt(s: State, p: nat) { p in s.pcs ==> (HoldsPt(s.pcs[p]) <==> s.pt == Some(p)) }

  /** locked and pid name the one process that owns the sleep lock. */
  ghost predicate OwnerInv(s: State) {
    && (s.locked <==> s.pid.Some?)
    && (s.pid.Some? ==> s.pid.value in s.pcs)
    && (forall p {:trigger OwnerAt(s, p)} :: OwnerAt(s, p))
  }

  predicate OwnerAt(s: State, p: nat) { p in s.pcs ==> (Owns(s.pcs[p]) <==> s.pid == Some(p)) }

  /** Whoever has committed to sleeping will be woken: the lock is held, or a wakeup is under way. */
  predicate WakeupInv(s: State) {
    forall p :: p in s.pcs && Committed(s.pcs[p]) ==>
      s.locked || (s.lk.Some? && s.lk.value in s.pcs && Waking(s.pcs[s.lk.value]))
  }

  ghost predicate Inv(s: State) {
    LkInv(s) && PtInv(s) && OwnerInv(s) && WakeupInv(s)
  }

  lemma StepLk(s: State, t: State, p: nat, action: Action)
    requires LkInv(s) && Step(s, t, p, action)
    ensures LkInv(t)
  {
    forall q: nat ensures LkAt(t, q) { assert LkAt(s, q) && LkAt(s, p); }
  }

  lemma StepPt(s: State, t: State, p: nat, action: Action)
    requires PtInv(s) && Step(s, t, p, action)
    ensures PtInv(t)
  {
    forall q: nat ensures PtAt(t, q) { assert PtAt(s, q) && PtAt(s, p); }
  }

  lemma StepOwner(s: State, t: State, p: nat, action: Action)
    requires LkInv(s) && OwnerInv(s) && Step(s, t, p, action)
    ensures OwnerInv(t)
  {
    assert LkAt(s, p) && OwnerAt(s, p);
    forall q: nat ensures OwnerAt(t, q) { assert OwnerAt(s, q); }
  }

  lemma StepWakeup(s: State, t: State, p: nat, action: Action)
    requires Inv(s) && Step(s, t, p, action)
    ensures WakeupInv(t)
  {
    assert LkAt(s, p) && PtAt(s, p) && OwnerAt(s, p);
    if s.pid.Some? { assert OwnerAt(s, s.pid.value) && LkAt(s, s.pid.value); }
    forall q | q in t.pcs && Committed(t.pcs[q])
      ensures t.locked || (t.lk.Some? && t.lk.value in t.pcs && Waking(t.pcs[t.lk.value]))
    {
      assert LkAt(s, q) && PtAt(s, q);
    }
  }

  lemma StepInv(s: State, t: State, p: nat, action: Action)
    requires Inv(s) && Step(s, t, p, action)
    ensures Inv(t)
  {
    hide Step, LkInv, PtInv, OwnerInv, WakeupInv;
    StepLk(s, t, p, action);
    StepPt(s, t, p, action);
    StepOwner(s, t, p, action);
    StepWakeup(s, t, p, action);
  }

  lemma {:induction false} RunInv(run: seq<State>, procs: seq<nat>, actions: seq<Action>, n: nat)
    requires IsRun(run, procs, actions) && n < |run|
    ensures Inv(run[n])
  {
    if n > 0 {
      RunInv(run, procs, actions, n - 1);
      StepInv(run[n - 1], run[n], procs[n - 1], actions[n - 1]);
    }
  }

  /**
   No lost wakeup: in every run, whenever the inner lock is free and the sleep lock is not held,
   nobody sleeps on it or is about to.
   */
  lemma NoLostWakeup(run: seq<State>, procs: seq<nat>, actions: seq<Action>, n: nat)
    requires IsRun(run, procs, actions) && n < |run|
    ensures run[n].lk.None? && !run[n].locked ==> forall p :: p in run[n].pcs ==> !Committed(run[n].pcs[p])
  {
    RunInv(run, procs, actions, n);
  }

  /** Mutual exclusion, and holdingsleep's test tells exactly the owner. */
  lemma OneOwner(run: seq<State>, procs: seq<nat>, actions: seq<Action>, n: nat)
    requires IsRun(run, procs, actions) && n < |run|
    ensures forall p, q :: p in run[n].pcs && q in run[n].pcs && Owns(run[n].pcs[p]) && Owns(run[n].pcs[q]) ==> p == q
    ensures forall p :: p in run[n].pcs ==> (Owns(run[n].pcs[p]) <==> run[n].locked && run[n].pid == Some(p))
  {
    RunInv(run, procs, actions, n);
    forall p | p in run[n].pcs ensures Owns(run[n].pcs[p]) <==> run[n].locked && run[n].pid == Some(p) {
      assert OwnerAt(run[n], p);
    }
  }

  /** The process to run so that p gets on: it holds what p waits for, directly or through another. */
  function Helper(s: State, p: nat): nat {
    if s.pt.Some? then s.pt.value
    else if s.lk.Some? then s.lk.value
    else if p in s.pcs && s.pcs[p] == Asleep && s.pid.Some? then s.pid.value
    else p
  }

  predicate Using(s: State, p: nat) {
    p in s.pcs && s.pcs[p] != Outside && s.pcs[p] != Elsewhere
  }

  lemma HelperRuns(s: State, p: nat)
    requires Inv(s) && Using(s, p)
    ensures var q := Helper(s, p); CanRun(s, q) && (Using(s, q) || (s.pcs[q] == Elsewhere && s.pt == Some(q)))
  {
    var q := Helper(s, p);
    assert LkAt(s, p) && PtAt(s, p) && OwnerAt(s, p) && LkAt(s, q) && PtAt(s, q) && OwnerAt(s, q);
  }

  /**
   No deadlock: in every run, while some process is using the lock, one that is can act.  At worst
   a process that has ptable.lock for something else comes first; it can act, and gives it up.
   */
  lemma NoDeadlock(run: seq<State>, procs: seq<nat>, actions: seq<Action>, n: nat, p: nat)
    requires IsRun(run, procs, actions) && n < |run| && Using(run[n], p)
    ensures var s, q := run[n], Helper(run[n], p);
            && CanRun(s, q)
            && (Using(s, q) ||
                (s.pcs[q] == Elsewhere && Next(s, q).pt.None? &&
                 var r := Helper(Next(s, q), p); Using(Next(s, q), r) && CanRun(Next(s, q), r)))
  {
    RunInv(run, procs, actions, n);
    var s, q := run[n], Helper(run[n], p);
    HelperRuns(s, p);
    if !Using(s, q) {
      StepInv(s, Next(s, q), q, Run);
      HelperRuns(Next(s, q), p);
    }
  }

  // ---------------------------------------------------------------- acquiresleep and releasesleep as calls

  /** Inside acquiresleep. */
  predicate Trying(pc: Pc) {
    || pc.Acquiring? || pc.Checking? || pc.SleepWantsPt? || pc.SleepHasBoth? || pc.GoingToSleep?
    || pc.Asleep? || pc.Woken? || pc.Resumed? || pc.Taken?
  }

  lemma StepTrying(s: State, t: State, p: nat, action: Action, q: nat)
    requires Step(s, t, p, action) && q in s.pcs && Trying(s.pcs[q])
    ensures q in t.pcs && (Trying(t.pcs[q]) || t.pcs[q] == Inside)
  {
  }

  /** In every run acquiresleep returns only with the lock: a process that began it is still in it, or has had the lock since. */
  lemma {:induction false} AcquireGetsLock(run: seq<State>, procs: seq<nat>, actions: seq<Action>, i: nat, n: nat, p: nat)
    requires IsRun(run, procs, actions) && i <= n < |run| && p in run[i].pcs && Trying(run[i].pcs[p])
    ensures p in run[n].pcs
    ensures Trying(run[n].pcs[p]) || exists m :: i < m <= n && p in run[m].pcs && run[m].pcs[p] == Inside
    decreases n
  {
    hide Init, Trying;
    if i < n {
      AcquireGetsLock(run, procs, actions, i, n - 1, p);
      assert Step(run[n - 1], run[n], procs[n - 1], actions[n - 1]);
      StepKeepsProcs(run[n - 1], run[n], procs[n - 1], actions[n - 1]);
      if Trying(run[n - 1].pcs[p]) { StepTrying(run[n - 1], run[n], procs[n - 1], actions[n - 1], p); }
    }
  }

  lemma StepKeepsProcs(s: State, t: State, p: nat, action: Action)
    requires Step(s, t, p, action)
    ensures t.pcs.Keys == s.pcs.Keys
  {
  }

  lemma Extend(run: seq<State>, procs: seq<nat>, actions: seq<Action>, p: nat)
    returns (run': seq<State>, procs': seq<nat>, actions': seq<Action>)
    requires IsRun(run, procs, actions) && CanRun(run[|run| - 1], p)
    ensures IsRun(run', procs', actions') && run' == run + [Next(run[|run| - 1], p)]
  {
    hide CanRun, Next, Init;
    run', procs', actions' := run + [Next(run[|run| - 1], p)], procs + [p], actions + [Run];
  }

  /** A process alone gets the lock and gives it back. */
  lemma InAndOut(p: nat) returns (run: seq<State>, procs: seq<nat>, actions: seq<Action>)
    ensures IsRun(run, procs, actions) && |run| == 12
    ensures run[4] == State(None, None, true, Some(p), map[p := Inside]) && run[11] == run[0]
  {
    var s := State(None, None, false, None, map[p := Outside]);
    run, procs, actions := [s], [], [];
    assert IsRun(run, procs, actions);
    hide IsRun;
    run, procs, actions := Extend(run, procs, actions, p);
    run, procs, actions := Extend(run, procs, actions, p);
    run, procs, actions := Extend(run, procs, actions, p);
    run, procs, actions := Extend(run, procs, actions, p);
    assert run[4] == State(None, None, true, Some(p), map[p := Inside]);
    run, procs, actions := GiveBack(run, procs, actions, p);
  }

  lemma GiveBack(run0: seq<State>, procs0: seq<nat>, actions0: seq<Action>, p: nat)
    returns (run: seq<State>, procs: seq<nat>, actions: seq<Action>)
    requires IsRun(run0, procs0, actions0) && run0[|run0| - 1] == State(None, None, true, Some(p), map[p := Inside])
    ensures IsRun(run, procs, actions) && |run| == |run0| + 7 && run0 <= run
    ensures run[|run| - 1] == State(None, None, false, None, map[p := Outside])
  {
    hide IsRun;
    run, procs, actions := run0, procs0, actions0;
    run, procs, actions := Extend(run, procs, actions, p);
    run, procs, actions := Extend(run, procs, actions, p);
    run, procs, actions := Extend(run, procs, actions, p);
    run, procs, actions := Extend(run, procs, actions, p);
    assert run[|run| - 1] == State(Some(p), Some(p), false, None, map[p := WakeHasBoth]);
    run, procs, actions := Extend(run, procs, actions, p);
    run, procs, actions := Extend(run, procs, actions, p);
    run, procs, actions := Extend(run, procs, actions, p);
  }
}
