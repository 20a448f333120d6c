/**
 Concurrent file system operations over the redo log: any number of operations between
 begin_op() and end_op(), group commit, and crashes at any point, recovery included.
 Every step is one atomic action; every disk write is a step of its own.
 */
module LogSystem {
  import opened Base
  import opened Log
  import opened RedoLog

  /** What operations did, in order.  An operation has an id of its own. */
  datatype Event = Begin(op: nat) | Wrote(op: nat, b: uint, data: Block) | End(op: nat)

  /** An operation in progress, the distinct blocks it has logged, and whether it is in log_write past the checks. */
  datatype Op = Op(id: nat, written: set<uint>, checked: bool)

  /** What the machine is busy with; `from` is the disk at the start of that work. */
  datatype Phase =
    | Running
    | Committing(from: Disk, data: seq<Block>, pc: nat)   // pc disk writes of commit() done
    | Recovering(from: Disk, pc: nat)                     // pc disk writes of recover_from_log() done

  datatype Sys = Sys(
    disk: Disk,
    phase: Phase,
    lh: seq<uint>,
    pinned: map<uint, Block>,
    ops: seq<Op>,
    outstanding: int,
    events: seq<Event>,     // history, for stating what the disk holds
    durable: nat)           // length of its committed prefix

  datatype Step =
    | BeginOp(id: nat)
    | CheckOp(i: nat)                                     // log_write's checks, without the lock
    | LogWriteOp(i: nat, b: uint, data: Block)            // the rest of log_write, under the lock
    | EndOp(i: nat)
    | CommitWrite
    | CommitDone
    | Crash
    | RecoverWrite
    | RecoverDone

  ghost predicate Enabled(L: Layout, s: Sys, step: Step) {
    match step
    case BeginOp(id) =>
      && s.phase.Running?
      && (forall i :: 0 <= i < |s.events| ==> s.events[i].op != id)
      && |s.lh| + (s.outstanding + 1) * MAXOPBLOCKS <= LOGSIZE
    case CheckOp(i) =>
      s.phase.Running? && i < |s.ops| && !s.ops[i].checked && L.HasRoom(|s.lh|) && s.outstanding >= 1
    case LogWriteOp(i, b, data) =>
      s.phase.Running? && i < |s.ops| && s.ops[i].checked && L.Home(s.disk, b)
    case EndOp(i) =>
      s.phase.Running? && i < |s.ops| && !s.ops[i].checked && Cached(s.lh, s.pinned)
    case CommitWrite =>
      && s.phase.Committing? && Committable(L, s.phase.from, s.lh, s.phase.data)
      && s.phase.pc < |CommitWrites(L, s.phase.from, s.lh, s.phase.data)|
    case CommitDone =>
      && s.phase.Committing? && Committable(L, s.phase.from, s.lh, s.phase.data)
      && s.phase.pc == |CommitWrites(L, s.phase.from, s.lh, s.phase.data)|
    case Crash =>
      s.durable <= |s.events|
    case RecoverWrite =>
      s.phase.Recovering? && GoodDisk(L, s.phase.from) && s.phase.pc < |RecoveryWrites(L, s.phase.from)|
    case RecoverDone =>
      s.phase.Recovering? && GoodDisk(L, s.phase.from) && s.phase.pc == |RecoveryWrites(L, s.phase.from)|
  }

  ghost function Next(L: Layout, s: Sys, step: Step): Sys
    requires Enabled(L, s, step)
  {
    match step
    case BeginOp(id) =>
      s.(ops := s.ops + [Op(id, {}, false)], outstanding := s.outstanding + 1, events := s.events + [Begin(id)])
    case CheckOp(i) =>
      s.(ops := s.ops[i := s.ops[i].(checked := true)])
    case LogWriteOp(i, b, data) =>
      var op := s.ops[i];
      s.(lh := Absorb(s.lh, b), pinned := s.pinned[b := data],
         ops := s.ops[i := op.(written := op.written + {b}, checked := false)],
         events := s.events + [Wrote(op.id, b, data)])
    case EndOp(i) =>
      var left := s.outstanding - 1;
      s.(ops := s.ops[..i] + s.ops[i + 1..], outstanding := left, events := s.events + [End(s.ops[i].id)],
         phase := if left == 0 then Committing(s.disk, Contents(s.lh, s.pinned), 0) else Running)
    case CommitWrite =>
      var Committing(from, data, pc) := s.phase;
      s.(disk := Put(s.disk, CommitWrites(L, from, s.lh, data)[pc]),
         phase := Committing(from, data, pc + 1),
         durable := if pc == |s.lh| then |s.events| else s.durable)
    case CommitDone =>
      s.(phase := Running, lh := [], pinned := map[], durable := |s.events|)
    case Crash =>
      s.(phase := Recovering(s.disk, 0), lh := [], pinned := map[], ops := [], outstanding := 0,
         events := s.events[..s.durable])
    case RecoverWrite =>
      var Recovering(from, pc) := s.phase;
      s.(disk := Put(s.disk, RecoveryWrites(L, from)[pc]), phase := Recovering(from, pc + 1))
    case RecoverDone =>
      s.(phase := Running)
  }

  /** A machine that has just been switched on with some disk. */
  ghost predicate Init(L: Layout, s: Sys) {
    && GoodDisk(L, s.disk)
    && s == Sys(s.disk, Recovering(s.disk, 0), [], map[], [], 0, [], 0)
  }

  ghost predicate IsRun(L: Layout, run: seq<Sys>, steps: seq<Step>) {
    && |run| == |steps| + 1
    && Init(L, run[0])
    && forall i :: 0 <= i < |steps| ==> Enabled(L, run[i], steps[i]) && run[i + 1] == Next(L, run[i], steps[i])
  }

  /** The blocks logged fit the list in memory and the log on disk. */
  predicate Roomy(L: Layout, s: Sys) {
    |s.lh| <= LOGSIZE && |s.lh| < L.size
  }

  // ---------------------------------------------------------------- what the disk holds

  /** The plain meaning of a history: write every block in place, at once. */
  ghost function Replay(d: Disk, events: seq<Event>): (r: Disk)
    ensures |r| == |d|
  {
    if events == [] then d
    else
      var before := Replay(d, events[..|events| - 1]);
      var e := events[|events| - 1];
      if e.Wrote? && e.b < |d| then before[e.b := e.data] else before
  }

  /** The disk as the buffer cache shows it: pinned buffers hide the disk's blocks. */
  ghost function View(d: Disk, pinned: map<uint, Block>): (r: Disk)
    ensures |r| == |d|
  {
    seq(|d|, b requires 0 <= b < |d| => if b in pinned then pinned[b] else d[b])
  }

  /** Every operation that appears has ended. */
  predicate Complete(events: seq<Event>) {
    forall i :: 0 <= i < |events| ==> End(events[i].op) in events
  }

  ghost predicate PhaseInv(L: Layout, base: Disk, s: Sys)
    requires s.durable <= |s.events| && L.Fits(s.disk)
  {
    match s.phase
    case Running =>
      && s.disk[L.start][0] == 0
      && Loggable(L, s.disk, s.lh) && Cached(s.lh, s.pinned)
      && (forall b :: b in s.pinned ==> b in s.lh)
      && SameHome(L, s.disk, Replay(base, s.events[..s.durable]))
      && SameHome(L, View(s.disk, s.pinned), Replay(base, s.events))
    case Committing(from, data, pc) =>
      && Committable(L, from, s.lh, data)
      && pc <= |CommitWrites(L, from, s.lh, data)|
      && s.disk == Image(from, CommitWrites(L, from, s.lh, data), pc)
      && SameHome(L, Updated(from, s.lh, data), Replay(base, s.events))
      && (if pc <= |s.lh| then SameHome(L, from, Replay(base, s.events[..s.durable])) else s.durable == |s.events|)
    case Recovering(from, pc) =>
      && GoodDisk(L, from)
      && pc <= |RecoveryWrites(L, from)|
      && s.disk == Image(from, RecoveryWrites(L, from), pc)
      && s.durable == |s.events| && s.lh == [] && s.pinned == map[]
      && SameHome(L, Recovered(L, from), Replay(base, s.events))
  }

  ghost function Ids(ops: seq<Op>): set<nat> {
    set k | 0 <= k < |ops| :: ops[k].id
  }

  ghost predicate OpsInv(s: Sys)
    requires s.durable <= |s.events|
  {
    && s.outstanding == |s.ops|
    && (!s.phase.Running? ==> s.ops == [])
    && (forall i :: 0 <= i < |s.events| ==> End(s.events[i].op) in s.events || s.events[i].op in Ids(s.ops))
    && Complete(s.events[..s.durable])
    && (forall i :: 0 <= i < s.durable ==> s.events[i].op !in Ids(s.ops))
    && (forall i, j :: 0 <= i < s.durable <= j < |s.events| ==> s.events[i].op != s.events[j].op)
  }

  ghost predicate Inv(L: Layout, base: Disk, s: Sys) {
    && L.Fits(s.disk) && |s.disk| == |base|
    && s.durable <= |s.events|
    && PhaseInv(L, base, s)
    && OpsInv(s)
  }

  /** At every moment recovery would produce exactly the committed prefix of the history. */
  lemma Recoverable(L: Layout, base: Disk, s: Sys)
    requires Inv(L, base, s)
    ensures GoodDisk(L, s.disk)
    ensures SameHome(L, Recovered(L, s.disk), Replay(base, s.events[..s.durable]))
  {
    var committed := Replay(base, s.events[..s.durable]);
    match s.phase
    case Running =>
      forall b | L.Home(s.disk, b) ensures Recovered(L, s.disk)[b] == s.disk[b] {
        RecoveredAt(L, s.disk, b);
      }
      SameHomeTrans(L, Recovered(L, s.disk), s.disk, committed);
    case Committing(from, data, pc) =>
      CrashDuringCommit(L, from, s.lh, data, pc);
      assert pc > |s.lh| ==> s.events[..s.durable] == s.events;
      SameHomeTrans(L, Recovered(L, s.disk), if pc <= |s.lh| then from else Updated(from, s.lh, data), committed);
    case Recovering(from, pc) =>
      CrashDuringRecovery(L, from, pc);
      assert s.events[..s.durable] == s.events;
      SameHomeTrans(L, Recovered(L, s.disk), Recovered(L, from), committed);
  }

  // ---------------------------------------------------------------- every step keeps the invariant

  lemma ReplayAppend(d: Disk, events: seq<Event>, e: Event)
    ensures Replay(d, events + [e])
         == if e.Wrote? && e.b < |d| then Replay(d, events)[e.b := e.data] else Replay(d, events)
  {
    assert (events + [e])[..|events|] == events;
  }

  lemma ViewIsUpdated(L: Layout, d: Disk, lh: seq<uint>, pinned: map<uint, Block>)
    requires Loggable(L, d, lh) && Cached(lh, pinned) && forall b :: b in pinned ==> b in lh
    ensures Updated(d, lh, Contents(lh, pinned)) == View(d, pinned)
  {
    forall b | 0 <= b < |d| ensures Updated(d, lh, Contents(lh, pinned))[b] == View(d, pinned)[b] {
      UpdatedAt(L, d, lh, Contents(lh, pinned), b);
    }
  }

  lemma BeginPhase(L: Layout, base: Disk, s: Sys, id: nat)
    requires Inv(L, base, s) && Enabled(L, s, BeginOp(id))
    ensures PhaseInv(L, base, Next(L, s, BeginOp(id)))
  {
    ReplayAppend(base, s.events, Begin(id));
    assert (s.events + [Begin(id)])[..s.durable] == s.events[..s.durable];
  }

  lemma WritePhase(L: Layout, base: Disk, s: Sys, i: nat, b: uint, data: Block)
    requires Inv(L, base, s) && Enabled(L, s, LogWriteOp(i, b, data)) && Roomy(L, Next(L, s, LogWriteOp(i, b, data)))
    ensures PhaseInv(L, base, Next(L, s, LogWriteOp(i, b, data)))
  {
    hide SameHome, Loggable, Cached, Replay, View;
    var e := Wrote(s.ops[i].id, b, data);
    ReplayAppend(base, s.events, e);
    assert (s.events + [e])[..s.durable] == s.events[..s.durable];
    SameHomePut(L, s.disk, s.pinned, Replay(base, s.events), b, data);
    LoggableMore(L, s.disk, s.lh, s.pinned, b, data);
  }

  /** A write of a home block shows through the cache as it does in a replay. */
  lemma SameHomePut(L: Layout, d: Disk, pinned: map<uint, Block>, r: Disk, b: uint, data: Block)
    requires L.Fits(d) && |r| == |d| && L.Home(d, b) && SameHome(L, View(d, pinned), r)
    ensures SameHome(L, View(d, pinned[b := data]), r[b := data])
  {
    assert View(d, pinned[b := data]) == View(d, pinned)[b := data];
  }

  lemma LoggableMore(L: Layout, d: Disk, lh: seq<uint>, pinned: map<uint, Block>, b: uint, data: Block)
    requires Loggable(L, d, lh) && Cached(lh, pinned) && L.Home(d, b)
    requires |Absorb(lh, b)| <= LOGSIZE && |Absorb(lh, b)| < L.size
    ensures Loggable(L, d, Absorb(lh, b)) && Cached(Absorb(lh, b), pinned[b := data])
  {
  }

  lemma EndPhase(L: Layout, base: Disk, s: Sys, i: nat)
    requires Inv(L, base, s) && Enabled(L, s, EndOp(i))
    ensures PhaseInv(L, base, Next(L, s, EndOp(i)))
  {
    var e := End(s.ops[i].id);
    ReplayAppend(base, s.events, e);
    assert (s.events + [e])[..s.durable] == s.events[..s.durable];
    ViewIsUpdated(L, s.disk, s.lh, s.pinned);
  }

  lemma CommitDonePhase(L: Layout, base: Disk, s: Sys)
    requires Inv(L, base, s) && Enabled(L, s, CommitDone)
    ensures PhaseInv(L, base, Next(L, s, CommitDone))
  {
    var Committing(from, data, pc) := s.phase;
    CommitComplete(L, from, s.lh, data);
    SameHomeTrans(L, s.disk, Updated(from, s.lh, data), Replay(base, s.events));
    assert s.events[..|s.events|] == s.events;
    assert View(s.disk, map[]) == s.disk;
  }

  lemma CrashPhase(L: Layout, base: Disk, s: Sys)
    requires Inv(L, base, s)
    ensures PhaseInv(L, base, Next(L, s, Crash))
  {
    Recoverable(L, base, s);
  }

  lemma RecoverDonePhase(L: Layout, base: Disk, s: Sys)
    requires Inv(L, base, s) && Enabled(L, s, RecoverDone)
    ensures PhaseInv(L, base, Next(L, s, RecoverDone))
  {
    GoodDuringRecovery(L, s.phase.from, s.phase.pc);
    assert s.events[..s.durable] == s.events;
    assert View(s.disk, map[]) == s.disk;
  }

  lemma CommitWritePhase(L: Layout, base: Disk, s: Sys)
    requires Inv(L, base, s) && Enabled(L, s, CommitWrite)
    ensures PhaseInv(L, base, Next(L, s, CommitWrite))
  {
    hide SameHome, Replay, Updated, CommitWrites, Loggable, Complete;
    assert s.events[..|s.events|] == s.events;
  }

  lemma RecoverWritePhase(L: Layout, base: Disk, s: Sys)
    requires Inv(L, base, s) && Enabled(L, s, RecoverWrite)
    ensures PhaseInv(L, base, Next(L, s, RecoverWrite))
  {
  }

  lemma StepShape(L: Layout, base: Disk, s: Sys, step: Step)
    requires Inv(L, base, s) && Enabled(L, s, step)
    ensures var t := Next(L, s, step); |t.disk| == |base| && t.durable <= |t.events|
  {
  }

  lemma StepPhase(L: Layout, base: Disk, s: Sys, step: Step)
    requires Inv(L, base, s) && Enabled(L, s, step) && Roomy(L, Next(L, s, step))
    ensures var t := Next(L, s, step); |t.disk| == |base| && t.durable <= |t.events| && PhaseInv(L, base, t)
  {
    StepShape(L, base, s, step);
    match step
    case BeginOp(id) => BeginPhase(L, base, s, id);
    case CheckOp(i) =>
    case LogWriteOp(i, b, data) => WritePhase(L, base, s, i, b, data);
    case EndOp(i) => EndPhase(L, base, s, i);
    case CommitWrite => CommitWritePhase(L, base, s);
    case CommitDone => CommitDonePhase(L, base, s);
    case Crash => CrashPhase(L, base, s);
    case RecoverWrite => RecoverWritePhase(L, base, s);
    case RecoverDone => RecoverDonePhase(L, base, s);
  }

  /** A new event of an operation that is not in the durable prefix. */
  lemma EventOps(s: Sys, t: Sys, e: Event)
    requires s.durable <= |s.events| && OpsInv(s)
    requires t.events == s.events + [e] && t.durable == s.durable
    requires t.outstanding == |t.ops| && (!t.phase.Running? ==> t.ops == [])
    requires e.op in Ids(t.ops) || e.End?
    requires Ids(s.ops) <= Ids(t.ops) + {e.op}
    requires Ids(t.ops) <= Ids(s.ops) + {e.op}
    requires forall i :: 0 <= i < s.durable ==> s.events[i].op != e.op
    requires e.End? || Ids(s.ops) <= Ids(t.ops)
    ensures OpsInv(t)
  {
    assert t.events[|s.events|] == e;
    assert forall x :: x in s.events ==> x in t.events;
    assert t.events[..t.durable] == s.events[..s.durable];
  }

  lemma BeginOps(L: Layout, s: Sys, id: nat)
    requires s.durable <= |s.events| && OpsInv(s) && Enabled(L, s, BeginOp(id))
    ensures OpsInv(Next(L, s, BeginOp(id)))
  {
    var t := Next(L, s, BeginOp(id));
    assert t.ops[|s.ops|].id == id;
    assert forall k :: 0 <= k < |s.ops| ==> t.ops[k] == s.ops[k];
    EventOps(s, t, Begin(id));
  }

  lemma SameIds(ops: seq<Op>, ops': seq<Op>)
    requires |ops| == |ops'| && forall k :: 0 <= k < |ops| ==> ops[k].id == ops'[k].id
    ensures Ids(ops) == Ids(ops')
  {
    assert forall k :: 0 <= k < |ops| ==> ops[k].id in Ids(ops) && ops[k].id in Ids(ops');
  }

  lemma WriteOps(L: Layout, s: Sys, i: nat, b: uint, data: Block)
    requires s.durable <= |s.events| && OpsInv(s) && Enabled(L, s, LogWriteOp(i, b, data))
    ensures OpsInv(Next(L, s, LogWriteOp(i, b, data)))
  {
    var t := Next(L, s, LogWriteOp(i, b, data));
    assert s.ops[i].id in Ids(s.ops) && t.ops[i].id in Ids(t.ops);
    SameIds(s.ops, t.ops);
    EventOps(s, t, Wrote(s.ops[i].id, b, data));
  }

  lemma EndOps(L: Layout, s: Sys, i: nat)
    requires s.durable <= |s.events| && OpsInv(s) && Enabled(L, s, EndOp(i))
    ensures OpsInv(Next(L, s, EndOp(i)))
  {
    var t := Next(L, s, EndOp(i));
    var id := s.ops[i].id;
    assert id in Ids(s.ops);
    forall x | x in Ids(s.ops) && x != id ensures x in Ids(t.ops) {
      var k :| 0 <= k < |s.ops| && s.ops[k].id == x;
      assert t.ops[if k < i then k else k - 1] == s.ops[k];
    }
    assert forall k :: 0 <= k < |t.ops| ==> t.ops[k] == s.ops[if k < i then k else k + 1];
    EventOps(s, t, End(id));
  }

  /** No operation is split over two commits, and only whole operations are committed. */
  lemma StepOps(L: Layout, s: Sys, step: Step)
    requires s.durable <= |s.events| && OpsInv(s) && Enabled(L, s, step)
    ensures Next(L, s, step).durable <= |Next(L, s, step).events| && OpsInv(Next(L, s, step))
  {
    assert s.events[..|s.events|] == s.events;
    match step
    case BeginOp(id) => BeginOps(L, s, id);
    case CheckOp(i) => assert Ids(Next(L, s, step).ops) == Ids(s.ops) by { SameIds(s.ops, Next(L, s, step).ops); }
    case LogWriteOp(i, b, data) => WriteOps(L, s, i, b, data);
    case EndOp(i) => EndOps(L, s, i);
    case CommitWrite =>
    case CommitDone =>
    case Crash => assert s.events[..s.durable][..s.durable] == s.events[..s.durable];
    case RecoverWrite =>
    case RecoverDone =>
  }

  lemma {:induction false} RunOps(L: Layout, run: seq<Sys>, steps: seq<Step>, n: nat)
    requires IsRun(L, run, steps) && n < |run|
    ensures run[n].durable <= |run[n].events| && OpsInv(run[n])
  {
    if n > 0 {
      RunOps(L, run, steps, n - 1);
      StepOps(L, run[n - 1], steps[n - 1]);
    }
  }

  lemma {:induction false} RunInv(L: Layout, run: seq<Sys>, steps: seq<Step>, n: nat)
    requires IsRun(L, run, steps) && n < |run|
    requires forall k :: 0 <= k <= n ==> Roomy(L, run[k])
    ensures Inv(L, Recovered(L, run[0].disk), run[n])
  {
    if n > 0 {
      RunInv(L, run, steps, n - 1);
      StepPhase(L, Recovered(L, run[0].disk), run[n - 1], steps[n - 1]);
      StepOps(L, run[n - 1], steps[n - 1]);
    }
  }

  /**
   Crash safety of the whole system.  In every run that does not overrun the log, whatever the
   interleaving and wherever the crashes fall, recovering from the disk as it is now yields the starting disk with a prefix of
   the operations' writes applied; every operation is entirely inside that prefix or entirely
   outside it, and only finished operations are inside.
   */
  lemma CrashSafety(L: Layout, run: seq<Sys>, steps: seq<Step>, n: nat)
    requires IsRun(L, run, steps) && n < |run|
    requires forall k :: 0 <= k <= n ==> Roomy(L, run[k])
    ensures var s := run[n];
            && s.durable <= |s.events|
            && GoodDisk(L, s.disk)
            && SameHome(L, Recovered(L, s.disk), Replay(Recovered(L, run[0].disk), s.events[..s.durable]))
            && Complete(s.events[..s.durable])
            && forall i, j :: 0 <= i < s.durable <= j < |s.events| ==> s.events[i].op != s.events[j].op
  {
    RunInv(L, run, steps, n);
    Recoverable(L, Recovered(L, run[0].disk), run[n]);
  }

  /** While operations run, a read through the cache sees every write made so far. */
  lemma ReadsSeeWrites(L: Layout, run: seq<Sys>, steps: seq<Step>, n: nat)
    requires IsRun(L, run, steps) && n < |run| && run[n].phase.Running?
    requires forall k :: 0 <= k <= n ==> Roomy(L, run[k])
    ensures SameHome(L, View(run[n].disk, run[n].pinned), Replay(Recovered(L, run[0].disk), run[n].events))
  {
    RunInv(L, run, steps, n);
  }

  // ---------------------------------------------------------------- durability

  /** With no operation outstanding and no commit or recovery at work, everything is durable and the log is empty. */
  predicate Settled(s: Sys) {
    s.durable == |s.events| && s.lh == [] && s.pinned == map[]
  }

  predicate QuietInv(s: Sys) {
    && (s.phase.Running? && s.outstanding == 0 ==> Settled(s))
    && (s.phase.Recovering? ==> Settled(s))
  }

  lemma StepQuiet(L: Layout, s: Sys, step: Step)
    requires s.durable <= |s.events| && OpsInv(s) && QuietInv(s) && Enabled(L, s, step)
    ensures QuietInv(Next(L, s, step))
  {
    hide CommitWrites, RecoveryWrites, Committable, GoodDisk, Contents, Complete, Ids;
  }

  lemma {:induction false} RunQuiet(L: Layout, run: seq<Sys>, steps: seq<Step>, n: nat)
    requires IsRun(L, run, steps) && n < |run|
    ensures QuietInv(run[n])
  {
    hide Next, Enabled, OpsInv;
    if n > 0 {
      RunQuiet(L, run, steps, n - 1);
      RunOps(L, run, steps, n - 1);
      StepQuiet(L, run[n - 1], steps[n - 1]);
    }
  }

  /**
   In every run that does not overrun the log, whenever no operation is outstanding and nothing is
   being committed or recovered, the home blocks on disk are those of the whole history, and all of it
   is durable.
   */
  lemma QuietIsDurable(L: Layout, run: seq<Sys>, steps: seq<Step>, n: nat)
    requires IsRun(L, run, steps) && n < |run| && run[n].phase.Running? && run[n].outstanding == 0
    requires forall k :: 0 <= k <= n ==> Roomy(L, run[k])
    ensures run[n].durable == |run[n].events| && run[n].lh == [] && Complete(run[n].events)
    ensures SameHome(L, run[n].disk, Replay(Recovered(L, run[0].disk), run[n].events))
  {
    RunQuiet(L, run, steps, n);
    RunInv(L, run, steps, n);
    assert run[n].events[..run[n].durable] == run[n].events;
  }

  /** The end of the last operation starts a commit, and the end of any other does not. */
  lemma LastEndCommits(L: Layout, run: seq<Sys>, steps: seq<Step>, n: nat, i: nat)
    requires IsRun(L, run, steps) && n < |steps| && steps[n] == EndOp(i)
    ensures run[n + 1].phase.Committing? <==> |run[n].ops| == 1
    ensures run[n + 1].phase.Running? <==> |run[n].ops| > 1
  {
    RunOps(L, run, steps, n);
  }

  lemma StepDurable(L: Layout, s: Sys, step: Step)
    requires s.durable <= |s.events| && Enabled(L, s, step)
    ensures var t := Next(L, s, step); t.durable <= |t.events| && s.events[..s.durable] <= t.events[..t.durable]
  {
    hide CommitWrites, RecoveryWrites, Committable, GoodDisk, Contents;
  }

  /** What is durable stays so, and in its place in the history, through every later step and crash. */
  lemma {:induction false} DurableStays(L: Layout, run: seq<Sys>, steps: seq<Step>, m: nat, n: nat)
    requires IsRun(L, run, steps) && m <= n < |run|
    ensures run[m].durable <= |run[m].events| && run[n].durable <= |run[n].events|
    ensures run[m].events[..run[m].durable] <= run[n].events[..run[n].durable]
    decreases n
  {
    hide Next, Enabled, OpsInv;
    RunOps(L, run, steps, m);
    RunOps(L, run, steps, n);
    if m < n {
      DurableStays(L, run, steps, m, n - 1);
      StepDurable(L, run[n - 1], steps[n - 1]);
    }
  }

  // ---------------------------------------------------------------- nothing gets stuck

  /** Disk writes still to be made by the commit or the recovery at work. */
  ghost function Left(L: Layout, s: Sys): int {
    match s.phase
    case Running => 0
    case Committing(from, data, pc) => if Committable(L, from, s.lh, data) then |CommitWrites(L, from, s.lh, data)| - pc else 0
    case Recovering(from, pc) => if GoodDisk(L, from) then |RecoveryWrites(L, from)| - pc else 0
  }

  /** The next step of a commit or a recovery. */
  ghost function Work(L: Layout, s: Sys): Step
    requires !s.phase.Running?
  {
    if s.phase.Committing? then (if Left(L, s) > 0 then CommitWrite else CommitDone)
    else (if Left(L, s) > 0 then RecoverWrite else RecoverDone)
  }

  /** A step of a commit, or of a recovery. */
  predicate IsWork(step: Step, committing: bool) {
    if committing then step.CommitWrite? || step.CommitDone? else step.RecoverWrite? || step.RecoverDone?
  }

  lemma WorkGoesOn(L: Layout, base: Disk, s: Sys)
    requires Inv(L, base, s) && Roomy(L, s) && !s.phase.Running?
    ensures Enabled(L, s, Work(L, s)) && Left(L, s) >= 0 && IsWork(Work(L, s), s.phase.Committing?)
    ensures var t := Next(L, s, Work(L, s));
            && Roomy(L, t) && t.events == s.events
            && (if Left(L, s) > 0 then !t.phase.Running? && Left(L, t) < Left(L, s) && (t.phase.Committing? <==> s.phase.Committing?)
                else t.phase.Running? && t.durable == |t.events|)
  {
    hide CommitWrites, RecoveryWrites, SameHome, Replay, Updated, Image, OpsInv, Loggable, GoodDisk;
  }

  /** run' is run and then steps of a commit, or of a recovery. */
  ghost predicate Onward(L: Layout, run: seq<Sys>, steps: seq<Step>, run': seq<Sys>, steps': seq<Step>, committing: bool) {
    && IsRun(L, run', steps') && run <= run' && steps <= steps' && (forall k :: 0 <= k < |run'| ==> Roomy(L, run'[k]))
    && forall k :: |steps| <= k < |steps'| ==> IsWork(steps'[k], committing)
  }

  lemma OnwardOne(L: Layout, run: seq<Sys>, steps: seq<Step>, step: Step, committing: bool)
    requires IsRun(L, run, steps) && (forall k :: 0 <= k < |run| ==> Roomy(L, run[k])) && Enabled(L, run[|run| - 1], step)
    requires Roomy(L, Next(L, run[|run| - 1], step)) && IsWork(step, committing)
    ensures Onward(L, run, steps, run + [Next(L, run[|run| - 1], step)], steps + [step], committing)
  {
    hide Enabled, Next, Roomy, IsWork, IsRun;
    var run', steps' := ExtendRun(L, run, steps, step);
  }

  lemma OnwardMore(L: Layout, run: seq<Sys>, steps: seq<Step>, r: seq<Sys>, t: seq<Step>, run': seq<Sys>, steps': seq<Step>, committing: bool)
    requires Onward(L, run, steps, r, t, committing) && Onward(L, r, t, run', steps', committing)
    ensures Onward(L, run, steps, run', steps', committing)
  {
    hide IsRun, Roomy, IsWork;
  }

  /** A commit or a recovery at work can go on to its end, and then everything is durable. */
  lemma {:induction false} WorkFinishes(L: Layout, run: seq<Sys>, steps: seq<Step>) returns (run': seq<Sys>, steps': seq<Step>)
    requires IsRun(L, run, steps) && !run[|run| - 1].phase.Running? && forall k :: 0 <= k < |run| ==> Roomy(L, run[k])
    ensures Onward(L, run, steps, run', steps', run[|run| - 1].phase.Committing?)
    ensures var s := run'[|run'| - 1]; s.phase.Running? && s.events == run[|run| - 1].events && s.durable == |s.events|
    decreases Left(L, run[|run| - 1])
  {
    hide Inv, Left, Enabled, Next, Roomy, Work;
    var s, c := run[|run| - 1], run[|run| - 1].phase.Committing?;
    RunInv(L, run, steps, |run| - 1);
    WorkGoesOn(L, Recovered(L, run[0].disk), s);
    OnwardOne(L, run, steps, Work(L, s), c);
    var r, t := run + [Next(L, s, Work(L, s))], steps + [Work(L, s)];
    assert r[|r| - 1] == Next(L, s, Work(L, s)) && IsRun(L, r, t) && forall k :: 0 <= k < |r| ==> Roomy(L, r[k]);
    hide IsRun, Onward;
    if Left(L, s) > 0 {
      run', steps' := WorkFinishes(L, r, t);
      OnwardMore(L, run, steps, r, t, run', steps', c);
    } else {
      run', steps' := r, t;
    }
  }

  /** When nothing is outstanding, a new operation can begin. */
  lemma OperationsCanBegin(L: Layout, run: seq<Sys>, steps: seq<Step>, n: nat, id: nat)
    requires IsRun(L, run, steps) && n < |run| && run[n].phase.Running? && run[n].outstanding == 0
    requires forall i :: 0 <= i < |run[n].events| ==> run[n].events[i].op != id
    ensures Enabled(L, run[n], BeginOp(id))
  {
    RunQuiet(L, run, steps, n);
  }

  /** An operation that is not inside log_write can always end. */
  lemma OperationsCanEnd(L: Layout, run: seq<Sys>, steps: seq<Step>, n: nat, i: nat)
    requires IsRun(L, run, steps) && n < |run| && forall k :: 0 <= k <= n ==> Roomy(L, run[k])
    requires i < |run[n].ops| && !run[n].ops[i].checked
    ensures Enabled(L, run[n], EndOp(i))
  {
    RunInv(L, run, steps, n);
  }

  // ---------------------------------------------------------------- reservations

  /** Log space reserved by the operations in progress and not yet used. */
  function Unspent(ops: seq<Op>): int {
    if ops == [] then 0 else MAXOPBLOCKS - |ops[0].written| + Unspent(ops[1..])
  }

  /** Each operation keeps to the limit that begin_op() reserves for it. */
  predicate Budgeted(ops: seq<Op>) {
    forall i :: 0 <= i < |ops| ==> |ops[i].written| <= MAXOPBLOCKS
  }

  ghost predicate Reserved(s: Sys) {
    && Distinct(s.lh) && |s.lh| + Unspent(s.ops) <= LOGSIZE
    && (forall i, b :: 0 <= i < |s.ops| && b in s.ops[i].written ==> b in s.lh)
  }

  lemma {:induction false} UnspentAppend(ops: seq<Op>, op: Op)
    ensures Unspent(ops + [op]) == Unspent(ops) + MAXOPBLOCKS - |op.written|
  {
    if ops != [] {
      assert (ops + [op])[1..] == ops[1..] + [op];
      UnspentAppend(ops[1..], op);
    }
  }

  lemma {:induction false} UnspentUpdate(ops: seq<Op>, i: nat, op: Op)
    requires i < |ops|
    ensures Unspent(ops[i := op]) == Unspent(ops) + |ops[i].written| - |op.written|
  {
    if i == 0 {
      assert ops[0 := op][1..] == ops[1..];
    } else {
      assert ops[i := op][1..] == ops[1..][i - 1 := op];
      UnspentUpdate(ops[1..], i - 1, op);
    }
  }

  lemma {:induction false} UnspentRemove(ops: seq<Op>, i: nat)
    requires i < |ops|
    ensures Unspent(ops[..i] + ops[i + 1..]) == Unspent(ops) - MAXOPBLOCKS + |ops[i].written|
  {
    var rest := ops[..i] + ops[i + 1..];
    if i == 0 {
      assert rest == ops[1..];
    } else {
      assert rest[1..] == ops[1..][..i - 1] + ops[1..][i..];
      UnspentRemove(ops[1..], i - 1);
    }
  }

  lemma {:induction false} UnspentBounds(ops: seq<Op>)
    requires Budgeted(ops)
    ensures 0 <= Unspent(ops) <= |ops| * MAXOPBLOCKS
    ensures forall i :: 0 <= i < |ops| ==> MAXOPBLOCKS - |ops[i].written| <= Unspent(ops)
  {
    if ops != [] {
      UnspentBounds(ops[1..]);
      forall i | 0 <= i < |ops| ensures MAXOPBLOCKS - |ops[i].written| <= Unspent(ops) {
        if i > 0 { assert ops[i] == ops[1..][i - 1]; }
      }
    }
  }

  lemma WriteReserved(s: Sys, i: nat, b: uint)
    requires Reserved(s) && i < |s.ops|
    ensures var op := s.ops[i].(written := s.ops[i].written + {b}, checked := false);
            Reserved(s.(lh := Absorb(s.lh, b), ops := s.ops[i := op]))
  {
    var op := s.ops[i].(written := s.ops[i].written + {b}, checked := false);
    UnspentUpdate(s.ops, i, op);
    if b in s.ops[i].written {
      assert op.written == s.ops[i].written;
    }
  }

  lemma EndReserved(s: Sys, i: nat)
    requires Reserved(s) && i < |s.ops| && Budgeted(s.ops)
    ensures Reserved(s.(ops := s.ops[..i] + s.ops[i + 1..]))
  {
    UnspentRemove(s.ops, i);
  }

  lemma StepReserved(L: Layout, s: Sys, step: Step)
    requires s.durable <= |s.events| && OpsInv(s) && Reserved(s) && Enabled(L, s, step) && Budgeted(s.ops)
    ensures Reserved(Next(L, s, step))
  {
    match step
    case BeginOp(id) =>
      UnspentBounds(s.ops);
      UnspentAppend(s.ops, Op(id, {}, false));
    case CheckOp(i) => UnspentUpdate(s.ops, i, s.ops[i].(checked := true));
    case LogWriteOp(i, b, data) => WriteReserved(s, i, b);
    case EndOp(i) => EndReserved(s, i);
    case CommitWrite =>
    case CommitDone =>
    case Crash =>
    case RecoverWrite =>
    case RecoverDone =>
  }

  lemma {:induction false} RunReserved(L: Layout, run: seq<Sys>, steps: seq<Step>, n: nat)
    requires IsRun(L, run, steps) && n < |run|
    requires forall i :: 0 <= i < n ==> Budgeted(run[i].ops)
    ensures Reserved(run[n])
  {
    if n > 0 {
      RunReserved(L, run, steps, n - 1);
      RunOps(L, run, steps, n - 1);
      StepReserved(L, run[n - 1], steps[n - 1]);
    }
  }

  /**
   In every run whose operations keep to MAXOPBLOCKS distinct blocks, what is logged plus what
   is still reserved fits the log, so a log_write that has to append finds lh.n < LOGSIZE.
   Logged block numbers are distinct, and commit() runs only with no operation outstanding.
   */
  lemma ReservationsHold(L: Layout, run: seq<Sys>, steps: seq<Step>, n: nat)
    requires IsRun(L, run, steps) && n < |run|
    requires forall i :: 0 <= i <= n ==> Budgeted(run[i].ops)
    ensures |run[n].lh| + Unspent(run[n].ops) <= LOGSIZE
    ensures Distinct(run[n].lh)
    ensures !run[n].phase.Running? ==> run[n].outstanding == 0
    ensures forall i, b :: 0 <= i < |run[n].ops| && b !in run[n].lh && |run[n].ops[i].written + {b}| <= MAXOPBLOCKS
              ==> |run[n].lh| < LOGSIZE
  {
    RunReserved(L, run, steps, n);
    RunOps(L, run, steps, n);
    UnspentBounds(run[n].ops);
  }

  /** If the log on disk has room for LOGSIZE blocks, no such run overruns it. */
  lemma BudgetedRoomy(L: Layout, run: seq<Sys>, steps: seq<Step>, n: nat)
    requires IsRun(L, run, steps) && n < |run| && L.size > LOGSIZE
    requires forall i :: 0 <= i <= n ==> Budgeted(run[i].ops)
    ensures Roomy(L, run[n])
  {
    RunReserved(L, run, steps, n);
    UnspentBounds(run[n].ops);
  }

  /** So crash safety holds in every run whose operations keep to their limit. */
  lemma BudgetedCrashSafety(L: Layout, run: seq<Sys>, steps: seq<Step>, n: nat)
    requires IsRun(L, run, steps) && n < |run| && L.size > LOGSIZE
    requires forall i :: 0 <= i <= n ==> Budgeted(run[i].ops)
    ensures var s := run[n];
            && s.durable <= |s.events|
            && GoodDisk(L, s.disk)
            && SameHome(L, Recovered(L, s.disk), Replay(Recovered(L, run[0].disk), s.events[..s.durable]))
            && Complete(s.events[..s.durable])
            && forall i, j :: 0 <= i < s.durable <= j < |s.events| ==> s.events[i].op != s.events[j].op
  {
    forall k | 0 <= k <= n ensures Roomy(L, run[k]) {
      BudgetedRoomy(L, run, steps, k);
    }
    CrashSafety(L, run, steps, n);
  }

  /**
   Exactly when log_write panics on a block within its operation's limit: the check at its head
   does not ask whether the block would be absorbed, and it also counts the on-disk slots.
   */
  lemma LogWritePanicsIff(L: Layout, run: seq<Sys>, steps: seq<Step>, n: nat, i: nat, b: uint)
    requires IsRun(L, run, steps) && n < |run|
    requires forall i :: 0 <= i <= n ==> Budgeted(run[i].ops)
    requires i < |run[n].ops| && |run[n].ops[i].written + {b}| <= MAXOPBLOCKS
    ensures !L.HasRoom(|run[n].lh|) <==>
              |run[n].lh| >= L.size - 1 || (b in run[n].lh && |run[n].lh| == LOGSIZE)
  {
    ReservationsHold(L, run, steps, n);
    UnspentBounds(run[n].ops);
  }

  /** Every block an operation logs is one its plan allows it. */
  ghost predicate Planned(run: seq<Sys>, steps: seq<Step>, plan: map<nat, set<nat>>) {
    forall k :: 0 <= k < |steps| && k < |run| && steps[k].LogWriteOp? && steps[k].i < |run[k].ops| ==>
      run[k].ops[steps[k].i].id in plan && steps[k].b in plan[run[k].ops[steps[k].i].id]
  }

  lemma {:induction false} PlannedWrites(L: Layout, run: seq<Sys>, steps: seq<Step>, plan: map<nat, set<nat>>, n: nat)
    requires IsRun(L, run, steps) && n < |run| && Planned(run, steps, plan)
    ensures forall i, b :: 0 <= i < |run[n].ops| && b in run[n].ops[i].written ==>
              run[n].ops[i].id in plan && b in plan[run[n].ops[i].id]
  {
    if n > 0 {
      PlannedWrites(L, run, steps, plan, n - 1);
      var s, t, step := run[n - 1], run[n], steps[n - 1];
      forall i, b | 0 <= i < |t.ops| && b in t.ops[i].written ensures t.ops[i].id in plan && b in plan[t.ops[i].id] {
        match step
        case EndOp(j) => assert t.ops[i] == s.ops[if i < j then i else i + 1];
        case _ =>
      }
    }
  }

  /** Operations whose plans keep to MAXOPBLOCKS keep to it themselves. */
  lemma PlannedBudgeted(L: Layout, run: seq<Sys>, steps: seq<Step>, plan: map<nat, set<nat>>, n: nat)
    requires IsRun(L, run, steps) && n < |run| && Planned(run, steps, plan)
    requires forall id :: id in plan ==> |plan[id]| <= MAXOPBLOCKS
    ensures Budgeted(run[n].ops)
  {
    PlannedWrites(L, run, steps, plan, n);
    forall i | 0 <= i < |run[n].ops| ensures |run[n].ops[i].written| <= MAXOPBLOCKS {
      var w: set<nat> := run[n].ops[i].written;
      if w != {} {
        var b :| b in w;
        var p := plan[run[n].ops[i].id];
        assert w <= p && p == w + (p - w);
      }
    }
  }

  lemma ExtendRun(L: Layout, run: seq<Sys>, steps: seq<Step>, step: Step) returns (run': seq<Sys>, steps': seq<Step>)
    requires IsRun(L, run, steps) && Enabled(L, run[|run| - 1], step)
    ensures run' == run + [Next(L, run[|run| - 1], step)] && steps' == steps + [step]
    ensures IsRun(L, run', steps')
  {
    hide Enabled, Next, Init;
    run' := run + [Next(L, run[|run| - 1], step)];
    steps' := steps + [step];
  }

  /** A run that boots on an empty log. */
  lemma Boot(L: Layout, d: Disk) returns (run: seq<Sys>, steps: seq<Step>)
    requires GoodDisk(L, d) && d[L.start][0] == 0
    ensures IsRun(L, run, steps) && run[0].disk == d && forall i :: 0 <= i < |run| ==> run[i].ops == []
    ensures var s := run[|run| - 1]; |s.disk| == |d| && s == Sys(s.disk, Running, [], map[], [], 0, [], 0)
  {
    hide CommitWrites, Committable, Contents, Cached, LogBlocks;
    run, steps := [Sys(d, Recovering(d, 0), [], map[], [], 0, [], 0)], [];
    run, steps := ExtendRun(L, run, steps, RecoverWrite);
    run, steps := ExtendRun(L, run, steps, RecoverDone);
  }

  /** Three operations can begin when nothing is logged. */
  lemma BeginAll(L: Layout, s: Sys)
    requires s == Sys(s.disk, Running, [], map[], [], 0, [], 0)
    ensures Enabled(L, s, BeginOp(0))
    ensures var s1 := Next(L, s, BeginOp(0));
            && Enabled(L, s1, BeginOp(1))
            && var s2 := Next(L, s1, BeginOp(1));
            && Enabled(L, s2, BeginOp(2))
            && var s3 := Next(L, s2, BeginOp(2));
            && Budgeted(s1.ops) && Budgeted(s2.ops) && Budgeted(s3.ops)
            && s3 == s.(outstanding := 3, ops := [Op(0, {}, false), Op(1, {}, false), Op(2, {}, false)],
                        events := [Begin(0), Begin(1), Begin(2)])
  {
  }

  /** Three operations begun on an empty log. */
  lemma BeginThree(L: Layout, d: Disk) returns (run: seq<Sys>, steps: seq<Step>)
    requires GoodDisk(L, d) && d[L.start][0] == 0
    ensures BudgetedRun(L, d, run, steps)
    ensures var s := run[|run| - 1];
            && s.phase.Running? && |s.disk| == |d| && s.lh == [] && s.outstanding == 3
            && s.ops == [Op(0, {}, false), Op(1, {}, false), Op(2, {}, false)]
  {
    run, steps := Boot(L, d);
    BeginAll(L, run[|run| - 1]);
    hide Enabled, Next, IsRun, GoodDisk;
    run, steps := ExtendBudgeted(L, d, run, steps, BeginOp(0));
    run, steps := ExtendBudgeted(L, d, run, steps, BeginOp(1));
    run, steps := ExtendBudgeted(L, d, run, steps, BeginOp(2));
  }

  /** The blocks of a list that fall to operation j when three operations take turns. */
  function Turns(k: nat, j: nat): nat
    requires j < 3
  {
    (k + 2 - j) / 3
  }

  /** Three operations are in progress and have logged these blocks in turn. */
  ghost predicate Filled(L: Layout, d: Disk, s: Sys, blocks: seq<uint>) {
    && s.phase.Running? && |s.disk| == |d| && s.lh == blocks && s.outstanding == |s.ops| == 3
    && (forall j :: 0 <= j < 3 ==> |s.ops[j].written| <= Turns(|blocks|, j) && !s.ops[j].checked)
    && (|blocks| > 0 ==> blocks[0] in s.ops[0].written)
  }

  ghost predicate BudgetedRun(L: Layout, d: Disk, run: seq<Sys>, steps: seq<Step>) {
    IsRun(L, run, steps) && run[0].disk == d && forall i :: 0 <= i < |run| ==> Budgeted(run[i].ops)
  }

  lemma ExtendBudgeted(L: Layout, d: Disk, run: seq<Sys>, steps: seq<Step>, step: Step)
    returns (run': seq<Sys>, steps': seq<Step>)
    requires BudgetedRun(L, d, run, steps) && Enabled(L, run[|run| - 1], step) && Budgeted(Next(L, run[|run| - 1], step).ops)
    ensures BudgetedRun(L, d, run', steps') && run'[|run'| - 1] == Next(L, run[|run| - 1], step)
  {
    hide Enabled, Next, Init;
    run', steps' := ExtendRun(L, run, steps, step);
  }

  /** One more block falls to the operation whose turn it is. */
  lemma TurnFilled(L: Layout, d: Disk, s: Sys, blocks: seq<uint>, b: uint)
    requires L.Fits(d) && Filled(L, d, s, blocks) && b !in blocks && L.Home(d, b) && L.HasRoom(|blocks|)
    ensures var j := |blocks| % 3;
            && Enabled(L, s, CheckOp(j)) && Budgeted(Next(L, s, CheckOp(j)).ops)
            && var u := Next(L, s, CheckOp(j));
            && Enabled(L, u, LogWriteOp(j, b, d[0])) && Budgeted(Next(L, u, LogWriteOp(j, b, d[0])).ops)
            && Filled(L, d, Next(L, u, LogWriteOp(j, b, d[0])), blocks + [b])
  {
    hide CommitWrites, RecoveryWrites, Committable, GoodDisk, Contents, Cached, Turns;
    forall j: nat | j < 3
      ensures Turns(|blocks| + 1, j) == Turns(|blocks|, j) + (if |blocks| % 3 == j then 1 else 0) && Turns(|blocks| + 1, j) <= MAXOPBLOCKS
    {
      TurnsStep(|blocks|, j);
    }
  }

  lemma TurnsStep(k: nat, j: nat)
    requires j < 3 && k < LOGSIZE
    ensures Turns(k + 1, j) == Turns(k, j) + (if k % 3 == j then 1 else 0) && Turns(k + 1, j) <= MAXOPBLOCKS
  {
  }

  lemma {:induction false} FillLog(L: Layout, d: Disk, blocks: seq<uint>)
    returns (run: seq<Sys>, steps: seq<Step>)
    requires GoodDisk(L, d) && d[L.start][0] == 0 && Loggable(L, d, blocks)
    ensures BudgetedRun(L, d, run, steps) && Filled(L, d, run[|run| - 1], blocks)
    decreases |blocks|
  {
    if blocks == [] {
      run, steps := BeginThree(L, d);
    } else {
      hide Enabled, Next, Filled, BudgetedRun, GoodDisk;
      var k := |blocks| - 1;
      run, steps := FillLog(L, d, blocks[..k]);
      TurnFilled(L, d, run[|run| - 1], blocks[..k], blocks[k]) by { assert L.Home(d, blocks[k]); }
      run, steps := ExtendBudgeted(L, d, run, steps, CheckOp(k % 3));
      run, steps := ExtendBudgeted(L, d, run, steps, LogWriteOp(k % 3, blocks[k], d[0]));
      assert blocks[..k] + [blocks[k]] == blocks;
    }
  }

  /**
   The panic is reachable although every operation keeps to its limit: once three operations
   have logged ten blocks each, logging one of those blocks again panics instead of absorbing.
   */
  lemma AbsorbingWriteCanPanic(L: Layout, d: Disk, blocks: seq<uint>) returns (run: seq<Sys>, steps: seq<Step>)
    requires GoodDisk(L, d) && d[L.start][0] == 0
    requires Loggable(L, d, blocks) && |blocks| == LOGSIZE
    ensures BudgetedRun(L, d, run, steps)
    ensures var s := run[|run| - 1];
            && 0 < |s.ops| && blocks[0] in s.lh && |s.ops[0].written + {blocks[0]}| <= MAXOPBLOCKS
            && s.outstanding >= 1 && !L.HasRoom(|s.lh|)
  {
    run, steps := FillLog(L, d, blocks);
    var s := run[|run| - 1];
    assert s.ops[0].written + {blocks[0]} == s.ops[0].written;
  }

  /**
   On a log of at most LOGSIZE blocks, which is what mkfs makes, one slot short of filling it a write of
   a new block panics although its operation keeps to its limit.
   */
  lemma AppendingWriteCanPanic(L: Layout, d: Disk, blocks: seq<uint>, b: uint) returns (run: seq<Sys>, steps: seq<Step>)
    requires GoodDisk(L, d) && d[L.start][0] == 0 && L.size <= LOGSIZE
    requires Loggable(L, d, blocks) && |blocks| == L.size - 1 && L.Home(d, b) && b !in blocks
    ensures BudgetedRun(L, d, run, steps)
    ensures var s := run[|run| - 1];
            && |s.ops| == 3 && b !in s.lh && |s.ops[2].written + {b}| <= MAXOPBLOCKS
            && s.outstanding >= 1 && !L.HasRoom(|s.lh|)
  {
    run, steps := FillLog(L, d, blocks);
  }

  // ---------------------------------------------------------------- the check outside the lock

  /** With one slot left two operations pass the check, and then both append. */
  lemma LastSlotTwice(L: Layout, d: Disk, s: Sys, blocks: seq<uint>, b: uint, c: uint)
    requires L.Fits(d) && Filled(L, d, s, blocks) && |blocks| == L.size - 2 && L.size <= LOGSIZE
    requires b !in blocks && c !in blocks && b != c && L.Home(d, b) && L.Home(d, c)
    ensures Enabled(L, s, CheckOp(1)) && Budgeted(Next(L, s, CheckOp(1)).ops)
    ensures var s1 := Next(L, s, CheckOp(1));
            && Enabled(L, s1, CheckOp(2)) && Budgeted(Next(L, s1, CheckOp(2)).ops)
            && var s2 := Next(L, s1, CheckOp(2));
            && Enabled(L, s2, LogWriteOp(1, b, d[0])) && Budgeted(Next(L, s2, LogWriteOp(1, b, d[0])).ops)
            && var s3 := Next(L, s2, LogWriteOp(1, b, d[0]));
            && Enabled(L, s3, LogWriteOp(2, c, d[0])) && Budgeted(Next(L, s3, LogWriteOp(2, c, d[0])).ops)
            && |Next(L, s3, LogWriteOp(2, c, d[0])).lh| == L.size
  {
  }

  /** Two writes pass the check for the last slot together, and the log holds one block too many. */
  lemma OverrunRun(L: Layout, d: Disk, blocks: seq<uint>) returns (run: seq<Sys>, steps: seq<Step>)
    requires GoodDisk(L, d) && d[L.start][0] == 0 && 2 <= L.size <= LOGSIZE
    requires Distinct(blocks) && |blocks| == L.size && forall i :: 0 <= i < |blocks| ==> L.Home(d, blocks[i])
    ensures BudgetedRun(L, d, run, steps) && !Roomy(L, run[|run| - 1])
    ensures !L.InLog(L.start + |run[|run| - 1].lh|)      // where commit would copy the last logged block
  {
    var n := L.size;
    assert Loggable(L, d, blocks[..n - 2]);
    hide Enabled, Next, Filled, BudgetedRun, GoodDisk, Roomy, Budgeted;
    run, steps := FillLog(L, d, blocks[..n - 2]);
    LastSlotTwice(L, d, run[|run| - 1], blocks[..n - 2], blocks[n - 2], blocks[n - 1]);
    run, steps := ExtendBudgeted(L, d, run, steps, CheckOp(1));
    run, steps := ExtendBudgeted(L, d, run, steps, CheckOp(2));
    run, steps := ExtendBudgeted(L, d, run, steps, LogWriteOp(1, blocks[n - 2], d[0]));
    run, steps := ExtendBudgeted(L, d, run, steps, LogWriteOp(2, blocks[n - 1], d[0]));
  }

  /** In a log of one block nothing passes the check. */
  lemma {:induction false} EmptyLog(L: Layout, run: seq<Sys>, steps: seq<Step>, n: nat)
    requires IsRun(L, run, steps) && n < |run| && L.size == 1
    ensures run[n].lh == [] && forall i :: 0 <= i < |run[n].ops| ==> !run[n].ops[i].checked
  {
    hide CommitWrites, RecoveryWrites, Committable, Contents, Cached;
    if n > 0 { EmptyLog(L, run, steps, n - 1); }
  }

  /**
   Operations that keep to their limit can overrun the log on disk exactly if it has at least two
   blocks and at most LOGSIZE: mkfs gives it LOGSIZE, one less than it takes.
   */
  lemma OverrunIff(L: Layout, d: Disk, blocks: seq<uint>)
    requires GoodDisk(L, d) && d[L.start][0] == 0
    requires Distinct(blocks) && |blocks| == L.size && forall i :: 0 <= i < |blocks| ==> L.Home(d, blocks[i])
    ensures (exists run, steps :: BudgetedRun(L, d, run, steps) && !Roomy(L, run[|run| - 1])) <==> 2 <= L.size <= LOGSIZE
  {
    if 2 <= L.size <= LOGSIZE {
      var run, steps := OverrunRun(L, d, blocks);
    } else {
      forall run, steps | BudgetedRun(L, d, run, steps) ensures Roomy(L, run[|run| - 1]) {
        if L.size == 1 { EmptyLog(L, run, steps, |run| - 1); } else { BudgetedRoomy(L, run, steps, |run| - 1); }
      }
    }
  }
}
