/** What each call on a pipe has moved so far, over whole runs of readers and writers. */
module PipeCalls {
  import opened Base
  import opened Pipe
  import opened PipeSystem

  predicate WritesAs(step: Step, p: nat) { (step.StartWrite? || step.ResumeWrite?) && step.p == p }

  predicate ReadsAs(step: Step, p: nat) { (step.StartRead? || step.ResumeRead?) && step.p == p }

  /** What is in t after what is in s. */
  function Added(s: seq<byte>, t: seq<byte>): seq<byte> {
    if |s| <= |t| then t[|s|..] else []
  }

  lemma AddedIs(s: seq<byte>, bytes: seq<byte>)
    ensures Added(s, s + bytes) == bytes
  {
  }

  /** The bytes that process p put into the pipe from step i up to step n. */
  function Sent(run: seq<Sys>, steps: seq<Step>, i: nat, n: nat, p: nat): seq<byte>
    requires i <= n < |run| == |steps| + 1
    decreases n
  {
    if n == i then []
    else Sent(run, steps, i, n - 1, p) + if WritesAs(steps[n - 1], p) then Added(run[n - 1].accepted, run[n].accepted) else []
  }

  /** The bytes that process p took out of the pipe from step i up to step n. */
  function Got(run: seq<Sys>, steps: seq<Step>, i: nat, n: nat, p: nat): seq<byte>
    requires i <= n < |run| == |steps| + 1
    decreases n
  {
    if n == i then []
    else Got(run, steps, i, n - 1, p) + if ReadsAs(steps[n - 1], p) then Added(run[n - 1].delivered, run[n].delivered) else []
  }

  // ---------------------------------------------------------------- writing

  /** p's call to write addr has sent these bytes; it ends short only if p is killed or nobody can read. */
  predicate Writes(s: Sys, p: nat, addr: seq<byte>, sent: seq<byte>) {
    && p in s.procs
    && (if s.procs[p].Writing? then
          s.procs[p].addr == addr && s.procs[p].i <= |addr| && sent == addr[..s.procs[p].i]
        else
          sent <= addr && (sent == addr || p in s.killed || !s.pipe.readopen))
  }

  /** One stretch of pipewrite. */
  lemma StretchWrites(s: Sys, p: nat, addr: seq<byte>, i: nat)
    requires Valid(s.pipe) && i <= |addr| && p in s.procs
    ensures var t := DoWrite(s, p, addr, i);
            s.accepted <= t.accepted && Writes(t, p, addr, addr[..i] + Added(s.accepted, t.accepted))
  {
    WriteRunContents(s.pipe, addr, i, p in s.killed);
    var (q, j, e) := WriteRun(s.pipe, addr, i, p in s.killed);
    AddedIs(s.accepted, addr[i..j]);
    assert addr[..i] + addr[i..j] == addr[..j];
  }

  /** A step of somebody else, or a kill, leaves the call where it was. */
  lemma OtherStepWrites(s: Sys, step: Step, p: nat, addr: seq<byte>, sent: seq<byte>)
    requires Inv(s) && Enabled(s, step) && !WritesAs(step, p) && Writes(s, p, addr, sent)
    ensures Writes(Next(s, step), p, addr, sent)
  {
    hide ReadersInv, Contents, ReadRun, WriteRun;
    match step
    case StartWrite(q, a) => WriteRunContents(s.pipe, a, 0, q in s.killed);
    case ResumeWrite(q) => WriteRunContents(s.pipe, s.procs[q].addr, s.procs[q].i, q in s.killed);
    case StartRead(q, n) => ReadRunContents(s.pipe, n);
    case ResumeRead(q) => ReadRunContents(s.pipe, s.procs[q].n);
    case _ =>
  }

  /** Nothing but a write puts bytes into the pipe. */
  lemma OnlyWritesAccept(s: Sys, step: Step)
    requires Inv(s) && Enabled(s, step)
    ensures s.accepted <= Next(s, step).accepted
    ensures !step.StartWrite? && !step.ResumeWrite? ==> Next(s, step).accepted == s.accepted
  {
    hide Contents, ReadRun, WriteRun;
  }

  /**
   In every run a call to write has put exactly addr[..i] into the pipe, each byte once and in order,
   while it is at byte i.  A call that has ended has put in all of addr, unless its process is killed
   or nobody can read any more; then it is a first part.
   */
  lemma {:induction false} WriterSends(run: seq<Sys>, steps: seq<Step>, i: nat, n: nat, p: nat, addr: seq<byte>)
    requires IsRun(run, steps) && i < n < |run| && steps[i] == StartWrite(p, addr)
    requires forall l :: i < l < n ==> !(steps[l].StartWrite? && steps[l].p == p)
    ensures p in run[n].procs && Sent(run, steps, i, n, p) <= addr
    ensures run[n].procs[p].Writing? ==>
              run[n].procs[p].addr == addr && run[n].procs[p].i == |Sent(run, steps, i, n, p)|
    ensures !run[n].procs[p].Writing? && p !in run[n].killed && run[n].pipe.readopen ==> Sent(run, steps, i, n, p) == addr
  {
    RunWrites(run, steps, i, n, p, addr);
  }

  lemma {:induction false} RunWrites(run: seq<Sys>, steps: seq<Step>, i: nat, n: nat, p: nat, addr: seq<byte>)
    requires IsRun(run, steps) && i < n < |run| && steps[i] == StartWrite(p, addr)
    requires forall l :: i < l < n ==> !(steps[l].StartWrite? && steps[l].p == p)
    ensures Writes(run[n], p, addr, Sent(run, steps, i, n, p))
    decreases n
  {
    hide Inv, Init, Writes, Next, Enabled;
    var s, step := run[n - 1], steps[n - 1];
    RunInv(run, steps, n - 1);
    if n == i + 1 {
      StartsWriting(s, p, addr);
      assert Sent(run, steps, i, n, p) == [] + Added(s.accepted, run[n].accepted);
    } else {
      RunWrites(run, steps, i, n - 1, p, addr);
      if WritesAs(step, p) {
        GoesOnWriting(s, p, addr, Sent(run, steps, i, n - 1, p));
      } else {
        OtherStepWrites(s, step, p, addr, Sent(run, steps, i, n - 1, p));
        assert Sent(run, steps, i, n, p) == Sent(run, steps, i, n - 1, p);
      }
    }
  }

  lemma StartsWriting(s: Sys, p: nat, addr: seq<byte>)
    requires Inv(s) && Enabled(s, StartWrite(p, addr))
    ensures var t := Next(s, StartWrite(p, addr)); Writes(t, p, addr, [] + Added(s.accepted, t.accepted))
  {
    StretchWrites(s, p, addr, 0);
    assert addr[..0] == [];
  }

  lemma GoesOnWriting(s: Sys, p: nat, addr: seq<byte>, sent: seq<byte>)
    requires Inv(s) && Enabled(s, ResumeWrite(p)) && Writes(s, p, addr, sent)
    ensures var t := Next(s, ResumeWrite(p)); Writes(t, p, addr, sent + Added(s.accepted, t.accepted))
  {
    StretchWrites(s, p, addr, s.procs[p].i);
  }

  // ---------------------------------------------------------------- reading

  /** The bytes a read of n bytes takes from a pipe. */
  function Front(c: seq<byte>, n: nat): seq<byte> {
    if n < |c| then c[..n] else c
  }

  /** One stretch of piperead: it waits, or takes what there is, and comes back empty-handed only at the end or when killed. */
  lemma StretchReads(s: Sys, p: nat, n: nat)
    requires Valid(s.pipe) && p in s.procs
    ensures var t, got := DoRead(s, p, n), Added(s.delivered, DoRead(s, p, n).delivered);
            && p in t.procs
            && (if t.procs[p].Reading? then t.procs[p].n == n && got == []
                else Front(Contents(s.pipe), n) == got && (got == [] && n > 0 ==> !s.pipe.writeopen || p in s.killed))
  {
    ReadRunContents(s.pipe, n);
    FullOrEmpty(s.pipe);
    AddedIs(s.delivered, []);
    AddedIs(s.delivered, ReadRun(s.pipe, n).1);
    var (q, bytes) := ReadRun(s.pipe, n);
    assert bytes == Contents(s.pipe)[..|bytes|];
  }

  lemma OtherStepReads(s: Sys, step: Step, p: nat)
    requires Inv(s) && Enabled(s, step) && !ReadsAs(step, p) && p in s.procs
    ensures p in Next(s, step).procs
    ensures s.procs[p].Reading? ==> Next(s, step).procs[p].Reading? && Next(s, step).procs[p].n == s.procs[p].n
    ensures !s.procs[p].Reading? ==> !Next(s, step).procs[p].Reading?
  {
    hide Contents, ReadRun, WriteRun;
  }

  /** The call of p that began at step i ended at step m with these bytes. */
  predicate ReadEnds(run: seq<Sys>, steps: seq<Step>, m: nat, p: nat, want: nat, got: seq<byte>) {
    && m < |steps| && m < |run| && ReadsAs(steps[m], p) && Valid(run[m].pipe) && got == Front(Contents(run[m].pipe), want)
    && (got == [] && want > 0 ==> !run[m].pipe.writeopen || p in run[m].killed)
  }

  /**
   In every run a call to read takes nothing while it waits.  When it has ended it has taken, at one
   step, the oldest bytes in the pipe, as many as it wanted or all there were; none only if it wanted
   none, nobody can write any more, or its process was killed.
   */
  lemma {:induction false} ReaderGets(run: seq<Sys>, steps: seq<Step>, i: nat, n: nat, p: nat, want: nat)
    requires IsRun(run, steps) && i < n < |run| && steps[i] == StartRead(p, want)
    requires forall l :: i < l < n ==> !(steps[l].StartRead? && steps[l].p == p)
    ensures p in run[n].procs
    ensures run[n].procs[p].Reading? ==> run[n].procs[p].n == want && Got(run, steps, i, n, p) == []
    ensures !run[n].procs[p].Reading? ==> exists m :: i <= m < n && ReadEnds(run, steps, m, p, want, Got(run, steps, i, n, p))
    decreases n
  {
    hide Inv, Init, Next, Enabled, ReadEnds, Contents;
    var s, step := run[n - 1], steps[n - 1];
    RunInv(run, steps, n - 1);
    if n == i + 1 {
      ReadStep(run, steps, i, n - 1, p, want);
    } else {
      ReaderGets(run, steps, i, n - 1, p, want);
      if ReadsAs(step, p) {
        ResumesReading(s, p);
        ReadStep(run, steps, i, n - 1, p, want);
      } else {
        OtherStepReads(s, step, p);
        assert Got(run, steps, i, n, p) == Got(run, steps, i, n - 1, p);
      }
    }
  }

  lemma ResumesReading(s: Sys, p: nat)
    requires Enabled(s, ResumeRead(p))
    ensures p in s.procs && s.procs[p].Reading?
  {
  }

  /** A stretch of the call, before which it had taken nothing. */
  lemma ReadStep(run: seq<Sys>, steps: seq<Step>, i: nat, m: nat, p: nat, want: nat)
    requires IsRun(run, steps) && i <= m < |steps| && Inv(run[m]) && Got(run, steps, i, m, p) == []
    requires steps[m] == StartRead(p, want) || (steps[m] == ResumeRead(p) && p in run[m].procs && run[m].procs[p].Reading? && run[m].procs[p].n == want)
    ensures p in run[m + 1].procs
    ensures run[m + 1].procs[p].Reading? ==> run[m + 1].procs[p].n == want && Got(run, steps, i, m + 1, p) == []
    ensures !run[m + 1].procs[p].Reading? ==> ReadEnds(run, steps, m, p, want, Got(run, steps, i, m + 1, p))
  {
    hide Contents, ReadRun, Init;
    assert Enabled(run[m], steps[m]) && run[m + 1] == DoRead(run[m], p, want);
    StretchReads(run[m], p, want);
    assert Got(run, steps, i, m + 1, p) == [] + Added(run[m].delivered, run[m + 1].delivered);
  }

  // ---------------------------------------------------------------- killed processes

  predicate KilledAwake(s: Sys) {
    forall p :: p in s.procs && p in s.killed && !s.procs[p].Idle? ==> !s.procs[p].asleep
  }

  lemma StepKilledAwake(s: Sys, step: Step)
    requires Inv(s) && Enabled(s, step) && KilledAwake(s)
    ensures KilledAwake(Next(s, step))
  {
    hide Contents, ReadRun, WriteRun;
    match step
    case StartWrite(q, a) => WriteRunContents(s.pipe, a, 0, q in s.killed);
    case ResumeWrite(q) => WriteRunContents(s.pipe, s.procs[q].addr, s.procs[q].i, q in s.killed);
    case _ =>
  }

  /** In every run a killed process is not asleep in a call on the pipe. */
  lemma {:induction false} KilledDontSleep(run: seq<Sys>, steps: seq<Step>, n: nat, p: nat)
    requires IsRun(run, steps) && n < |run| && p in run[n].procs && p in run[n].killed && !run[n].procs[p].Idle?
    ensures !run[n].procs[p].asleep
  {
    RunKilledAwake(run, steps, n);
  }

  lemma {:induction false} RunKilledAwake(run: seq<Sys>, steps: seq<Step>, n: nat)
    requires IsRun(run, steps) && n < |run|
    ensures KilledAwake(run[n])
  {
    if n > 0 {
      RunKilledAwake(run, steps, n - 1);
      RunInv(run, steps, n - 1);
      hide Inv, KilledAwake, Next, Enabled, Init;
      StepKilledAwake(run[n - 1], steps[n - 1]);
    }
  }

  /** In every run a process in a call on the pipe that is not asleep can go on with it. */
  lemma AwakeGoesOn(run: seq<Sys>, steps: seq<Step>, n: nat, p: nat)
    requires IsRun(run, steps) && n < |run| && p in run[n].procs && !run[n].procs[p].Idle? && !run[n].procs[p].asleep
    ensures Enabled(run[n], if run[n].procs[p].Writing? then ResumeWrite(p) else ResumeRead(p))
  {
    RunInv(run, steps, n);
  }
}
