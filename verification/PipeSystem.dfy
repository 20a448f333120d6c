/**
 Readers and writers of one pipe, interleaved.  The pipe's lock is held from one sleep to the
 next, so a step is everything a process does between taking the lock and giving it up.
 */
module PipeSystem {
  import opened Base
  import opened Pipe

  /** What a process is doing; `asleep` says it is SLEEPING on nread or nwrite. */
  datatype Proc =
    | Idle
    | Writing(addr: seq<byte>, i: nat, asleep: bool)
    | Reading(n: nat, asleep: bool)

  datatype Sys = Sys(
    pipe: Ring,
    procs: map<nat, Proc>,
    killed: set<nat>,
    accepted: seq<byte>,     // every byte put into the pipe
    delivered: seq<byte>)    // every byte handed to a reader

  datatype Step =
    | StartWrite(p: nat, addr: seq<byte>)
    | ResumeWrite(p: nat)
    | StartRead(p: nat, n: nat)
    | ResumeRead(p: nat)
    | Close(writable: bool)
    | Kill(p: nat)

  /** Wake every process asleep on the reading counter. */
  function WakeReaders(procs: map<nat, Proc>): map<nat, Proc> {
    map p | p in procs :: if procs[p].Reading? then Reading(procs[p].n, false) else procs[p]
  }

  /** Wake every process asleep on the writing counter. */
  function WakeWriters(procs: map<nat, Proc>): map<nat, Proc> {
    map p | p in procs :: if procs[p].Writing? then Writing(procs[p].addr, procs[p].i, false) else procs[p]
  }

  /** pipewrite from byte i on, as process p. */
  function DoWrite(s: Sys, p: nat, addr: seq<byte>, i: nat): Sys
    requires Valid(s.pipe) && i <= |addr|
  {
    var (q, j, e) := WriteRun(s.pipe, addr, i, p in s.killed);
    WriteRunContents(s.pipe, addr, i, p in s.killed);
    var t := s.(pipe := q, accepted := s.accepted + addr[i..j]);
    match e
    case Done => t.(procs := WakeReaders(s.procs)[p := Idle])
    case Fail => t.(procs := s.procs[p := Idle])
    case Sleep => t.(procs := WakeReaders(s.procs)[p := Writing(addr, j, true)])
  }

  /** piperead from its test for an empty pipe on, as process p. */
  function DoRead(s: Sys, p: nat, n: nat): Sys
    requires Valid(s.pipe)
  {
    if Empty(s.pipe) && s.pipe.writeopen then
      s.(procs := s.procs[p := if p in s.killed then Idle else Reading(n, true)])
    else
      var (q, bytes) := ReadRun(s.pipe, n);
      s.(pipe := q, delivered := s.delivered + bytes, procs := WakeWriters(s.procs)[p := Idle])
  }

  ghost predicate Enabled(s: Sys, step: Step) {
    match step
    case StartWrite(p, addr) => p in s.procs && s.procs[p].Idle? && s.pipe.writeopen
    case ResumeWrite(p) => p in s.procs && s.procs[p].Writing? && !s.procs[p].asleep && s.procs[p].i <= |s.procs[p].addr|
    case StartRead(p, n) => p in s.procs && s.procs[p].Idle? && s.pipe.readopen
    case ResumeRead(p) => p in s.procs && s.procs[p].Reading? && !s.procs[p].asleep
    case Close(writable) =>
      // an end is closed when the last file referring to it is, so nobody is in a call on that end
      forall p :: p in s.procs ==> if writable then !s.procs[p].Writing? else !s.procs[p].Reading?
    case Kill(p) => p in s.procs
  }

  function Next(s: Sys, step: Step): Sys
    requires Valid(s.pipe)
    requires step.ResumeWrite? ==> step.p in s.procs && s.procs[step.p].Writing? && s.procs[step.p].i <= |s.procs[step.p].addr|
    requires step.ResumeRead? ==> step.p in s.procs && s.procs[step.p].Reading?
    requires step.Kill? ==> step.p in s.procs
  {
    match step
    case StartWrite(p, addr) => DoWrite(s, p, addr, 0)
    case ResumeWrite(p) => DoWrite(s, p, s.procs[p].addr, s.procs[p].i)
    case StartRead(p, n) => DoRead(s, p, n)
    case ResumeRead(p) => DoRead(s, p, s.procs[p].n)
    case Close(writable) =>
      if writable then s.(pipe := s.pipe.(writeopen := false), procs := WakeReaders(s.procs))
      else s.(pipe := s.pipe.(readopen := false), procs := WakeWriters(s.procs))
    case Kill(p) =>
      s.(killed := s.killed + {p},
         procs := s.procs[p := match s.procs[p]
                               case Idle => Idle
                               case Writing(addr, i, _) => Writing(addr, i, false)
                               case Reading(n, _) => Reading(n, false)])
  }

  /** A pipe as pipealloc leaves it; the counters may start anywhere. */
  ghost predicate Init(s: Sys) {
    && Valid(s.pipe) && s.pipe.nread == s.pipe.nwrite && s.pipe.readopen && s.pipe.writeopen
    && s.accepted == [] && s.delivered == [] && s.killed == {}
    && forall p :: p in s.procs ==> s.procs[p].Idle?
  }

  ghost predicate IsRun(run: seq<Sys>, steps: seq<Step>) {
    && |run| == |steps| + 1
    && Init(run[0])
    && forall i :: 0 <= i < |steps| ==> Valid(run[i].pipe) && Enabled(run[i], steps[i]) && run[i + 1] == Next(run[i], steps[i])
  }

  ghost predicate BytesInv(s: Sys) {
    Valid(s.pipe) && s.accepted == s.delivered + Contents(s.pipe)
  }

  predicate WritersInv(s: Sys) {
    forall p :: p in s.procs && s.procs[p].Writing? ==>
      s.procs[p].i <= |s.procs[p].addr| && (s.procs[p].asleep ==> Full(s.pipe) && s.pipe.readopen)
  }

  predicate ReadersInv(s: Sys) {
    forall p :: p in s.procs && s.procs[p].Reading? ==>
      s.pipe.readopen && (s.procs[p].asleep ==> s.pipe.writeopen)
  }

  ghost predicate Inv(s: Sys) {
    BytesInv(s) && WritersInv(s) && ReadersInv(s)
  }

  lemma WriteInv(s: Sys, p: nat, addr: seq<byte>, i: nat)
    requires Inv(s) && i <= |addr|
    ensures Inv(DoWrite(s, p, addr, i))
  {
    WriteRunContents(s.pipe, addr, i, p in s.killed);
    var (q, j, e) := WriteRun(s.pipe, addr, i, p in s.killed);
    var t := DoWrite(s, p, addr, i);
    if j == i {
      WriteRunIdle(s.pipe, addr, i, p in s.killed);
    }
    assert s.delivered + Contents(s.pipe) + addr[i..j] == s.delivered + (Contents(s.pipe) + addr[i..j]);
  }

  /** A stretch that writes nothing leaves the pipe as it was. */
  lemma WriteRunIdle(p: Ring, addr: seq<byte>, i: nat, killed: bool)
    requires Valid(p) && i <= |addr| && WriteRun(p, addr, i, killed).1 == i
    ensures WriteRun(p, addr, i, killed).0 == p
  {
    if i < |addr| && !Full(p) {
      PushContents(p, addr[i]);
      WriteRunContents(Push(p, addr[i]), addr, i + 1, killed);
    }
  }

  lemma ReadInv(s: Sys, p: nat, n: nat)
    requires Inv(s) && s.pipe.readopen
    ensures Inv(DoRead(s, p, n))
  {
    hide Contents, ReadRun, Used;
    ReadRunContents(s.pipe, n);
    var (q, bytes) := ReadRun(s.pipe, n);
    assert s.delivered + bytes + Contents(q) == s.delivered + (bytes + Contents(q));
  }

  lemma StepInv(s: Sys, step: Step)
    requires Inv(s) && Enabled(s, step)
    ensures Inv(Next(s, step))
  {
    match step
    case StartWrite(p, addr) => WriteInv(s, p, addr, 0);
    case ResumeWrite(p) => WriteInv(s, p, s.procs[p].addr, s.procs[p].i);
    case StartRead(p, n) => ReadInv(s, p, n);
    case ResumeRead(p) => ReadInv(s, p, s.procs[p].n);
    case Close(writable) =>
    case Kill(p) =>
  }

  lemma {:induction false} RunInv(run: seq<Sys>, steps: seq<Step>, n: nat)
    requires IsRun(run, steps) && n < |run|
    ensures Inv(run[n])
  {
    if n > 0 {
      RunInv(run, steps, n - 1);
      StepInv(run[n - 1], steps[n - 1]);
    }
  }

  /** In every run the bytes delivered are a prefix of the bytes accepted, at most PIPESIZE behind. */
  lemma BytesInOrder(run: seq<Sys>, steps: seq<Step>, n: nat)
    requires IsRun(run, steps) && n < |run|
    ensures run[n].delivered <= run[n].accepted
    ensures |run[n].accepted| - |run[n].delivered| == Used(run[n].pipe) <= PIPESIZE
  {
    RunInv(run, steps, n);
  }

  // ---------------------------------------------------------------- readers asleep beside bytes

  predicate ReaderAsleep(s: Sys, p: nat) {
    p in s.procs && s.procs[p].Reading? && s.procs[p].asleep
  }

  /** Some reader sleeps although there is something to read. */
  predicate Stranded(s: Sys) {
    !Empty(s.pipe) && exists p :: p in s.procs && ReaderAsleep(s, p)
  }

  /** Process p, killed, is to write more bytes than there is room for, while a reader sleeps. */
  predicate KilledOverflow(s: Sys, p: nat, bytes: nat) {
    p in s.killed && bytes > PIPESIZE - Used(s.pipe) && exists r :: r in s.procs && ReaderAsleep(s, r)
  }

  /** The same of a step, before it is taken. */
  predicate Strands(s: Sys, step: Step) {
    match step
    case StartWrite(p, addr) => KilledOverflow(s, p, |addr|)
    case ResumeWrite(p) =>
      && p in s.procs && s.procs[p].Writing? && s.procs[p].i <= |s.procs[p].addr|
      && KilledOverflow(s, p, |s.procs[p].addr| - s.procs[p].i)
    case _ => false
  }

  /** A stretch of pipewrite comes to its end exactly if there is room for all that is left. */
  lemma WriteRunFits(p: Ring, addr: seq<byte>, i: nat, killed: bool)
    requires Valid(p) && i <= |addr|
    ensures WriteRun(p, addr, i, killed).2 == Done <==> |addr| - i <= PIPESIZE - Used(p)
    ensures WriteRun(p, addr, i, killed).2 == Done && i < |addr| ==> !Empty(WriteRun(p, addr, i, killed).0)
  {
    WriteRunContents(p, addr, i, killed);
    var (q, j, e) := WriteRun(p, addr, i, killed);
    assert |Contents(q)| == |Contents(p)| + (j - i);
    FullOrEmpty(q);
  }

  /** After a write a reader is stranded exactly if the writer was killed and had too much to write. */
  lemma WriteStrandsIff(s: Sys, p: nat, addr: seq<byte>, i: nat)
    requires Inv(s) && i <= |addr| && p in s.procs && !s.procs[p].Reading?
    ensures KilledOverflow(s, p, |addr| - i) ==> Stranded(DoWrite(s, p, addr, i))
    ensures !Stranded(s) && Stranded(DoWrite(s, p, addr, i)) ==> KilledOverflow(s, p, |addr| - i)
  {
    WriteRunContents(s.pipe, addr, i, p in s.killed);
    WriteRunFits(s.pipe, addr, i, p in s.killed);
    var (q, j, e) := WriteRun(s.pipe, addr, i, p in s.killed);
    var t := DoWrite(s, p, addr, i);
    FullOrEmpty(q);
    if r :| r in s.procs && ReaderAsleep(s, r) {
      assert s.pipe.readopen;
      assert e == Fail ==> ReaderAsleep(t, r);
    }
    if r :| r in t.procs && ReaderAsleep(t, r) {
      assert e == Fail && ReaderAsleep(s, r);
    }
  }

  /** Reading, closing and killing strand nobody. */
  lemma ReadStrandsNone(s: Sys, p: nat, n: nat)
    requires Inv(s) && !Stranded(s)
    ensures !Stranded(DoRead(s, p, n))
  {
    ReadRunContents(s.pipe, n);
    var t := DoRead(s, p, n);
    if r :| r in t.procs && ReaderAsleep(t, r) {
      assert r != p ==> ReaderAsleep(s, r);
      FullOrEmpty(s.pipe);
      FullOrEmpty(t.pipe);
      assert |Contents(t.pipe)| <= |Contents(s.pipe)|;
    }
  }

  /** A step that meets the guard strands a reader, and nothing else does. */
  lemma StepStrandsIff(s: Sys, step: Step)
    requires Inv(s) && Enabled(s, step)
    ensures Strands(s, step) ==> Stranded(Next(s, step))
    ensures !Stranded(s) ==> (Stranded(Next(s, step)) <==> Strands(s, step))
  {
    var t := Next(s, step);
    match step
    case StartWrite(p, addr) => WriteStrandsIff(s, p, addr, 0);
    case ResumeWrite(p) => WriteStrandsIff(s, p, s.procs[p].addr, s.procs[p].i);
    case StartRead(p, n) => if !Stranded(s) { ReadStrandsNone(s, p, n); }
    case ResumeRead(p) => if !Stranded(s) { ReadStrandsNone(s, p, s.procs[p].n); }
    case _ => assert forall r :: r in t.procs && ReaderAsleep(t, r) ==> ReaderAsleep(s, r);
  }

  /**
   In every run, with the lock free, a writer sleeps only on a full pipe that someone can still
   read, and a reader only on a pipe that someone can still write.  The pipe a reader sleeps on is
   empty if no step so far was a killed writer's with more to write than there was room for.
   */
  lemma {:induction false} SleepersHaveReason(run: seq<Sys>, steps: seq<Step>, n: nat, p: nat)
    requires IsRun(run, steps) && n < |run| && p in run[n].procs
    ensures run[n].procs[p].Writing? && run[n].procs[p].asleep ==> Full(run[n].pipe) && run[n].pipe.readopen
    ensures run[n].procs[p].Reading? && run[n].procs[p].asleep ==> run[n].pipe.writeopen
    ensures run[n].procs[p].Reading? && run[n].procs[p].asleep && (forall k :: 0 <= k < n ==> !Strands(run[k], steps[k])) ==>
              Empty(run[n].pipe)
  {
    RunInv(run, steps, n);
    if forall k :: 0 <= k < n ==> !Strands(run[k], steps[k]) {
      NeverStranded(run, steps, n);
      assert ReaderAsleep(run[n], p) ==> Empty(run[n].pipe);
    }
  }

  lemma {:induction false} NeverStranded(run: seq<Sys>, steps: seq<Step>, n: nat)
    requires IsRun(run, steps) && n < |run|
    requires forall k :: 0 <= k < n ==> !Strands(run[k], steps[k])
    ensures !Stranded(run[n])
  {
    if n > 0 {
      NeverStranded(run, steps, n - 1);
      RunInv(run, steps, n - 1);
      StepStrandsIff(run[n - 1], steps[n - 1]);
    }
  }

  /**
   A run has a state with a reader asleep beside bytes exactly if one of its steps was a killed
   writer's with more to write than there was room for, taken while a reader slept.
   */
  lemma StrandedIff(run: seq<Sys>, steps: seq<Step>)
    requires IsRun(run, steps)
    ensures (exists n :: 0 <= n < |run| && Stranded(run[n])) <==> (exists k :: 0 <= k < |steps| && Strands(run[k], steps[k]))
  {
    if k :| 0 <= k < |steps| && Strands(run[k], steps[k]) {
      RunInv(run, steps, k);
      StepStrandsIff(run[k], steps[k]);
      assert Stranded(run[k + 1]);
    } else {
      forall n | 0 <= n < |run| ensures !Stranded(run[n]) {
        NeverStranded(run, steps, n);
      }
    }
  }

  /**
   Such runs exist: a killed writer that fills the pipe returns -1 without waking anybody, so
   a reader is left asleep on a full pipe.
   */
  lemma StrandedReader(pipe: Ring, addr: seq<byte>) returns (run: seq<Sys>, steps: seq<Step>)
    requires Valid(pipe) && pipe.nread == pipe.nwrite && pipe.readopen && pipe.writeopen
    requires |addr| > PIPESIZE
    ensures IsRun(run, steps)
    ensures ReaderAsleep(run[|run| - 1], 0) && Full(run[|run| - 1].pipe) && Stranded(run[|run| - 1])
  {
    var s0 := Sys(pipe, map[0 := Idle, 1 := Idle], {}, [], []);
    var s1 := Next(s0, StartRead(0, 1));
    var s2 := Next(s1, Kill(1));
    var s3 := Next(s2, StartWrite(1, addr));
    WriteRunContents(pipe, addr, 0, true);
    var (q, j, e) := WriteRun(pipe, addr, 0, true);
    FullOrEmpty(pipe);
    assert |Contents(q)| <= PIPESIZE;
    FullOrEmpty(q);
    assert ReaderAsleep(s3, 0);
    run, steps := [s0, s1, s2, s3], [StartRead(0, 1), Kill(1), StartWrite(1, addr)];
  }
}
