/** What the buffer cache shows of the disk: every reader gets what was last put into the block (bio.c). */
module BufferView {
  import opened Base
  import opened BufferRing
  import opened BufferCache
  import opened BufferRuns

  /** Buffer b has the bytes of the block. */
  predicate CachedIn(c: Cache, b: nat, blockno: nat) {
    b < |c.bufs| && c.bufs[b].valid && Matches(c.bufs[b], 1, blockno)
  }

  /** The latest contents of a block: those of the buffer that has it, else those on disk. */
  ghost function Latest(c: Cache, blockno: nat): Block
    requires blockno < |c.disk|
  {
    if exists b: nat :: CachedIn(c, b, blockno) then var b: nat :| CachedIn(c, b, blockno); c.bufs[b].data else c.disk[blockno]
  }

  lemma LatestIn(c: Cache, b: nat, blockno: nat)
    requires Unique(c) && blockno < |c.disk| && CachedIn(c, b, blockno)
    ensures Latest(c, blockno) == c.bufs[b].data
  {
    forall a: nat | CachedIn(c, a, blockno) ensures a == b {
      SameBlock(c, a, b, blockno);
    }
  }

  lemma LatestOut(c: Cache, blockno: nat)
    requires blockno < |c.disk| && forall b: nat :: !CachedIn(c, b, blockno)
    ensures Latest(c, blockno) == c.disk[blockno]
  {
  }

  /** Two caches that show the same block the same way. */
  lemma LatestSame(c: Cache, d: Cache, blockno: nat)
    requires Unique(c) && Unique(d) && blockno < |c.disk| == |d.disk| && |c.bufs| == |d.bufs|
    requires forall b :: 0 <= b < |c.bufs| ==> (CachedIn(d, b, blockno) <==> CachedIn(c, b, blockno))
    requires forall b :: 0 <= b < |c.bufs| && CachedIn(c, b, blockno) ==> d.bufs[b].data == c.bufs[b].data
    requires (forall b: nat :: !CachedIn(c, b, blockno)) ==> d.disk[blockno] == c.disk[blockno]
    ensures Latest(d, blockno) == Latest(c, blockno)
  {
    if b: nat :| CachedIn(c, b, blockno) {
      LatestIn(c, b, blockno);
      LatestIn(d, b, blockno);
    } else {
      LatestOut(c, blockno);
      LatestOut(d, blockno);
    }
  }

  /** The step puts new bytes into the block. */
  predicate Changes(s: Sys, a: Step, blockno: nat) {
    a.Modify? && Holds(s, a.t) && Matches(s.c.bufs[s.refs[a.t].b], 1, blockno)
  }

  /** A buffer that may be recycled has nothing that is not on disk. */
  lemma VictimClean(s: Sys, b: nat)
    requires Inv(s) && b < NBUF && Victim(s.c.bufs[b]) && s.c.bufs[b].valid
    ensures s.c.bufs[b].blockno < |s.c.disk| && s.c.bufs[b].data == s.c.disk[s.c.bufs[b].blockno]
  {
    hide Unique, Led;
    assert CountedAt(s, b) && CleanAt(s, b);
    NoRefs(s.refs, b);
  }

  lemma RecycleLatest(s: Sys, a: Step, blockno: nat)
    requires Inv(s) && Enabled(s, a) && a.Recycle? && blockno < |s.c.disk| && Unique(Next(s, a).c)
    ensures |Next(s, a).c.disk| == |s.c.disk| && Latest(Next(s, a).c, blockno) == Latest(s.c, blockno)
  {
    hide Led, Oldest, CountedAt, CleanAt, RefOk;
    var c, d := s.c, Next(s, a).c;
    assert a.b < NBUF && Victim(c.bufs[a.b]) by { OldestIs(c, a.b); }
    hide Shaped, Unique;
    if CachedIn(c, a.b, blockno) {
      VictimClean(s, a.b);
      LatestIn(c, a.b, blockno);
      forall b: nat ensures !CachedIn(d, b, blockno) {
        if CachedIn(d, b, blockno) { SameBlock(c, a.b, b, blockno); }
      }
      LatestOut(d, blockno);
    } else {
      LatestSame(c, d, blockno);
    }
  }

  lemma OldestIs(c: Cache, b: nat)
    requires Shaped(c) && Oldest(c, b)
    ensures b < NBUF && Victim(c.bufs[b])
  {
  }

  lemma OtherBlock(c: Cache, a: nat, b: nat, blockno: nat)
    requires Unique(c) && a < |c.bufs| && b < |c.bufs| && a != b && Matches(c.bufs[a], 1, blockno)
    ensures !Matches(c.bufs[b], 1, blockno)
  {
    assert Differ(c, a, b);
  }

  lemma SameBlock(c: Cache, a: nat, b: nat, blockno: nat)
    requires Unique(c) && a < |c.bufs| && b < |c.bufs| && Matches(c.bufs[a], 1, blockno) && Matches(c.bufs[b], 1, blockno)
    ensures a == b
  {
    if a != b { OtherBlock(c, a, b, blockno); }
  }

  /** A transfer between a buffer and its block shows no difference. */
  lemma SyncLatest(c: Cache, x: nat, blockno: nat)
    requires x < |c.bufs| && !Refused(c, x) && (c.bufs[x].dirty ==> c.bufs[x].valid)
    requires Unique(c) && Unique(Synced(c, x)) && blockno < |c.disk|
    ensures |Synced(c, x).disk| == |c.disk| && Latest(Synced(c, x), blockno) == Latest(c, blockno)
    ensures CachedIn(Synced(c, x), x, c.bufs[x].blockno)
  {
    var d := Synced(c, x);
    hide Unique;
    if Matches(c.bufs[x], 1, blockno) && !c.bufs[x].valid {
      forall b: nat ensures !CachedIn(c, b, blockno) {
        if CachedIn(c, b, blockno) { SameBlock(c, x, b, blockno); }
      }
      LatestOut(c, blockno);
      LatestIn(d, x, blockno);
    } else {
      assert c.bufs[x].dirty && c.bufs[x].blockno == blockno ==> CachedIn(c, x, blockno);
      LatestSame(c, d, blockno);
    }
  }

  /** Taking and dropping references, locking, unlocking and marking dirty do not touch bytes. */
  lemma QuietLatest(s: Sys, a: Step, blockno: nat)
    requires Inv(s) && Enabled(s, a) && blockno < |s.c.disk| && Unique(Next(s, a).c)
    requires a.Hit? || a.Lock? || a.LogWrite? || a.Unlock? || a.Drop?
    ensures |Next(s, a).c.disk| == |s.c.disk| && Latest(Next(s, a).c, blockno) == Latest(s.c, blockno)
  {
    hide Shaped, Led, Unique, CountedAt, CleanAt, RefOk, Front, Position;
    LatestSame(s.c, Next(s, a).c, blockno);
  }

  /** Every step but a change of the block's bytes leaves its latest contents alone. */
  lemma StepLatest(s: Sys, a: Step, blockno: nat)
    requires Inv(s) && Enabled(s, a) && blockno < |s.c.disk|
    ensures |Next(s, a).c.disk| == |s.c.disk|
    ensures Latest(Next(s, a).c, blockno) == if Changes(s, a, blockno) then a.data else Latest(s.c, blockno)
  {
    StepInv(s, a);
    hide Shaped, Led, Unique, CountedAt, CleanAt, RefOk, Latest, CachedIn, Synced;
    match a
    case Recycle(_, _, _, _) => RecycleLatest(s, a, blockno);
    case Read(t) =>
      HoldsClean(s, t);
      SyncLatest(s.c, s.refs[t].b, blockno);
    case Write(t) => WriteLatest(s, t, blockno);
    case Modify(t, _) => ModifyLatest(s, a, blockno);
    case _ => QuietLatest(s, a, blockno);
  }

  lemma WriteLatest(s: Sys, t: nat, blockno: nat)
    requires Inv(s) && Enabled(s, Write(t)) && blockno < |s.c.disk| && Unique(Next(s, Write(t)).c)
    ensures |Next(s, Write(t)).c.disk| == |s.c.disk| && Latest(Next(s, Write(t)).c, blockno) == Latest(s.c, blockno)
  {
    hide Shaped, Led, Unique, CountedAt, CleanAt, RefOk, Synced;
    var c, b := s.c, s.refs[t].b;
    HoldsClean(s, t);
    DirtiedUnique(c, b);
    LatestSame(c, Dirtied(c, b), blockno);
    hide CachedIn;
    SyncLatest(Dirtied(c, b), b, blockno);
  }

  lemma ModifyLatest(s: Sys, a: Step, blockno: nat)
    requires Inv(s) && Enabled(s, a) && a.Modify? && blockno < |s.c.disk| && Unique(Next(s, a).c)
    ensures |Next(s, a).c.disk| == |s.c.disk|
    ensures Latest(Next(s, a).c, blockno) == if Changes(s, a, blockno) then a.data else Latest(s.c, blockno)
  {
    hide Shaped, Led, Unique, CountedAt, CleanAt, RefOk;
    if Changes(s, a, blockno) { LatestIn(Next(s, a).c, s.refs[a.t].b, blockno); } else { LatestSame(s.c, Next(s, a).c, blockno); }
  }

  lemma HoldsClean(s: Sys, t: nat)
    requires Inv(s) && Holds(s, t)
    ensures s.refs[t].b < NBUF && (s.c.bufs[s.refs[t].b].dirty ==> s.c.bufs[s.refs[t].b].valid)
  {
    assert CleanAt(s, s.refs[t].b);
  }

  lemma DirtiedUnique(c: Cache, b: nat)
    requires Unique(c) && b < |c.bufs|
    ensures Unique(Dirtied(c, b))
  {
    var d := Dirtied(c, b);
    forall x, y | 0 <= x < |d.bufs| && 0 <= y < |d.bufs| && x != y ensures Differ(d, x, y) {
      assert Differ(c, x, y);
    }
  }

  // ---------------------------------------------------------------- whole runs

  /** What the changes of a run leave in the block, if it held x before. */
  function Put(s: Sys, run: seq<Step>, blockno: nat, x: Block): Block
    requires IsRun(s, run)
    decreases |run|
  {
    if run == [] then x
    else Put(Next(s, run[0]), run[1..], blockno, if Changes(s, run[0], blockno) then run[0].data else x)
  }

  lemma {:induction false} RunLatest(s: Sys, run: seq<Step>, blockno: nat)
    requires Inv(s) && IsRun(s, run) && blockno < |s.c.disk|
    ensures |Final(s, run).c.disk| == |s.c.disk|
    ensures Latest(Final(s, run).c, blockno) == Put(s, run, blockno, Latest(s.c, blockno))
    decreases |run|
  {
    hide Inv, Enabled, Next, Changes, Latest;
    if run != [] {
      StepInv(s, run[0]);
      StepLatest(s, run[0], blockno);
      RunLatest(Next(s, run[0]), run[1..], blockno);
    }
  }

  /**
   In every run a user who holds a valid buffer sees the bytes last put into its block by anybody, and
   the disk's at the start if nobody did.
   */
  lemma HoldersSeeLatest(image: seq<Block>, run: seq<Step>, t: nat)
    requires IsRun(Init(image), run)
    ensures var s := Final(Init(image), run);
            Holds(s, t) && s.c.bufs[s.refs[t].b].valid ==>
              && s.c.bufs[s.refs[t].b].dev == 1 && s.c.bufs[s.refs[t].b].blockno < |image|
              && s.c.bufs[s.refs[t].b].data == Put(Init(image), run, s.c.bufs[s.refs[t].b].blockno, image[s.c.bufs[s.refs[t].b].blockno])
  {
    var s := Final(Init(image), run);
    InitInv(image);
    RunInv(Init(image), run);
    if Holds(s, t) && s.c.bufs[s.refs[t].b].valid {
      var b := s.refs[t].b;
      assert b < NBUF && CleanAt(s, b);
      RunDisk(Init(image), run);
      var n := s.c.bufs[b].blockno;
      LatestIn(s.c, b, n);
      RunLatest(Init(image), run, n);
      LatestOut(Init(image).c, n);
    }
  }

  lemma {:induction false} RunDisk(s: Sys, run: seq<Step>)
    requires Inv(s) && IsRun(s, run)
    ensures |Final(s, run).c.disk| == |s.c.disk|
    decreases |run|
  {
    if run != [] {
      StepInv(s, run[0]);
      hide Inv;
      RunDisk(Next(s, run[0]), run[1..]);
    }
  }

  /** And bread leaves the buffer valid. */
  lemma ReadMakesValid(s: Sys, t: nat)
    requires Inv(s) && Enabled(s, Read(t))
    ensures Holds(Next(s, Read(t)), t) && Next(s, Read(t)).c.bufs[s.refs[t].b].valid
  {
    hide Unique, Led, CountedAt, RefOk;
    HoldsClean(s, t);
  }

  // ---------------------------------------------------------------- least recently used

  /** The step drops the last reference to buffer b. */
  predicate Frees(s: Sys, a: Step, b: nat) {
    a.Drop? && a.t in s.refs && s.refs[a.t].b == b && b < |s.c.bufs| && s.c.bufs[b].refcnt == 1
  }

  /** When buffer b was last freed: the number of the step, counted from at + 1; last if no step of the run frees it. */
  function LastFreed(s: Sys, run: seq<Step>, b: nat, at: nat, last: nat): nat
    requires IsRun(s, run)
    decreases |run|
  {
    if run == [] then last
    else LastFreed(Next(s, run[0]), run[1..], b, at + 1, if Frees(s, run[0], b) then at + 1 else last)
  }

  lemma StepStamps(s: Sys, a: Step, x: nat)
    requires Inv(s) && Enabled(s, a) && x < NBUF
    ensures |Next(s, a).c.stamp| == |s.c.stamp| == NBUF
    ensures if Frees(s, a, x) then Next(s, a).c.stamp[x] == s.c.now > s.c.stamp[x] else Next(s, a).c.stamp[x] == s.c.stamp[x]
  {
    hide Unique, Led, CountedAt, CleanAt, RefOk, Distinct, Front, Position;
  }

  lemma Stamps(s: Sys, x: nat, y: nat)
    requires Inv(s) && x < NBUF && y < NBUF
    ensures |s.c.stamp| == NBUF && s.c.stamp[x] < s.c.now && s.c.stamp[y] < s.c.now
  {
    hide Unique, Led, CountedAt, CleanAt, RefOk, Distinct;
  }

  lemma {:induction false} FreedInOrder(s: Sys, run: seq<Step>, x: nat, y: nat, at: nat, u: nat, v: nat)
    requires Inv(s) && IsRun(s, run) && x < NBUF && y < NBUF && x != y && u <= at && v <= at && |s.c.stamp| == NBUF
    requires u < v ==> s.c.stamp[x] < s.c.stamp[y]
    ensures Inv(Final(s, run)) && |Final(s, run).c.stamp| == NBUF
    ensures LastFreed(s, run, x, at, u) < LastFreed(s, run, y, at, v) ==> Final(s, run).c.stamp[x] < Final(s, run).c.stamp[y]
    decreases |run|
  {
    hide Inv, Next, Enabled, Frees;
    Stamps(s, x, y);
    if run != [] {
      StepInv(s, run[0]);
      StepStamps(s, run[0], x);
      StepStamps(s, run[0], y);
      Stamps(Next(s, run[0]), x, y);
      FreedInOrder(Next(s, run[0]), run[1..], x, y, at + 1,
                   if Frees(s, run[0], x) then at + 1 else u, if Frees(s, run[0], y) then at + 1 else v);
    }
  }

  /** In every run the buffer that can be recycled was freed no later than any other that is unused and clean. */
  lemma RecyclesLeastRecent(image: seq<Block>, run: seq<Step>, t: nat, dev: nat, blockno: nat, b: nat, a: nat)
    requires IsRun(Init(image), run) && Enabled(Final(Init(image), run), Recycle(t, dev, blockno, b))
    requires a < |Final(Init(image), run).c.bufs| && Victim(Final(Init(image), run).c.bufs[a])
    ensures LastFreed(Init(image), run, b, 0, 0) <= LastFreed(Init(image), run, a, 0, 0)
  {
    InitInv(image);
    RunInv(Init(image), run);
    if a != b { FreedInOrder(Init(image), run, a, b, 0, 0, 0); }
  }

  // ---------------------------------------------------------------- nobody gets stuck

  /** In every run whoever waits for a free lock can take it, whoever holds a saved buffer can let go of it, and brelse can end. */
  lemma UsersGoOn(image: seq<Block>, run: seq<Step>, t: nat)
    requires IsRun(Init(image), run)
    ensures var s := Final(Init(image), run);
            t in s.refs ==>
              && s.refs[t].b < |s.c.bufs|
              && (s.refs[t].Waiting? && s.c.bufs[s.refs[t].b].holder == None ==> Enabled(s, Lock(t)))
              && (s.refs[t].Holding? && !s.refs[t].unsaved ==> Enabled(s, Unlock(t)))
              && (s.refs[t].Holding? && s.refs[t].unsaved ==> Enabled(s, LogWrite(t)) && Enabled(s, Write(t)))
              && (s.refs[t].Dropping? ==> Enabled(s, Drop(t)))
  {
    var s := Final(Init(image), run);
    InitInv(image);
    RunInv(Init(image), run);
    RunUnsaved(Init(image), run);
    if t in s.refs {
      InUse(s, t);
      assert CleanAt(s, s.refs[t].b);
    }
  }

  /** Only a valid buffer has changes. */
  ghost predicate UnsavedValid(s: Sys) {
    forall t :: Holds(s, t) && s.refs[t].unsaved ==> s.c.bufs[s.refs[t].b].valid
  }

  lemma StepUnsaved(s: Sys, a: Step)
    requires Inv(s) && UnsavedValid(s) && Enabled(s, a)
    ensures UnsavedValid(Next(s, a))
  {
    hide Shaped, Unique, Led, CleanAt, Oldest, Newest, Front, Position, On;
    var r := Next(s, a);
    forall t | Holds(r, t) && r.refs[t].unsaved ensures r.c.bufs[r.refs[t].b].valid {
      assert RefOk(s, t);
      if a.Recycle? { RecycledUnused(s, a, t); }
    }
  }

  lemma RecycledUnused(s: Sys, a: Step, t: nat)
    requires Inv(s) && Enabled(s, a) && a.Recycle?
    ensures t in s.refs ==> s.refs[t].b != a.b
  {
    hide Unique, Led, CleanAt, Distinct;
    assert CountedAt(s, a.b);
    NoRefs(s.refs, a.b);
  }

  lemma {:induction false} RunUnsaved(s: Sys, run: seq<Step>)
    requires Inv(s) && UnsavedValid(s) && IsRun(s, run)
    ensures UnsavedValid(Final(s, run))
    decreases |run|
  {
    hide Inv, Next, Enabled, UnsavedValid;
    if run != [] {
      StepInv(s, run[0]);
      StepUnsaved(s, run[0]);
      RunUnsaved(Next(s, run[0]), run[1..]);
    }
  }
}
