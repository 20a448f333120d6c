/** Every interleaving of bget, acquiresleep, bread, log_write, bwrite and brelse by any number of users. */
module BufferRuns {
  import opened Base
  import opened BufferRing
  import opened BufferCache

  /**
   A reference to buffer b: waiting for its lock, holding it, perhaps with changes not yet logged or
   written, or in brelse between its two critical sections.
   */
  datatype Ref = Waiting(b: nat) | Holding(b: nat, unsaved: bool) | Dropping(b: nat)

  datatype Sys = Sys(c: Cache, refs: map<nat, Ref>)

  datatype Step =
    | Hit(t: nat, dev: nat, blockno: nat, b: nat)
    | Recycle(t: nat, dev: nat, blockno: nat, b: nat)
    | Lock(t: nat)
    | Read(t: nat)
    | Modify(t: nat, data: Block)
    | LogWrite(t: nat)
    | Write(t: nat)
    | Unlock(t: nat)
    | Drop(t: nat)

  predicate Holds(s: Sys, t: nat) {
    t in s.refs && s.refs[t].Holding? && s.refs[t].b < |s.c.bufs|
  }

  /** When a step can be taken. Users release a buffer only after logging or writing what they changed. */
  predicate Enabled(s: Sys, a: Step) {
    match a
    case Hit(t, dev, blockno, b) => t !in s.refs && Newest(s.c, b, dev, blockno)
    case Recycle(t, dev, blockno, b) => t !in s.refs && NoMatch(s.c, dev, blockno) && Oldest(s.c, b)
    case Lock(t) => t in s.refs && s.refs[t].Waiting? && s.refs[t].b < |s.c.bufs| && s.c.bufs[s.refs[t].b].holder == None
    case Read(t) => Holds(s, t) && !s.c.bufs[s.refs[t].b].valid && !Refused(s.c, s.refs[t].b)
    case Modify(t, _) => Holds(s, t) && s.c.bufs[s.refs[t].b].valid
    case LogWrite(t) => Holds(s, t) && s.c.bufs[s.refs[t].b].valid
    case Write(t) => Holds(s, t) && s.c.bufs[s.refs[t].b].valid && !Refused(Dirtied(s.c, s.refs[t].b), s.refs[t].b)
    case Unlock(t) => Holds(s, t) && !s.refs[t].unsaved
    case Drop(t) =>
      && t in s.refs && s.refs[t].Dropping? && s.refs[t].b < |s.c.bufs| && s.refs[t].b < |s.c.stamp|
      && s.c.bufs[s.refs[t].b].refcnt > 0 && s.refs[t].b in s.c.order
  }

  function Next(s: Sys, a: Step): Sys
    requires Enabled(s, a)
  {
    match a
    case Hit(t, _, _, b) => Sys(Referenced(s.c, b), s.refs[t := Waiting(b)])
    case Recycle(t, dev, blockno, b) => Sys(Recycled(s.c, b, dev, blockno), s.refs[t := Waiting(b)])
    case Lock(t) => Sys(Locked(s.c, s.refs[t].b, t), s.refs[t := Holding(s.refs[t].b, false)])
    case Read(t) => s.(c := Synced(s.c, s.refs[t].b))
    case Modify(t, data) => Sys(Filled(s.c, s.refs[t].b, data), s.refs[t := Holding(s.refs[t].b, true)])
    case LogWrite(t) => Sys(Dirtied(s.c, s.refs[t].b), s.refs[t := Holding(s.refs[t].b, false)])
    case Write(t) => Sys(Synced(Dirtied(s.c, s.refs[t].b), s.refs[t].b), s.refs[t := Holding(s.refs[t].b, false)])
    case Unlock(t) => Sys(Unlocked(s.c, s.refs[t].b), s.refs[t := Dropping(s.refs[t].b)])
    case Drop(t) => Sys(Dropped(s.c, s.refs[t].b), s.refs - {t})
  }

  // ---------------------------------------------------------------- the invariant

  predicate Differ(c: Cache, a: nat, b: nat)
    requires a < |c.bufs| && b < |c.bufs|
  {
    c.bufs[a].dev != 0 || c.bufs[a].blockno != 0 ==> !Matches(c.bufs[b], c.bufs[a].dev, c.bufs[a].blockno)
  }

  /** No block but the one that unused buffers claim, block 0 of device 0, is in two buffers. */
  predicate Unique(c: Cache) {
    forall a, b :: 0 <= a < |c.bufs| && 0 <= b < |c.bufs| && a != b ==> Differ(c, a, b)
  }

  /** A buffer that is in use comes before every other buffer with its block. */
  predicate Leads(c: Cache, b: nat, a: nat)
    requires a < |c.bufs| && b < |c.bufs| && a < |c.stamp| && b < |c.stamp|
  {
    c.bufs[b].refcnt > 0 && Matches(c.bufs[a], c.bufs[b].dev, c.bufs[b].blockno) ==> c.stamp[a] <= c.stamp[b]
  }

  predicate Led(c: Cache)
    requires Shaped(c)
  {
    forall a, b :: 0 <= a < NBUF && 0 <= b < NBUF ==> Leads(c, b, a)
  }

  function On(refs: map<nat, Ref>, b: nat): set<nat> {
    set t | t in refs && refs[t].b == b
  }

  /** refcnt counts the references, and the lock's holder is the one reference that holds it. */
  predicate CountedAt(s: Sys, b: nat)
    requires b < |s.c.bufs|
  {
    && s.c.bufs[b].refcnt == |On(s.refs, b)|
    && (s.c.bufs[b].holder.Some? ==>
          var t := s.c.bufs[b].holder.value; t in s.refs && s.refs[t].Holding? && s.refs[t].b == b)
  }

  predicate RefOk(s: Sys, t: nat) {
    t in s.refs ==> s.refs[t].b < |s.c.bufs| && (s.refs[t].Holding? ==> s.c.bufs[s.refs[t].b].holder == Some(t))
  }

  /** A user holds b with changes it has neither logged nor written. */
  predicate Unsaved(s: Sys, b: nat)
    requires b < |s.c.bufs|
  {
    s.c.bufs[b].holder.Some? && s.c.bufs[b].holder.value in s.refs
    && s.refs[s.c.bufs[b].holder.value].Holding? && s.refs[s.c.bufs[b].holder.value].unsaved
  }

  /** Valid and clean means equal to the disk, unless its holder is in the middle of changing it. */
  predicate CleanAt(s: Sys, b: nat)
    requires b < |s.c.bufs|
  {
    var x := s.c.bufs[b];
    && (x.dirty ==> x.valid)
    && (x.valid ==> x.dev == 1 && x.blockno < |s.c.disk|)
    && (x.valid && !x.dirty && !Unsaved(s, b) ==> x.data == s.c.disk[x.blockno])
  }

  ghost predicate Inv(s: Sys) {
    && Shaped(s.c) && Unique(s.c) && Led(s.c)
    && (forall b {:trigger CountedAt(s, b)} :: 0 <= b < NBUF ==> CountedAt(s, b))
    && (forall b {:trigger CleanAt(s, b)} :: 0 <= b < NBUF ==> CleanAt(s, b))
    && (forall t {:trigger RefOk(s, t)} :: RefOk(s, t))
  }

  // ---------------------------------------------------------------- every step keeps it

  lemma OnAdd(refs: map<nat, Ref>, t: nat, r: Ref, b: nat)
    requires t !in refs
    ensures |On(refs[t := r], b)| == |On(refs, b)| + if r.b == b then 1 else 0
  {
    if r.b == b {
      assert On(refs[t := r], b) == On(refs, b) + {t};
    } else {
      assert On(refs[t := r], b) == On(refs, b);
    }
  }

  lemma OnSame(refs: map<nat, Ref>, t: nat, r: Ref, b: nat)
    requires t in refs && refs[t].b == r.b
    ensures On(refs[t := r], b) == On(refs, b)
  {
  }

  lemma OnDrop(refs: map<nat, Ref>, t: nat, b: nat)
    requires t in refs
    ensures |On(refs - {t}, b)| == |On(refs, b)| - if refs[t].b == b then 1 else 0
  {
    if refs[t].b == b {
      assert On(refs, b) == On(refs - {t}, b) + {t};
    } else {
      assert On(refs, b) == On(refs - {t}, b);
    }
  }

  lemma NoRefs(refs: map<nat, Ref>, b: nat)
    requires |On(refs, b)| == 0
    ensures forall t :: t in refs ==> refs[t].b != b
  {
    forall t | t in refs ensures refs[t].b != b {
      assert refs[t].b == b ==> t in On(refs, b);
    }
  }

  lemma StepShaped(s: Sys, a: Step)
    requires Shaped(s.c) && Enabled(s, a)
    ensures Shaped(Next(s, a).c)
  {
    hide Distinct;
    if a.Drop? { DroppedShaped(s.c, s.refs[a.t].b); }
  }

  lemma StepUnique(s: Sys, a: Step)
    requires Shaped(s.c) && Unique(s.c) && Enabled(s, a)
    ensures Unique(Next(s, a).c)
  {
    hide Shaped;
    var c, c' := s.c, Next(s, a).c;
    forall x, y | 0 <= x < |c'.bufs| && 0 <= y < |c'.bufs| && x != y ensures Differ(c', x, y) {
      assert Differ(c, x, y);
    }
  }

  lemma StampsDiffer(c: Cache, a: nat, b: nat)
    requires Shaped(c) && a < NBUF && b < NBUF && a != b
    ensures c.stamp[a] != c.stamp[b]
  {
    hide Distinct, Position;
    var i, j := Position(c.order, a), Position(c.order, b);
    assert i < j || j < i;
  }

  /** Of two buffers with one block at most one is in use. */
  lemma LedOnce(c: Cache, a: nat, b: nat)
    requires Shaped(c) && Led(c) && a < NBUF && b < NBUF && c.bufs[a].refcnt > 0 && c.bufs[b].refcnt > 0
    requires Matches(c.bufs[a], c.bufs[b].dev, c.bufs[b].blockno)
    ensures a == b
  {
    assert Leads(c, b, a) && Leads(c, a, b);
    if a != b { StampsDiffer(c, a, b); }
  }

  /** Taking the first match and moving a buffer only when nobody uses it keep buffers in use ahead. */
  lemma StepLed(s: Sys, a: Step)
    requires Shaped(s.c) && Led(s.c) && Enabled(s, a) && Shaped(Next(s, a).c)
    ensures Led(Next(s, a).c)
  {
    hide Distinct, Front, Position, Dropped;
    var c, c' := s.c, Next(s, a).c;
    forall x, y | 0 <= x < NBUF && 0 <= y < NBUF ensures Leads(c', y, x) {
      assert Leads(c, y, x);
      if a.Drop? { DropLeads(c, s.refs[a.t].b, x, y); }
    }
  }

  lemma DropLeads(c: Cache, b: nat, x: nat, y: nat)
    requires Shaped(c) && Led(c) && b < NBUF && c.bufs[b].refcnt > 0 && x < NBUF && y < NBUF
    ensures |Dropped(c, b).bufs| == NBUF == |Dropped(c, b).stamp| && Leads(Dropped(c, b), y, x)
  {
    hide Distinct, Front, Position;
    assert Leads(c, y, x);
    if x == b && x != y && c.bufs[y].refcnt > 0 && Matches(c.bufs[x], c.bufs[y].dev, c.bufs[y].blockno) {
      LedOnce(c, x, y);
    }
  }

  lemma StepRefs(s: Sys, a: Step, t: nat)
    requires Inv(s) && Enabled(s, a)
    ensures RefOk(Next(s, a), t)
  {
    hide Distinct, Unique, CleanAt, On;
    assert RefOk(s, t) && RefOk(s, a.t);
    if a.Recycle? {
      assert CountedAt(s, a.b);
      NoRefs(s.refs, a.b);
    }
  }

  lemma StepCounted(s: Sys, a: Step, b: nat)
    requires Inv(s) && Enabled(s, a) && b < NBUF
    ensures b < |Next(s, a).c.bufs| && CountedAt(Next(s, a), b)
  {
    hide Unique, CleanAt, On, Distinct;
    assert CountedAt(s, b) && RefOk(s, a.t);
    match a
    case Hit(t, _, _, x) => OnAdd(s.refs, t, Waiting(x), b);
    case Recycle(t, _, _, x) =>
      OnAdd(s.refs, t, Waiting(x), b);
    case Lock(t) => OnSame(s.refs, t, Holding(s.refs[t].b, false), b);
    case Read(t) =>
    case Modify(t, _) => OnSame(s.refs, t, Holding(s.refs[t].b, true), b);
    case LogWrite(t) => OnSame(s.refs, t, Holding(s.refs[t].b, false), b);
    case Write(t) => OnSame(s.refs, t, Holding(s.refs[t].b, false), b);
    case Unlock(t) => OnSame(s.refs, t, Dropping(s.refs[t].b), b);
    case Drop(t) => OnDrop(s.refs, t, b);
  }

  lemma StepClean(s: Sys, a: Step, b: nat)
    requires Inv(s) && Enabled(s, a) && b < NBUF
    ensures b < |Next(s, a).c.bufs| && CleanAt(Next(s, a), b)
  {
    hide On, Distinct;
    assert CleanAt(s, b) && CountedAt(s, b) && RefOk(s, a.t);
    if !a.Hit? && !a.Recycle? {
      var x := s.refs[a.t].b;
      assert CleanAt(s, x) && CountedAt(s, x);
      assert x != b ==> Differ(s.c, x, b);
    }
  }

  lemma StepInv(s: Sys, a: Step)
    requires Inv(s) && Enabled(s, a)
    ensures Inv(Next(s, a))
  {
    hide Shaped, Unique, Led, CountedAt, CleanAt, RefOk;
    StepShaped(s, a);
    StepUnique(s, a);
    StepLed(s, a);
    forall b: nat | b < NBUF ensures b < |Next(s, a).c.bufs| && CountedAt(Next(s, a), b) && CleanAt(Next(s, a), b) {
      StepCounted(s, a, b);
      StepClean(s, a, b);
    }
    forall t: nat ensures RefOk(Next(s, a), t) { StepRefs(s, a, t); }
  }

  // ---------------------------------------------------------------- whole runs

  /** binit's cache over a disk image, nobody using it. */
  function Init(image: seq<Block>): Sys {
    Sys(Cache(seq(NBUF, _ => Buf(0, 0, 0, false, false, [], None)), seq(NBUF, i => NBUF - 1 - i), seq(NBUF, i => i), NBUF, image),
        map[])
  }

  lemma InitInv(image: seq<Block>)
    ensures Inv(Init(image))
  {
    var s := Init(image);
    forall b | 0 <= b < NBUF ensures b in s.c.order && CountedAt(s, b) {
      assert s.c.order[NBUF - 1 - b] == b;
      assert On(s.refs, b) == {};
    }
  }

  predicate IsRun(s: Sys, run: seq<Step>)
    decreases |run|
  {
    run == [] || (Enabled(s, run[0]) && IsRun(Next(s, run[0]), run[1..]))
  }

  function Final(s: Sys, run: seq<Step>): Sys
    requires IsRun(s, run)
    decreases |run|
  {
    if run == [] then s else Final(Next(s, run[0]), run[1..])
  }

  lemma {:induction false} RunInv(s: Sys, run: seq<Step>)
    requires Inv(s) && IsRun(s, run)
    ensures Inv(Final(s, run))
    decreases |run|
  {
    if run != [] {
      StepInv(s, run[0]);
      RunInv(Next(s, run[0]), run[1..]);
    }
  }

  /** Two buffers hold the block. */
  predicate Twice(c: Cache, dev: nat, blockno: nat) {
    exists a, b :: 0 <= a < b < |c.bufs| && Matches(c.bufs[a], dev, blockno) && Matches(c.bufs[b], dev, blockno)
  }

  predicate EndsTwice(image: seq<Block>, run: seq<Step>, dev: nat, blockno: nat) {
    IsRun(Init(image), run) && Twice(Final(Init(image), run).c, dev, blockno)
  }

  /** A run can lead to a block in two buffers exactly if it is block 0 of device 0: there the empty run does. */
  lemma OneBufferPerBlock(image: seq<Block>, dev: nat, blockno: nat)
    ensures (exists run :: EndsTwice(image, run, dev, blockno)) <==> dev == 0 && blockno == 0
  {
    InitInv(image);
    forall run | EndsTwice(image, run, dev, blockno) ensures dev == 0 && blockno == 0 {
      RunInv(Init(image), run);
      var c := Final(Init(image), run).c;
      var a, b :| 0 <= a < b < |c.bufs| && Matches(c.bufs[a], dev, blockno) && Matches(c.bufs[b], dev, blockno);
      assert Differ(c, a, b);
    }
    if dev == 0 && blockno == 0 {
      var c, run: seq<Step> := Init(image).c, [];
      assert Matches(c.bufs[0], 0, 0) && Matches(c.bufs[1], 0, 0);
      assert Final(Init(image), run).c == c && EndsTwice(image, run, dev, blockno);
    }
  }

  /** In every run no two buffers in use hold one block, of any device. */
  lemma OneInUse(image: seq<Block>, run: seq<Step>, a: nat, b: nat)
    requires IsRun(Init(image), run) && a < NBUF && b < NBUF
    ensures var c := Final(Init(image), run).c;
            && |c.bufs| == NBUF
            && (c.bufs[a].refcnt > 0 && c.bufs[b].refcnt > 0 && Matches(c.bufs[a], c.bufs[b].dev, c.bufs[b].blockno) ==> a == b)
  {
    InitInv(image);
    RunInv(Init(image), run);
    var c := Final(Init(image), run).c;
    if c.bufs[a].refcnt > 0 && c.bufs[b].refcnt > 0 && Matches(c.bufs[a], c.bufs[b].dev, c.bufs[b].blockno) { LedOnce(c, a, b); }
  }

  /** Two users of one block of any device have the same buffer, so one lock keeps them apart. */
  lemma SameBlockSameBuffer(image: seq<Block>, run: seq<Step>, t: nat, u: nat)
    requires IsRun(Init(image), run)
    ensures var s := Final(Init(image), run);
            t in s.refs && u in s.refs ==>
              && s.refs[t].b < |s.c.bufs| && s.refs[u].b < |s.c.bufs|
              && (Matches(s.c.bufs[s.refs[t].b], s.c.bufs[s.refs[u].b].dev, s.c.bufs[s.refs[u].b].blockno) ==>
                    s.refs[t].b == s.refs[u].b && (s.refs[t].Holding? && s.refs[u].Holding? ==> t == u))
  {
    var s := Final(Init(image), run);
    HeldByOne(image, run, t, u);
    InitInv(image);
    RunInv(Init(image), run);
    if t in s.refs && u in s.refs {
      InUse(s, t);
      InUse(s, u);
      OneInUse(image, run, s.refs[t].b, s.refs[u].b);
    }
  }

  lemma InUse(s: Sys, t: nat)
    requires Inv(s) && t in s.refs
    ensures s.refs[t].b < NBUF == |s.c.bufs| && s.c.bufs[s.refs[t].b].refcnt > 0
  {
    assert RefOk(s, t) && CountedAt(s, s.refs[t].b);
    assert t in On(s.refs, s.refs[t].b);
  }

  /** In every run a valid, clean, unlocked buffer holds the disk's bytes. */
  lemma CleanIsDisk(image: seq<Block>, run: seq<Step>, b: nat)
    requires IsRun(Init(image), run) && b < NBUF
    ensures var c := Final(Init(image), run).c;
            && |c.bufs| == NBUF
            && (c.bufs[b].valid && !c.bufs[b].dirty && c.bufs[b].holder == None ==>
                  c.bufs[b].blockno < |c.disk| && c.bufs[b].data == c.disk[c.bufs[b].blockno])
  {
    InitInv(image);
    RunInv(Init(image), run);
    assert CleanAt(Final(Init(image), run), b);
  }

  /** In every run at most one user holds a buffer, and a buffer in use is never recycled. */
  lemma HeldByOne(image: seq<Block>, run: seq<Step>, t: nat, u: nat)
    requires IsRun(Init(image), run)
    ensures var s := Final(Init(image), run);
            && (t in s.refs ==> s.refs[t].b < |s.c.bufs| && !Victim(s.c.bufs[s.refs[t].b]))
            && (t in s.refs && u in s.refs && s.refs[t].Holding? && s.refs[u].Holding? && s.refs[t].b == s.refs[u].b ==> t == u)
  {
    InitInv(image);
    RunInv(Init(image), run);
    var s := Final(Init(image), run);
    assert RefOk(s, t) && RefOk(s, u);
    if t in s.refs {
      assert CountedAt(s, s.refs[t].b);
      assert t in On(s.refs, s.refs[t].b);
    }
  }

  /** A logged change stays cached: until it is written, a dirty buffer keeps its block and stays dirty. */
  lemma {:induction false} DirtyStays(s: Sys, run: seq<Step>, b: nat)
    requires Inv(s) && IsRun(s, run) && b < NBUF && s.c.bufs[b].dirty && Unwritten(s, run, b)
    ensures var c := Final(s, run).c;
            b < |c.bufs| && c.bufs[b].dirty && c.bufs[b].dev == s.c.bufs[b].dev && c.bufs[b].blockno == s.c.bufs[b].blockno
    decreases |run|
  {
    if run != [] {
      StepInv(s, run[0]);
      assert RefOk(s, run[0].t);
      assert CleanAt(s, b);
      DirtyStays(Next(s, run[0]), run[1..], b);
    }
  }

  /** No step of the run writes buffer b out. */
  predicate Unwritten(s: Sys, run: seq<Step>, b: nat)
    requires IsRun(s, run)
    decreases |run|
  {
    run == [] ||
    (!(run[0].Write? && s.refs[run[0].t].b == b) && Unwritten(Next(s, run[0]), run[1..], b))
  }
}
