/** The buffer cache (bio.c) as a value, what its operations do to it, and every concurrent run of them. */
module BufferCache {
  import opened Base
  import opened BufferRing

  type Block = seq<nat>

  datatype Buf = Buf(dev: nat, blockno: nat, refcnt: nat, valid: bool, dirty: bool, data: Block, holder: Option<nat>)

  /** order is the list from head.next on; stamp[b] is the time b's last reference went away. */
  datatype Cache = Cache(bufs: seq<Buf>, order: seq<nat>, stamp: seq<nat>, now: nat, disk: seq<Block>)

  /** The list holds every buffer once, latest released first. */
  predicate Shaped(c: Cache) {
    && |c.bufs| == NBUF && |c.stamp| == NBUF && |c.order| == NBUF && Distinct(c.order)
    && (forall b :: 0 <= b < NBUF ==> b in c.order && c.stamp[b] < c.now)
    && (forall i, j :: 0 <= i < j < NBUF ==> c.stamp[c.order[i]] > c.stamp[c.order[j]])
  }

  predicate Matches(b: Buf, dev: nat, blockno: nat) { b.dev == dev && b.blockno == blockno }

  predicate Victim(b: Buf) { b.refcnt == 0 && !b.dirty }

  predicate NoMatch(c: Cache, dev: nat, blockno: nat) {
    forall b :: 0 <= b < |c.bufs| ==> !Matches(c.bufs[b], dev, blockno)
  }

  /** b holds the block, and of the buffers that do it was released last: the first one in the list. */
  predicate Newest(c: Cache, b: nat, dev: nat, blockno: nat) {
    && b < |c.bufs| && b < |c.stamp| && Matches(c.bufs[b], dev, blockno)
    && forall a :: 0 <= a < |c.bufs| && a < |c.stamp| && Matches(c.bufs[a], dev, blockno) ==> c.stamp[a] <= c.stamp[b]
  }

  /** b is unreferenced and clean, and no such buffer was released before it. */
  predicate Oldest(c: Cache, b: nat) {
    && b < |c.bufs| && b < |c.stamp| && Victim(c.bufs[b])
    && forall a :: 0 <= a < |c.bufs| && a < |c.stamp| && Victim(c.bufs[a]) ==> c.stamp[b] <= c.stamp[a]
  }

  // ---------------------------------------------------------------- operations

  function Referenced(c: Cache, b: nat): Cache
    requires b < |c.bufs|
  {
    c.(bufs := c.bufs[b := c.bufs[b].(refcnt := c.bufs[b].refcnt + 1)])
  }

  function Recycled(c: Cache, b: nat, dev: nat, blockno: nat): Cache
    requires b < |c.bufs|
  {
    c.(bufs := c.bufs[b := c.bufs[b].(dev := dev, blockno := blockno, valid := false, dirty := false, refcnt := 1)])
  }

  function Locked(c: Cache, b: nat, t: nat): Cache
    requires b < |c.bufs|
  {
    c.(bufs := c.bufs[b := c.bufs[b].(holder := Some(t))])
  }

  /** iderw panics: nothing to do, wrong disk, or block out of range. */
  predicate Refused(c: Cache, b: nat)
    requires b < |c.bufs|
  {
    (c.bufs[b].valid && !c.bufs[b].dirty) || c.bufs[b].dev != 1 || c.bufs[b].blockno >= |c.disk|
  }

  /** iderw: write a dirty buffer out, read an invalid one in. */
  function Synced(c: Cache, b: nat): Cache
    requires b < |c.bufs| && !Refused(c, b)
  {
    var x := c.bufs[b];
    if x.dirty then
      c.(bufs := c.bufs[b := x.(dirty := false, valid := true)], disk := c.disk[x.blockno := x.data])
    else
      c.(bufs := c.bufs[b := x.(data := c.disk[x.blockno], valid := true)])
  }

  function Dirtied(c: Cache, b: nat): Cache
    requires b < |c.bufs|
  {
    c.(bufs := c.bufs[b := c.bufs[b].(dirty := true)])
  }

  function Filled(c: Cache, b: nat, data: Block): Cache
    requires b < |c.bufs|
  {
    c.(bufs := c.bufs[b := c.bufs[b].(data := data)])
  }

  function Position(order: seq<nat>, b: nat): (k: nat)
    requires b in order
    ensures k < |order| && order[k] == b
  {
    if order[0] == b then 0 else 1 + Position(order[1..], b)
  }

  /** The first half of brelse: unlock. */
  function Unlocked(c: Cache, b: nat): Cache
    requires b < |c.bufs|
  {
    c.(bufs := c.bufs[b := c.bufs[b].(holder := None)])
  }

  /** The second half: drop the reference, and if it was the last one move b to the front. */
  function Dropped(c: Cache, b: nat): Cache
    requires b < |c.bufs| && b < |c.stamp| && c.bufs[b].refcnt > 0 && b in c.order
  {
    var c' := c.(bufs := c.bufs[b := c.bufs[b].(refcnt := c.bufs[b].refcnt - 1)]);
    if c.bufs[b].refcnt == 1 then
      c'.(order := Front(c.order, Position(c.order, b)), stamp := c.stamp[b := c.now], now := c.now + 1)
    else c'
  }

  /** brelse. */
  function Released(c: Cache, b: nat): Cache
    requires b < |c.bufs| && b < |c.stamp| && c.bufs[b].refcnt > 0 && b in c.order
  {
    Dropped(Unlocked(c, b), b)
  }

  lemma DroppedShaped(c: Cache, b: nat)
    requires Shaped(c) && b < NBUF && c.bufs[b].refcnt > 0
    ensures Shaped(Dropped(c, b))
  {
    if c.bufs[b].refcnt == 1 { FrontShaped(c, b, Position(c.order, b)); }
  }

  lemma ReleasedShaped(c: Cache, b: nat)
    requires Shaped(c) && b < NBUF && c.bufs[b].refcnt > 0
    ensures Shaped(Released(c, b))
  {
    DroppedShaped(Unlocked(c, b), b);
  }

  lemma FrontShaped(c: Cache, b: nat, k: nat)
    requires Shaped(c) && k < NBUF && c.order[k] == b
    ensures Shaped(c.(order := Front(c.order, k), stamp := c.stamp[b := c.now], now := c.now + 1))
  {
    hide Front;
    var o, s := Front(c.order, k), c.stamp[b := c.now];
    FrontDistinct(c.order, k);
    forall i, j | 0 <= i < j < |o| ensures s[o[i]] > s[o[j]] {
      hide Shaped, Distinct;
      InOrder(c, From(k, i), From(k, j));
    }
    forall a | 0 <= a < NBUF ensures a in o {
      hide Distinct, From;
      FromOnto(k, Position(c.order, a));
    }
  }

  lemma FromOnto(k: nat, p: nat)
    requires k < NBUF && p < NBUF
    ensures exists j :: 0 <= j < NBUF && From(k, j) == p
  {
    assert From(k, if p < k then p + 1 else if p > k then p else 0) == p;
  }

  lemma InOrder(c: Cache, i: nat, j: nat)
    requires Shaped(c) && i < NBUF && j < NBUF && i != j
    ensures c.order[i] < NBUF && c.order[j] < NBUF && c.order[i] != c.order[j]
    ensures i < j ==> c.stamp[c.order[i]] > c.stamp[c.order[j]]
    ensures c.stamp[c.order[j]] < c.now && c.stamp[c.order[i]] < c.now
  {
  }
}
