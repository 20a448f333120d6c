/** The methods of bio.c over the linked list, and the memory disk's iderw they call. */
module Bio {
  import opened Base
  import opened BufferRing
  import opened BufferCache

  class Bcache {
    var bufs: seq<Buf>
    var next: seq<nat>
    var prev: seq<nat>
    var disk: seq<Block>
    ghost var order: seq<nat>
    ghost var stamp: seq<nat>
    ghost var now: nat

    ghost function Abs(): Cache
      reads this
    {
      Cache(bufs, order, stamp, now, disk)
    }

    ghost predicate Valid()
      reads this
    {
      Ring(next, prev, order) && Shaped(Abs())
    }

    /** Link every buffer in; none caches a block yet. */
    constructor Binit(image: seq<Block>)
      ensures Valid() && disk == image
      ensures forall b :: 0 <= b < NBUF ==> bufs[b] == Buf(0, 0, 0, false, false, [], None)
    {
      bufs := seq(NBUF, _ => Buf(0, 0, 0, false, false, [], None));
      next := seq(NBUF + 1, _ => HEAD);
      prev := seq(NBUF + 1, _ => HEAD);
      disk := image;
      order, stamp, now := [], seq(NBUF, i => i), NBUF;
      new;
      var b := 0;
      while b < NBUF
        invariant b <= NBUF && Ring(next, prev, order) && |order| == b && disk == image
        invariant bufs == seq(NBUF, _ => Buf(0, 0, 0, false, false, [], None))
        invariant stamp == seq(NBUF, i => i) && now == NBUF
        invariant forall i :: 0 <= i < b ==> order[i] == b - 1 - i
      {
        Pushed(next, prev, order, b);
        var first := next[HEAD];
        next := next[b := first];
        prev := prev[b := HEAD];
        prev := prev[first := b];
        next := next[HEAD := b];
        order := [b] + order;
        b := b + 1;
      }
      forall a | 0 <= a < NBUF ensures a in order { assert order[NBUF - 1 - a] == a; }
    }

    /** bget's first loop, from the most recently released on. */
    method FindBlock(dev: nat, blockno: nat) returns (r: Option<nat>)
      requires Valid()
      ensures r.None? ==> NoMatch(Abs(), dev, blockno)
      ensures r.Some? ==> r.value < NBUF && Newest(Abs(), r.value, dev, blockno)
    {
      hide Shaped;
      Size(Abs());
      var b := next[HEAD];
      ghost var i := 0;
      assert LinkAt(next, prev, order, 0);
      while b != HEAD
        invariant i <= NBUF && b == if i < NBUF then order[i] else HEAD
        invariant forall j :: 0 <= j < i ==> !Matches(bufs[order[j]], dev, blockno)
        decreases NBUF - i
      {
        if bufs[b].dev == dev && bufs[b].blockno == blockno {
          FirstFound(Abs(), dev, blockno, i);
          return Some(b);
        }
        assert LinkAt(next, prev, order, i + 1);
        b := next[b];
        i := i + 1;
      }
      AllSeen(Abs(), dev, blockno);
      return None;
    }

    /** bget's second loop, from the least recently released on. */
    method FindVictim() returns (r: Option<nat>)
      requires Valid()
      ensures r.None? ==> forall b :: 0 <= b < NBUF ==> !Victim(bufs[b])
      ensures r.Some? ==> Oldest(Abs(), r.value)
    {
      hide Shaped;
      Size(Abs());
      assert LinkAt(next, prev, order, NBUF);
      var b := prev[HEAD];
      ghost var i: nat := NBUF;
      while b != HEAD
        invariant i <= NBUF && b == if i > 0 then order[i - 1] else HEAD
        invariant forall j :: i <= j < NBUF ==> !Victim(bufs[order[j]])
        decreases i
      {
        if bufs[b].refcnt == 0 && !bufs[b].dirty {
          LastFound(Abs(), i - 1);
          return Some(b);
        }
        assert LinkAt(next, prev, order, i - 1);
        b := prev[b];
        i := i - 1;
      }
      NoneFree(Abs());
      return None;
    }

    /** The part of bget under bcache.lock: find the block, or recycle a buffer for it; None is the panic. */
    method Bget(dev: nat, blockno: nat) returns (r: Option<nat>)
      requires Valid()
      modifies this
      ensures Valid()
      ensures r.None? <==> NoMatch(old(Abs()), dev, blockno) && forall b :: 0 <= b < NBUF ==> !Victim(old(bufs)[b])
      ensures r.None? ==> Abs() == old(Abs())
      ensures r.Some? ==> r.value < NBUF
      ensures r.Some? && !NoMatch(old(Abs()), dev, blockno) ==>
                Newest(old(Abs()), r.value, dev, blockno) && Abs() == Referenced(old(Abs()), r.value)
      ensures r.Some? && NoMatch(old(Abs()), dev, blockno) ==>
                Oldest(old(Abs()), r.value) && Abs() == Recycled(old(Abs()), r.value, dev, blockno)
    {
      hide Shaped, Ring;
      ghost var c := Abs();
      Size(c);
      r := FindBlock(dev, blockno);
      if r.Some? {
        var b := r.value;
        bufs := bufs[b := bufs[b].(refcnt := bufs[b].refcnt + 1)];
        SameShape(c, Abs());
        return;
      }
      r := FindVictim();
      if r.Some? {
        var b := r.value;
        bufs := bufs[b := bufs[b].(dev := dev, blockno := blockno, valid := false, dirty := false, refcnt := 1)];
        SameShape(c, Abs());
      }
    }

    /** Transfer between a locked buffer and the memory disk; true is one of its panics. */
    method Iderw(b: nat, t: nat) returns (panic: bool)
      requires Valid() && b < NBUF
      modifies `bufs, `disk
      ensures Valid() && panic == (old(bufs)[b].holder != Some(t) || Refused(old(Abs()), b))
      ensures Abs() == if panic then old(Abs()) else Synced(old(Abs()), b)
    {
      hide Ring;
      var x := bufs[b];
      if x.holder != Some(t) || (x.valid && !x.dirty) || x.dev != 1 || x.blockno >= |disk| { return true; }
      if x.dirty {
        bufs := bufs[b := x.(dirty := false)];
        disk := disk[x.blockno := x.data];
      } else {
        bufs := bufs[b := x.(data := disk[x.blockno])];
      }
      bufs := bufs[b := bufs[b].(valid := true)];
      return false;
    }

    /** bread once the lock is held: the buffer's bytes are the block's. */
    method Bread(b: nat, t: nat) returns (panic: bool)
      requires Valid() && b < NBUF && bufs[b].holder == Some(t)
      modifies `bufs, `disk
      ensures Valid() && panic == (!old(bufs)[b].valid && Refused(old(Abs()), b))
      ensures Abs() == if panic || old(bufs)[b].valid then old(Abs()) else Synced(old(Abs()), b)
    {
      if bufs[b].valid { return false; }
      panic := Iderw(b, t);
    }

    /** Write a locked buffer through to the disk. */
    method Bwrite(b: nat, t: nat) returns (panic: bool)
      requires Valid() && b < NBUF
      modifies `bufs, `disk
      ensures Valid()
      ensures panic == (old(bufs)[b].holder != Some(t) || Refused(Dirtied(old(Abs()), b), b))
      ensures !panic ==> Abs() == Synced(Dirtied(old(Abs()), b), b)
    {
      hide Ring;
      if bufs[b].holder != Some(t) { return true; }
      bufs := bufs[b := bufs[b].(dirty := true)];
      panic := Iderw(b, t);
    }

    /** brelse's relinking: b comes out of the list and goes in after the head. */
    method MoveToFront(b: nat)
      requires Ring(next, prev, order) && b in order
      modifies `next, `prev, `order
      ensures order == Front(old(order), Position(old(order), b)) && Ring(next, prev, order)
    {
      hide Ring;
      ghost var k := Position(order, b);
      Unlinked(next, prev, order, k);
      Sizes(next, prev, order);
      FrontDistinct(order, k);
      prev := prev[next[b] := prev[b]];
      next := next[prev[b] := next[b]];
      Pushed(next, prev, Without(order, k), b);
      Sizes(next, prev, Without(order, k));
      var first := next[HEAD];
      next := next[b := first];
      prev := prev[b := HEAD];
      prev := prev[first := b];
      next := next[HEAD := b];
      order := Front(order, k);
    }

    /** Unlock and drop a reference; the last one moves the buffer to the front of the list. */
    method Brelse(b: nat, t: nat) returns (panic: bool)
      requires Valid() && b < NBUF && bufs[b].refcnt > 0
      modifies this
      ensures Valid() && panic == (old(bufs)[b].holder != Some(t))
      ensures b in old(order) && Abs() == if panic then old(Abs()) else Released(old(Abs()), b)
    {
      hide Shaped, Ring;
      Size(Abs());
      if bufs[b].holder != Some(t) { return true; }
      ReleasedShaped(Abs(), b);
      bufs := bufs[b := bufs[b].(holder := None)];
      bufs := bufs[b := bufs[b].(refcnt := bufs[b].refcnt - 1)];
      if bufs[b].refcnt == 0 {
        MoveToFront(b);
        stamp, now := stamp[b := now], now + 1;
      }
      assert bufs == Released(old(Abs()), b).bufs;
      return false;
    }
  }

  lemma Sizes(next: seq<nat>, prev: seq<nat>, order: seq<nat>)
    requires Ring(next, prev, order)
    ensures |next| == |prev| == NBUF + 1 && Distinct(order)
  {
  }

  lemma Size(c: Cache)
    requires Shaped(c)
    ensures |c.bufs| == NBUF && |c.stamp| == NBUF && |c.order| == NBUF && forall b :: 0 <= b < NBUF ==> b in c.order
  {
  }

  lemma SameShape(c: Cache, c': Cache)
    requires Shaped(c) && |c'.bufs| == |c.bufs| && c'.order == c.order && c'.stamp == c.stamp && c'.now == c.now
    ensures Shaped(c')
  {
  }

  /** The first match in the list was released last of all matches. */
  lemma FirstFound(c: Cache, dev: nat, blockno: nat, i: nat)
    requires Shaped(c) && i < NBUF && Matches(c.bufs[c.order[i]], dev, blockno)
    requires forall j :: 0 <= j < i ==> !Matches(c.bufs[c.order[j]], dev, blockno)
    ensures Newest(c, c.order[i], dev, blockno)
    ensures !NoMatch(c, dev, blockno)
  {
    forall a | 0 <= a < NBUF && Matches(c.bufs[a], dev, blockno) ensures c.stamp[a] <= c.stamp[c.order[i]] {
      var p := Position(c.order, a);
      if p != i { InOrder(c, i, p); }
    }
  }

  lemma AllSeen(c: Cache, dev: nat, blockno: nat)
    requires Shaped(c) && forall j :: 0 <= j < NBUF ==> !Matches(c.bufs[c.order[j]], dev, blockno)
    ensures NoMatch(c, dev, blockno)
  {
    forall b | 0 <= b < NBUF ensures !Matches(c.bufs[b], dev, blockno) {
      var p := Position(c.order, b);
    }
  }

  /** The last victim in the list was released first of all victims. */
  lemma LastFound(c: Cache, i: nat)
    requires Shaped(c) && i < NBUF && Victim(c.bufs[c.order[i]])
    requires forall j :: i < j < NBUF ==> !Victim(c.bufs[c.order[j]])
    ensures Oldest(c, c.order[i])
  {
    forall a | 0 <= a < NBUF && Victim(c.bufs[a]) ensures c.stamp[c.order[i]] <= c.stamp[a] {
      var p := Position(c.order, a);
      if p != i { InOrder(c, p, i); }
    }
  }

  lemma NoneFree(c: Cache)
    requires Shaped(c) && forall j :: 0 <= j < NBUF ==> !Victim(c.bufs[c.order[j]])
    ensures forall b :: 0 <= b < NBUF ==> !Victim(c.bufs[b])
  {
    forall b | 0 <= b < NBUF ensures !Victim(c.bufs[b]) {
      var p := Position(c.order, b);
    }
  }
}
