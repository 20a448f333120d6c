/** malloc and free of umalloc.c over the list of headers they keep in memory. */
module Heap {
  import opened Base
  import opened HeapModel

  const MORECORE := 4096

  /** Header units for a request of nbytes, in 32-bit arithmetic. */
  function NUnits(nbytes: nat): (n: nat)
    ensures n > 0
  {
    (nbytes + HEADER - 1) % TWO32 / HEADER + 1
  }

  /** A product in bytes as sbrk's signed parameter sees it. */
  function AsInt(bytes: nat): int {
    if bytes % TWO32 < 0x8000_0000 then bytes % TWO32 else bytes % TWO32 - TWO32
  }

  /** sbrk is asked for the bytes morecore means to get. */
  predicate Askable(nunits: nat) { AsInt(nunits * HEADER) == nunits * HEADER }

  /** A request gets a block that holds it exactly if the unit count does not wrap. */
  lemma LargeEnoughIff(nbytes: nat)
    requires nbytes < TWO32
    ensures (NUnits(nbytes) - 1) * HEADER >= nbytes <==> nbytes <= TWO32 - HEADER
  {
    if nbytes <= TWO32 - HEADER {
      assert (nbytes + HEADER - 1) % TWO32 == nbytes + HEADER - 1;
    } else {
      assert (nbytes + HEADER - 1) % TWO32 == nbytes + HEADER - 1 - TWO32;
    }
  }

  /** Almost 4 GB asked for, one unit given: no room at all. */
  lemma WrappedRequest()
    ensures NUnits(TWO32 - 1) == 1
  {
  }

  /** What sbrk is asked for is what morecore needs exactly below 2^28 units. */
  lemma AskableIff(nbytes: nat)
    requires nbytes <= TWO32 - HEADER
    ensures Askable(NUnits(nbytes)) <==> nbytes <= 0x8000_0000 - 2 * HEADER
  {
    assert (nbytes + HEADER - 1) % TWO32 == nbytes + HEADER - 1;
  }

  datatype Grant = Refused | At(addr: nat)

  datatype Result = Allocated(ap: nat) | NoMemory | Misgranted

  ghost predicate OnList(bs: seq<Block>, a: nat) {
    exists i :: 0 <= i < |bs| && bs[i].addr == a
  }

  /** Steps from bs[j] to bs[f] along the circle. */
  function Dist(bs: seq<Block>, f: nat, j: nat): nat
    requires f < |bs| && j < |bs|
  {
    if j <= f then f - j else f - j + |bs|
  }

  predicate Fits(bs: seq<Block>, n: nat) {
    exists i :: 0 <= i < |bs| && bs[i].size >= n
  }

  /** The allocator's memory: free list, allocated blocks and their headers, all accounted for. */
  ghost predicate Held(base: nat, blocks: seq<Block>, live: seq<Block>, granted: seq<Block>, size: map<nat, nat>) {
    && FreeList(blocks) && blocks[0].addr == base
    && Accounts(base, blocks, live, granted) && Headers(live, size)
  }

  lemma NothingHeld(base: nat)
    ensures Held(base, [Block(base, 0)], [], [], map[])
  {
    var bs, none: seq<Block> := [Block(base, 0)], [];
    assert Units(bs) == 0 && Units(none) == 0 by { assert bs[1..] == []; }
    assert forall x: nat :: HeldOnce(bs, none, none, x);
  }

  /** free's two exits are taken at the block below b, and only there. */
  lemma SearchStops(bs: seq<Block>, t: nat, b: Block, i: nat)
    requires FreeList(bs) && Before(bs, t, b) && i < |bs|
    ensures var p, next := bs[i].addr, bs[Succ(bs, i)].addr;
            (b.addr > p && b.addr < next) || (p >= next && (b.addr > p || b.addr < next)) <==> i == t
    ensures i != t ==> Dist(bs, t, Succ(bs, i)) < Dist(bs, t, i)
  {
  }

  /** The block below b is still listed, and b's units are in it or in the next block. */
  lemma InsertNear(bs: seq<Block>, t: nat, b: Block)
    requires FreeList(bs) && Before(bs, t, b)
    ensures var r := Insert(bs, t, b);
            && t < |r| && r[t].addr == bs[t].addr && OnList(r, bs[t].addr)
            && (r[t].size >= b.size || r[Succ(r, t)].size >= b.size)
  {
    hide Insert;
    var lo, hi, mid := InsertShape(bs, t, b);
    var r := Insert(bs, t, b);
    assert lo == t + 1 ==> r[t] == bs[t] && r[t + 1] == mid;
  }

  lemma HeldBefore(base: nat, bs: seq<Block>, live: seq<Block>, granted: seq<Block>, size: map<nat, nat>, k: nat)
    returns (t: nat)
    requires Held(base, bs, live, granted, size) && k < |live|
    ensures Before(bs, t, live[k]) && bs[t].addr >= base
  {
    t := FindBefore(base, bs, live, granted, k, |bs|);
    assert t > 0 ==> bs[0].End() < bs[t].addr;
  }

  /** What free's assignments make of the memory. */
  lemma FreeKeeps(base: nat, bs: seq<Block>, live: seq<Block>, granted: seq<Block>, k: nat, t: nat,
                  ptr: map<nat, nat>, size: map<nat, nat>)
    requires Held(base, bs, live, granted, size) && Linked(bs, ptr, size)
    requires k < |live| && Before(bs, t, live[k])
    ensures var p, bp, r := bs[t].addr, live[k].addr, Insert(bs, t, live[k]);
            && p in ptr && p in size && ptr[p] in ptr && ptr[p] in size && bp in size
            && var ptr1, size1 := RaisedPtr(ptr, size, p, bp), RaisedSize(ptr, size, p, bp);
            && var ptr2, size2 := LoweredPtr(ptr1, size1, p, bp), LoweredSize(size1, p, bp);
            && Held(base, r, Drop(live, k), granted, size2) && Linked(r, ptr2, size2) && OnList(r, p)
            && p in ptr2 && p in size2 && ptr2[p] in size2
            && (size2[p] >= live[k].size || size2[ptr2[p]] >= live[k].size)
  {
    hide Accounts, Insert, Separate;
    LinkedInsert(bs, t, live[k], ptr, size);
    FreeHeaders(base, bs, live, granted, k, t, ptr, size);
    FreeAccounts(base, bs, live, granted, k, t);
    InsertFreeList(bs, t, live[k]);
    InsertNear(bs, t, live[k]);
    var p, bp, r := bs[t].addr, live[k].addr, Insert(bs, t, live[k]);
    var ptr1, size1 := RaisedPtr(ptr, size, p, bp), RaisedSize(ptr, size, p, bp);
    var ptr2, size2 := LoweredPtr(ptr1, size1, p, bp), LoweredSize(size1, p, bp);
    assert HeaderAt(r, ptr2, size2, t) && HeaderAt(r, ptr2, size2, Succ(r, t));
  }

  /** What malloc's assignments make of the memory. */
  lemma MallocKeeps(base: nat, bs: seq<Block>, live: seq<Block>, granted: seq<Block>, i: nat, n: nat,
                    ptr: map<nat, nat>, size: map<nat, nat>)
    requires Held(base, bs, live, granted, size) && Linked(bs, ptr, size)
    requires i < |bs| && 0 < n <= bs[i].size
    ensures i > 0 && bs[i - 1].addr >= base && bs[i].addr in ptr && bs[i].addr in size && size[bs[i].addr] == bs[i].size
    ensures var prev, p, r, b := bs[i - 1].addr, bs[i].addr, Take(bs, i, n), Taken(bs, i, n);
            var ptr2, size2 := CutPtr(ptr, size, prev, p, n), CutSize(size, p, n);
            && Held(base, r, live + [b], granted, size2) && Linked(r, ptr2, size2) && OnList(r, prev)
  {
    hide Accounts, Covers;
    TakeFreeList(bs, i, n);
    LinkedTake(bs, i, n, ptr, size);
    MallocAccounts(base, bs, live, granted, i, n);
    MallocHeaders(base, bs, live, granted, i, n, ptr, size);
    assert Take(bs, i, n)[i - 1].addr == bs[i - 1].addr;
    assert i > 1 ==> bs[0].End() < bs[i - 1].addr;
  }

  /** A new block from sbrk, above the rest, with its size in its header. */
  lemma GrantKeeps(base: nat, bs: seq<Block>, live: seq<Block>, granted: seq<Block>, b: Block,
                   ptr: map<nat, nat>, size: map<nat, nat>)
    requires Held(base, bs, live, granted, size) && Linked(bs, ptr, size) && b.size > 0 && base < b.addr
    requires forall j :: 0 <= j < |granted| ==> granted[j].End() <= b.addr
    ensures Held(base, bs, live + [b], granted + [b], size[b.addr := b.size])
    ensures Linked(bs, ptr, size[b.addr := b.size])
  {
    hide Covers;
    GrantAccounts(base, bs, live, granted, b);
    forall j | 0 <= j < |bs| ensures bs[j].addr != b.addr && HeaderAt(bs, ptr, size[b.addr := b.size], j) {
      assert HeaderAt(bs, ptr, size, j);
      if j > 0 {
        CoversAt(bs, j, bs[j].addr);
        assert HeldOnce(bs, live, granted, bs[j].addr);
        var g := Holder(granted, bs[j].addr);
      }
    }
    forall j | 0 <= j < |live| ensures live[j].addr != b.addr {
      CoversAt(live, j, live[j].addr);
      assert HeldOnce(bs, live, granted, live[j].addr);
      var g := Holder(granted, live[j].addr);
    }
  }

  lemma SameLive(base: nat, bs: seq<Block>, live: seq<Block>, granted: seq<Block>, size: map<nat, nat>, j: nat, k: nat)
    requires Held(base, bs, live, granted, size) && j < |live| && k < |live| && live[j].addr == live[k].addr
    ensures j == k
  {
    assert j < k ==> Disjoint(live[j], live[k]);
    assert k < j ==> Disjoint(live[k], live[j]);
  }

  /** malloc's first call makes base a circle of its own. */
  lemma BaseKeeps(base: nat, bs: seq<Block>, live: seq<Block>, granted: seq<Block>, ptr: map<nat, nat>, size: map<nat, nat>)
    requires Held(base, bs, live, granted, size) && |bs| == 1
    ensures Held(base, bs, live, granted, size[base := 0]) && Linked(bs, ptr[base := base], size[base := 0])
    ensures OnList(bs, base)
  {
    assert HeaderAt(bs, ptr[base := base], size[base := 0], 0);
  }

  /** Every block passed on the way from bs[f] to bs[i] is too small. */
  predicate Passed(bs: seq<Block>, f: nat, i: nat, n: nat)
    requires f < |bs| && i < |bs|
  {
    forall j :: 0 <= j < |bs| && Dist(bs, f, j) > Dist(bs, f, i) ==> bs[j].size < n
  }

  /** bs[i] is the first block large enough after the one at freep. */
  ghost predicate FirstFit(bs: seq<Block>, freep: nat, n: nat, i: nat) {
    i < |bs| && bs[i].size >= n && exists f: nat :: f < |bs| && bs[f].addr == freep && Passed(bs, f, i, n)
  }

  lemma FirstAt(bs: seq<Block>, f: nat, i: nat, n: nat)
    requires f < |bs| && i < |bs| && bs[i].size >= n && Passed(bs, f, i, n)
    ensures FirstFit(bs, bs[f].addr, n, i)
  {
  }

  lemma StepPast(bs: seq<Block>, f: nat, i: nat, n: nat)
    requires f < |bs| && i < |bs| && Passed(bs, f, i, n) && bs[i].size < n
    ensures i != f ==> Passed(bs, f, Succ(bs, i), n) && Dist(bs, f, Succ(bs, i)) < Dist(bs, f, i)
    ensures i == f ==> !Fits(bs, n)
  {
  }

  lemma StartPast(bs: seq<Block>, f: nat, n: nat)
    requires f < |bs|
    ensures Passed(bs, f, Succ(bs, f), n)
  {
  }

  /** morecore asks for at least MORECORE units. */
  function Asked(n: nat): nat { if n < MORECORE then MORECORE else n }

  lemma AskedAskable(n: nat)
    ensures Askable(Asked(n)) <==> Askable(n)
  {
  }

  lemma Listed(bs: seq<Block>, a: nat) returns (f: nat)
    requires OnList(bs, a)
    ensures f < |bs| && bs[f].addr == a
  {
    f :| f < |bs| && bs[f].addr == a;
  }

  lemma Header(base: nat, bs: seq<Block>, live: seq<Block>, granted: seq<Block>, ptr: map<nat, nat>, size: map<nat, nat>, i: nat)
    requires Held(base, bs, live, granted, size) && Linked(bs, ptr, size) && i < |bs|
    ensures HeaderAt(bs, ptr, size, i) && (bs[i].size > 0 ==> i > 0)
    ensures forall j :: 0 <= j < |bs| && bs[j].addr == bs[i].addr ==> j == i
  {
    assert HeaderAt(bs, ptr, size, i);
  }

  lemma FitsAt(bs: seq<Block>, i: nat, n: nat)
    requires i < |bs| && bs[i].size >= n
    ensures Fits(bs, n)
  {
  }

  lemma NoFit(base: nat, bs: seq<Block>, live: seq<Block>, granted: seq<Block>, size: map<nat, nat>, n: nat)
    requires Held(base, bs, live, granted, size) && |bs| == 1 && n > 0
    ensures !Fits(bs, n)
  {
  }

  lemma FitsNear(bs: seq<Block>, f: nat, n: nat)
    requires f < |bs| && (bs[f].size >= n || bs[Succ(bs, f)].size >= n)
    ensures Fits(bs, n)
  {
  }

  class Allocator {
    const base: nat
    var ptr: map<nat, nat>
    var size: map<nat, nat>
    var freep: nat
    ghost var blocks: seq<Block>
    ghost var live: seq<Block>
    ghost var granted: seq<Block>

    ghost predicate Valid()
      reads this
    {
      && base > 0 && Held(base, blocks, live, granted, size)
      && (freep == 0 ==> |blocks| == 1)
      && (freep != 0 ==> Linked(blocks, ptr, size) && OnList(blocks, freep))
    }

    /** Before the first malloc: no header written, nothing granted. */
    constructor (at: nat)
      requires at > 0
      ensures Valid() && base == at && freep == 0 && live == [] && granted == []
    {
      base, ptr, size, freep := at, map[], map[], 0;
      blocks, live, granted := [Block(at, 0)], [], [];
      NothingHeld(at);
    }

    /** Walk the circle from freep to the block below b. */
    method Below(bp: nat, ghost t: nat, ghost b: Block) returns (p: nat)
      requires Valid() && freep != 0 && Before(blocks, t, b) && b.addr == bp
      ensures t < |blocks| && p == blocks[t].addr
    {
      hide Accounts, Headers;
      p := freep;
      ghost var i :| 0 <= i < |blocks| && blocks[i].addr == p;
      while true
        invariant 0 <= i < |blocks| && blocks[i].addr == p
        decreases Dist(blocks, t, i)
      {
        assert HeaderAt(blocks, ptr, size, i);
        SearchStops(blocks, t, b, i);
        if bp > p && bp < ptr[p] { break; }
        if p >= ptr[p] && (bp > p || bp < ptr[p]) { break; }
        i, p := Succ(blocks, i), ptr[p];
      }
    }

    /** Give the block at ap back: the list becomes Insert of it, in order and coalesced. */
    method Free(ap: nat) returns (ghost k: nat, ghost t: nat)
      requires Valid() && freep != 0 && exists j :: 0 <= j < |live| && live[j].addr + HEADER == ap
      modifies this
      ensures Valid() && freep != 0 && granted == old(granted)
      ensures k < |old(live)| && old(live)[k].addr + HEADER == ap && live == Drop(old(live), k)
      ensures Before(old(blocks), t, old(live)[k]) && blocks == Insert(old(blocks), t, old(live)[k])
      ensures freep in ptr && freep in size && ptr[freep] in size
      ensures size[freep] >= old(live)[k].size || size[ptr[freep]] >= old(live)[k].size
    {
      hide Held, Insert, Linked, Drop, OnList;
      k :| k < |live| && live[k].addr + HEADER == ap;
      t := HeldBefore(base, blocks, live, granted, size, k);
      var bp: nat := ap - HEADER;
      var p: nat := Below(bp, t, live[k]);
      FreeKeeps(base, blocks, live, granted, k, t, ptr, size);
      if bp + HEADER * size[bp] == ptr[p] {
        ptr, size := ptr[bp := ptr[ptr[p]]], size[bp := size[bp] + size[ptr[p]]];
      } else {
        ptr := ptr[bp := ptr[p]];
      }
      if p + HEADER * size[p] == bp {
        ptr, size := ptr[p := ptr[bp]], size[p := size[p] + size[bp]];
      } else {
        ptr := ptr[p := bp];
      }
      freep := p;
      blocks, live := Insert(blocks, t, live[k]), Drop(live, k);
    }
  
    /** Unlink the block at p, or cut n units off its end. */
    method Cut(prevp: nat, p: nat, n: nat, ghost i: nat) returns (bp: nat)
      requires Valid() && freep != 0 && 0 < i < |blocks| && 0 < n <= blocks[i].size
      requires p == blocks[i].addr && prevp == blocks[i - 1].addr
      modifies this
      ensures Valid() && freep != 0 && granted == old(granted)
      ensures blocks == Take(old(blocks), i, n) && live == old(live) + [Block(bp, n)]
      ensures Block(bp, n) == Taken(old(blocks), i, n)
    {
      hide Held, Linked, OnList;
      MallocKeeps(base, blocks, live, granted, i, n, ptr, size);
      bp := p;
      if size[p] == n {
        ptr := ptr[prevp := ptr[p]];
      } else {
        size := size[p := size[p] - n];
        bp := p + HEADER * size[p];
        size := size[bp := n];
      }
      freep := prevp;
      blocks, live := Take(blocks, i, n), live + [Taken(blocks, i, n)];
    }

    /** Ask sbrk for nu units, at least MORECORE, and free what it grants. */
    method Morecore(n: nat, grant: Grant) returns (r: Result)
      requires Valid() && freep != 0 && 0 < n
      requires grant.At? ==> base < grant.addr && forall j :: 0 <= j < |granted| ==> granted[j].End() <= grant.addr
      modifies this
      ensures Valid() && freep != 0 && live == old(live)
      ensures r.Misgranted? <==> !Askable(Asked(n))
      ensures r.NoMemory? ==> grant.Refused?
      ensures !r.Allocated? ==> blocks == old(blocks) && granted == old(granted)
      ensures r.Allocated? ==> grant.At? && granted == old(granted) + [Block(grant.addr, Asked(n))]
      ensures r.Allocated? ==> r.ap == freep && freep in ptr && freep in size && ptr[freep] in size && (size[freep] >= n || size[ptr[freep]] >= n)
    {
      hide Held, Linked, OnList, Insert, Before;
      var nu := Asked(n);
      if !Askable(nu) { return Misgranted; }
      if grant.Refused? { return NoMemory; }
      ghost var b := Block(grant.addr, nu);
      GrantKeeps(base, blocks, live, granted, b, ptr, size);
      size := size[grant.addr := nu];
      live, granted := live + [b], granted + [b];
      assert live[|old(live)|].addr + HEADER == grant.addr + HEADER;
      label granting:
      ghost var k, t := Free(grant.addr + HEADER);
      SameLive(base, old@granting(blocks), old@granting(live), granted, old@granting(size), k, |old(live)|);
      return Allocated(freep);
    }
  
    /**
      * Allocate nbytes: first fit along the circle from freep, sbrk asked at most once and only
      * when nothing free is large enough.
      */
    method Malloc(nbytes: nat, grant: Grant) returns (r: Result)
      requires Valid() && nbytes < TWO32
      requires grant.At? ==> base < grant.addr && forall j :: 0 <= j < |granted| ==> granted[j].End() <= grant.addr
      modifies this
      ensures Valid()
      ensures r.Allocated? ==> r.ap >= HEADER && live == old(live) + [Block(r.ap - HEADER, NUnits(nbytes))]
      ensures !r.Allocated? ==> live == old(live) && blocks == old(blocks) && granted == old(granted)
      ensures Fits(old(blocks), NUnits(nbytes)) ==>
                r.Allocated? && granted == old(granted)
                && exists i :: FirstFit(old(blocks), old(freep), NUnits(nbytes), i)
                               && Block(r.ap - HEADER, NUnits(nbytes)) == Taken(old(blocks), i, NUnits(nbytes))
                               && blocks == Take(old(blocks), i, NUnits(nbytes))
      ensures !Fits(old(blocks), NUnits(nbytes)) ==>
                && (r.Misgranted? <==> !Askable(NUnits(nbytes)))
                && (r.NoMemory? ==> grant.Refused?)
                && (r.Allocated? ==> grant.At? && granted == old(granted) + [Block(grant.addr, Asked(NUnits(nbytes)))])
    {
      hide Held, Linked, Insert, Before, Fits, Passed, NUnits, Askable, Take, Taken, Dist, FirstFit;
      var n := NUnits(nbytes);
      if freep == 0 {
        NoFit(base, blocks, live, granted, size, n);
        BaseKeeps(base, blocks, live, granted, ptr, size);
        ptr, size, freep := ptr[base := base], size[base := 0], base;
      }
      ghost var start := freep;
      ghost var f: nat := Listed(blocks, freep);
      ghost var q: nat, i: nat, grown := f, Succ(blocks, f), false;
      Header(base, blocks, live, granted, ptr, size, f);
      StartPast(blocks, f, n);
      var prevp, p := freep, ptr[freep];
      while true
        invariant Valid() && freep != 0 && f < |blocks| && q < |blocks| && i == Succ(blocks, q)
        invariant blocks[f].addr == freep && blocks[q].addr == prevp && blocks[i].addr == p
        invariant Passed(blocks, f, i, n) && live == old(live) && (!grown ==> freep == start)
        invariant !grown ==> blocks == old(blocks) && granted == old(granted)
        invariant grown ==> !Fits(old(blocks), n) && Askable(n) && grant.At? && Fits(blocks, n)
        invariant grown ==> granted == old(granted) + [Block(grant.addr, Asked(n))]
        decreases !grown, Dist(blocks, f, i)
      {
        Header(base, blocks, live, granted, ptr, size, i);
        if size[p] >= n {
          FitsAt(blocks, i, n);
          assert !grown ==> FirstFit(blocks, freep, n, i) by { FirstAt(blocks, f, i, n); }
          ghost var was := blocks;
          var bp := Cut(prevp, p, n, i);
          assert Block(bp, n) == live[|old(live)|] == Taken(was, i, n);
          return Allocated(bp + HEADER);
        }
        StepPast(blocks, f, i, n);
        if p == freep {
          AskedAskable(n);
          var more := Morecore(n, grant);
          if !more.Allocated? { return more; }
          p, grown := more.ap, true;
          f := Listed(blocks, freep);
          i := f;
          Header(base, blocks, live, granted, ptr, size, f);
          Header(base, blocks, live, granted, ptr, size, Succ(blocks, f));
          FitsNear(blocks, f, n);
          StartPast(blocks, f, n);
        }
        prevp, p := p, ptr[p];
        q, i := i, Succ(blocks, i);
      }
    }
  }
}
