/** The free list of umalloc.c as a value: blocks in address order, header units of 8 bytes. */
module HeapModel {

  const HEADER := 8

  /** A block: the address of its header, and its size in header units, the header included. */
  datatype Block = Block(addr: nat, size: nat) {
    function End(): nat { addr + HEADER * size }
  }

  /** Address order, no two blocks touching: fully coalesced. */
  predicate Separate(bs: seq<Block>) {
    forall i, j :: 0 <= i < j < |bs| ==> bs[i].End() < bs[j].addr
  }

  /** The list as malloc and free keep it: the empty static `base` first, then real blocks. */
  predicate FreeList(bs: seq<Block>) {
    |bs| > 0 && bs[0].size == 0 && Separate(bs) && forall i :: 1 <= i < |bs| ==> bs[i].size > 0
  }

  function Units(bs: seq<Block>): nat {
    if bs == [] then 0 else bs[0].size + Units(bs[1..])
  }

  /** Address x lies in a block of the list. */
  ghost predicate Covers(bs: seq<Block>, x: nat) {
    exists i :: 0 <= i < |bs| && bs[i].addr <= x < bs[i].End()
  }

  lemma CoversAt(bs: seq<Block>, k: nat, x: nat)
    requires k < |bs| && bs[k].addr <= x < bs[k].End()
    ensures Covers(bs, x)
  {
  }

  lemma Holder(bs: seq<Block>, x: nat) returns (k: nat)
    requires Covers(bs, x)
    ensures k < |bs| && bs[k].addr <= x < bs[k].End()
  {
    k :| k < |bs| && bs[k].addr <= x < bs[k].End();
  }

  /** bs without bs[k]. */
  function Drop(bs: seq<Block>, k: nat): (r: seq<Block>)
    requires k < |bs|
    ensures |r| == |bs| - 1 && forall j :: 0 <= j < |r| ==> r[j] == bs[if j < k then j else j + 1]
  {
    bs[..k] + bs[k + 1..]
  }

  // ---------------------------------------------------------------- free

  /** bs[i] is the block free's search stops at for a block b to be freed. */
  predicate Before(bs: seq<Block>, i: nat, b: Block) {
    && i < |bs| && b.size > 0
    && bs[i].addr < b.addr && bs[i].End() <= b.addr
    && (i + 1 < |bs| ==> b.End() <= bs[i + 1].addr)
  }

  /** b put between bs[i] and its successor. */
  function Place(bs: seq<Block>, i: nat, b: Block): seq<Block>
    requires i < |bs|
  {
    bs[..i + 1] + [b] + bs[i + 1..]
  }

  /** bs[k] and bs[k + 1] joined if they touch. */
  function Join(bs: seq<Block>, k: nat): (r: seq<Block>)
  {
    if k + 1 < |bs| && bs[k].End() == bs[k + 1].addr
    then bs[..k] + [Block(bs[k].addr, bs[k].size + bs[k + 1].size)] + bs[k + 2..]
    else bs
  }

  /** free: insert b after bs[i], join it to the upper neighbour, then to the lower. */
  function Insert(bs: seq<Block>, i: nat, b: Block): seq<Block>
    requires i < |bs|
  {
    Join(Join(Place(bs, i, b), i + 1), i)
  }

  /** r is bs with bs[lo..hi] replaced by the one block mid. */
  predicate Shape(bs: seq<Block>, lo: nat, hi: nat, mid: Block, r: seq<Block>) {
    && lo <= hi <= |bs| && |r| == lo + 1 + |bs| - hi && r[lo] == mid
    && (forall j :: 0 <= j < lo ==> r[j] == bs[j])
    && (forall j :: lo < j < |r| ==> r[j] == bs[j - lo - 1 + hi])
  }

  lemma ShapeOf(bs: seq<Block>, lo: nat, hi: nat, mid: Block)
    requires lo <= hi <= |bs|
    ensures Shape(bs, lo, hi, mid, bs[..lo] + [mid] + bs[hi..])
  {
  }

  lemma InsertShape(bs: seq<Block>, i: nat, b: Block) returns (lo: nat, hi: nat, mid: Block)
    requires FreeList(bs) && Before(bs, i, b)
    ensures lo == (if bs[i].End() == b.addr then i else i + 1)
    ensures hi == (if i + 1 < |bs| && b.End() == bs[i + 1].addr then i + 2 else i + 1)
    ensures hi <= |bs| && Shape(bs, lo, hi, mid, Insert(bs, i, b))
    ensures mid.addr == (if lo == i then bs[i].addr else b.addr)
    ensures mid.size == b.size + (if lo == i then bs[i].size else 0) + (if hi == i + 2 then bs[i + 1].size else 0)
  {
    hide Shape;
    var ps := Place(bs, i, b);
    lo := if bs[i].End() == b.addr then i else i + 1;
    hi := if i + 1 < |bs| && b.End() == bs[i + 1].addr then i + 2 else i + 1;
    var up := if hi == i + 2 then Block(b.addr, b.size + bs[i + 1].size) else b;
    var qs := Join(ps, i + 1);
    assert qs == bs[..i + 1] + [up] + bs[hi..] by {
      if hi == i + 2 { assert ps[i + 2..] == bs[i + 1..] && ps[i + 3..] == bs[i + 2..] && ps[..i + 1] == bs[..i + 1]; }
    }
    mid := if lo == i then Block(bs[i].addr, bs[i].size + up.size) else up;
    if lo == i { assert qs[..i] == bs[..i] && qs[i + 2..] == bs[hi..]; }
    ShapeOf(bs, lo, hi, mid);
  }

  lemma ShapeSeparate(bs: seq<Block>, i: nat, b: Block, lo: nat, hi: nat, mid: Block, r: seq<Block>, x: nat, y: nat)
    requires FreeList(bs) && Before(bs, i, b) && Shape(bs, lo, hi, mid, r) && x < y < |r|
    requires lo == (if bs[i].End() == b.addr then i else i + 1)
    requires hi == (if i + 1 < |bs| && b.End() == bs[i + 1].addr then i + 2 else i + 1)
    requires mid.addr == (if lo == i then bs[i].addr else b.addr)
    requires mid.End() == (if hi == i + 2 then bs[i + 1].End() else b.End())
    ensures r[x].End() < r[y].addr
  {
    if x == lo {
      assert r[y] == bs[y - lo - 1 + hi];
    } else if y == lo {
      assert x < i ==> bs[x].End() < bs[i].addr;
    }
  }

  /** free keeps the list in address order and fully coalesced. */
  lemma InsertFreeList(bs: seq<Block>, i: nat, b: Block)
    requires FreeList(bs) && Before(bs, i, b)
    ensures FreeList(Insert(bs, i, b)) && Insert(bs, i, b)[0] == bs[0]
  {
    hide Insert;
    var lo, hi, mid := InsertShape(bs, i, b);
    var r := Insert(bs, i, b);
    assert lo > 0;
    forall x, y | 0 <= x < y < |r| ensures r[x].End() < r[y].addr {
      ShapeSeparate(bs, i, b, lo, hi, mid, r, x, y);
    }
  }

  lemma {:induction false} UnitsAppend(a: seq<Block>, b: seq<Block>)
    ensures Units(a + b) == Units(a) + Units(b)
  {
    if a == [] {
      assert a + b == b;
    } else {
      assert (a + b)[1..] == a[1..] + b;
      UnitsAppend(a[1..], b);
    }
  }

  lemma NoUnits()
    ensures Units([]) == 0
  {
  }

  lemma UnitsAround(a: seq<Block>, x: Block, c: seq<Block>)
    ensures Units(a + [x] + c) == Units(a) + x.size + Units(c)
  {
    assert Units([x]) == x.size by { assert [x][1..] == []; }
    hide Units;
    UnitsAppend(a + [x], c);
    UnitsAppend(a, [x]);
  }

  lemma UnitsPlace(bs: seq<Block>, i: nat, b: Block)
    requires i < |bs|
    ensures Units(Place(bs, i, b)) == Units(bs) + b.size
  {
    hide Units;
    UnitsAround(bs[..i + 1], b, bs[i + 1..]);
    assert bs == bs[..i + 1] + bs[i + 1..];
    UnitsAppend(bs[..i + 1], bs[i + 1..]);
  }

  lemma UnitsJoin(bs: seq<Block>, k: nat)
    ensures Units(Join(bs, k)) == Units(bs)
  {
    hide Units;
    if k + 1 < |bs| && bs[k].End() == bs[k + 1].addr {
      UnitsAround(bs[..k], Block(bs[k].addr, bs[k].size + bs[k + 1].size), bs[k + 2..]);
      assert bs == bs[..k] + [bs[k]] + ([bs[k + 1]] + bs[k + 2..]);
      UnitsAround(bs[..k], bs[k], [bs[k + 1]] + bs[k + 2..]);
      assert [bs[k + 1]] + bs[k + 2..] == [] + [bs[k + 1]] + bs[k + 2..];
      UnitsAround([], bs[k + 1], bs[k + 2..]);
      assert Units([]) == 0 by { NoUnits(); }
    }
  }

  /** Freeing adds exactly the block's units to the list. */
  lemma InsertUnits(bs: seq<Block>, i: nat, b: Block)
    requires i < |bs|
    ensures Units(Insert(bs, i, b)) == Units(bs) + b.size
  {
    UnitsPlace(bs, i, b);
    UnitsJoin(Place(bs, i, b), i + 1);
    UnitsJoin(Join(Place(bs, i, b), i + 1), i);
  }

  lemma JoinCovers(bs: seq<Block>, k: nat, x: nat)
    ensures Covers(Join(bs, k), x) <==> Covers(bs, x)
  {
    var js := Join(bs, k);
    if k + 1 < |bs| && bs[k].End() == bs[k + 1].addr {
      if Covers(bs, x) {
        var i :| 0 <= i < |bs| && bs[i].addr <= x < bs[i].End();
        var j := if i <= k then i else i - 1;
        assert js[j].addr <= x < js[j].End();
      }
      if Covers(js, x) {
        var j :| 0 <= j < |js| && js[j].addr <= x < js[j].End();
        var i := if j < k then j else if j > k then j + 1 else if x < bs[k].End() then k else k + 1;
        assert bs[i].addr <= x < bs[i].End();
      }
    }
  }

  /** Freeing adds exactly the block's addresses to the free ones. */
  lemma InsertCovers(bs: seq<Block>, i: nat, b: Block, x: nat)
    requires i < |bs|
    ensures Covers(Insert(bs, i, b), x) <==> Covers(bs, x) || b.addr <= x < b.End()
  {
    hide Join;
    var ps := Place(bs, i, b);
    JoinCovers(ps, i + 1, x);
    JoinCovers(Join(ps, i + 1), i, x);
    if Covers(bs, x) {
      var k :| 0 <= k < |bs| && bs[k].addr <= x < bs[k].End();
      assert ps[if k <= i then k else k + 1] == bs[k];
    }
    if b.addr <= x < b.End() {
      assert ps[i + 1] == b;
    }
    if Covers(ps, x) {
      var k :| 0 <= k < |ps| && ps[k].addr <= x < ps[k].End();
      assert k == i + 1 || ps[k] == bs[if k <= i then k else k - 1];
    }
  }

  // ---------------------------------------------------------------- malloc

  /** Take n units from the end of bs[i]; the whole block if it has no more. */
  function Take(bs: seq<Block>, i: nat, n: nat): seq<Block>
    requires i < |bs| && n <= bs[i].size
  {
    if bs[i].size == n then Drop(bs, i) else bs[i := Block(bs[i].addr, bs[i].size - n)]
  }

  function Taken(bs: seq<Block>, i: nat, n: nat): Block
    requires i < |bs| && n <= bs[i].size
  {
    Block(bs[i].addr + HEADER * (bs[i].size - n), n)
  }

  lemma TakeFreeList(bs: seq<Block>, i: nat, n: nat)
    requires FreeList(bs) && i < |bs| && 0 < n <= bs[i].size
    ensures FreeList(Take(bs, i, n)) && Take(bs, i, n)[0] == bs[0] && i > 0
  {
  }

  /** What is taken leaves the free list and nothing else does. */
  lemma TakeUnits(bs: seq<Block>, i: nat, n: nat)
    requires i < |bs| && n <= bs[i].size
    ensures Units(Take(bs, i, n)) + n == Units(bs)
  {
    hide Drop, Units;
    if bs[i].size == n { DropUnits(bs, i); } else { PutUnits(bs, i, Block(bs[i].addr, bs[i].size - n)); }
  }

  lemma DropUnits(bs: seq<Block>, i: nat)
    requires i < |bs|
    ensures Units(Drop(bs, i)) + bs[i].size == Units(bs)
  {
    hide Units;
    UnitsAt(bs, i);
    UnitsAppend(bs[..i], bs[i + 1..]);
  }

  lemma PutUnits(bs: seq<Block>, i: nat, b: Block)
    requires i < |bs|
    ensures Units(bs[i := b]) + bs[i].size == Units(bs) + b.size
  {
    hide Units;
    UnitsAt(bs, i);
    UnitsAt(bs[i := b], i);
    assert bs[i := b][..i] == bs[..i] && bs[i := b][i + 1..] == bs[i + 1..];
  }

  lemma UnitsAt(bs: seq<Block>, i: nat)
    requires i < |bs|
    ensures Units(bs) == Units(bs[..i]) + bs[i].size + Units(bs[i + 1..])
  {
    hide Units;
    assert bs == bs[..i] + [bs[i]] + bs[i + 1..];
    UnitsAround(bs[..i], bs[i], bs[i + 1..]);
  }

  /** Blocks of a free list do not overlap. */
  lemma NotInBoth(bs: seq<Block>, i: nat, j: nat, x: nat)
    requires Separate(bs) && i < |bs| && j < |bs| && i != j && bs[j].addr <= x < bs[j].End()
    ensures !(bs[i].addr <= x < bs[i].End())
  {
  }

  lemma TakeCovered(bs: seq<Block>, i: nat, n: nat, x: nat)
    requires FreeList(bs) && i < |bs| && 0 < n <= bs[i].size && Covers(Take(bs, i, n), x)
    ensures Covers(bs, x) && !(Taken(bs, i, n).addr <= x < Taken(bs, i, n).End())
  {
    hide Covers, Drop;
    var k := Holder(Take(bs, i, n), x);
    var j := if bs[i].size == n && k >= i then k + 1 else k;
    CoversAt(bs, j, x);
    if j != i { NotInBoth(bs, i, j, x); }
  }

  /** malloc takes exactly the block's addresses out of the free ones. */
  lemma TakeCovers(bs: seq<Block>, i: nat, n: nat, x: nat)
    requires FreeList(bs) && i < |bs| && 0 < n <= bs[i].size
    ensures var b := Taken(bs, i, n);
            Covers(Take(bs, i, n), x) <==> Covers(bs, x) && !(b.addr <= x < b.End())
  {
    hide Covers, Drop;
    if Covers(Take(bs, i, n), x) {
      TakeCovered(bs, i, n, x);
    } else if Covers(bs, x) {
      var k := Holder(bs, x);
      if k != i || x < Taken(bs, i, n).addr {
        CoversAt(Take(bs, i, n), if bs[i].size == n && k > i then k - 1 else k, x);
      }
    }
  }

  // ---------------------------------------------------------------- the list in memory

  function Succ(bs: seq<Block>, i: nat): nat
    requires i < |bs|
  {
    if i + 1 == |bs| then 0 else i + 1
  }

  /** Header j of the list, as ptr and size store it: a circle in address order. */
  predicate HeaderAt(bs: seq<Block>, ptr: map<nat, nat>, size: map<nat, nat>, j: nat)
    requires j < |bs|
  {
    && bs[j].addr in ptr && bs[j].addr in size
    && size[bs[j].addr] == bs[j].size && ptr[bs[j].addr] == bs[Succ(bs, j)].addr
  }

  predicate Linked(bs: seq<Block>, ptr: map<nat, nat>, size: map<nat, nat>) {
    forall j :: 0 <= j < |bs| ==> HeaderAt(bs, ptr, size, j)
  }

  /** free's first two assignments: join bp to the block above, or link to it. */
  function RaisedPtr(ptr: map<nat, nat>, size: map<nat, nat>, p: nat, bp: nat): map<nat, nat>
    requires p in ptr && ptr[p] in ptr && bp in size
  {
    if bp + HEADER * size[bp] == ptr[p] then ptr[bp := ptr[ptr[p]]] else ptr[bp := ptr[p]]
  }

  function RaisedSize(ptr: map<nat, nat>, size: map<nat, nat>, p: nat, bp: nat): map<nat, nat>
    requires p in ptr && ptr[p] in size && bp in size
  {
    if bp + HEADER * size[bp] == ptr[p] then size[bp := size[bp] + size[ptr[p]]] else size
  }

  /** free's last two assignments: join the result to the block below, or link it. */
  function LoweredPtr(ptr: map<nat, nat>, size: map<nat, nat>, p: nat, bp: nat): map<nat, nat>
    requires p in size && bp in ptr
  {
    if p + HEADER * size[p] == bp then ptr[p := ptr[bp]] else ptr[p := bp]
  }

  function LoweredSize(size: map<nat, nat>, p: nat, bp: nat): map<nat, nat>
    requires p in size && bp in size
  {
    if p + HEADER * size[p] == bp then size[p := size[p] + size[bp]] else size
  }

  /** What free's assignments amount to: p's header, or p's and bp's, rewritten. */
  ghost predicate Rewired(ptr: map<nat, nat>, size: map<nat, nat>, ptr2: map<nat, nat>, size2: map<nat, nat>,
                          p: nat, bp: nat, joined: bool, next: nat, units: nat)
  {
    && (forall a :: a in ptr && a != p && a != bp ==> a in ptr2 && ptr2[a] == ptr[a])
    && (forall a :: a in size && a != p && a != bp ==> a in size2 && size2[a] == size[a])
    && p in size && p in ptr2 && p in size2 && bp in ptr2 && bp in size2
    && (joined ==> ptr2[p] == next && size2[p] == units)
    && (!joined ==> ptr2[p] == bp && size2[p] == size[p] && ptr2[bp] == next && size2[bp] == units)
  }

  lemma FreedHeaders(bs: seq<Block>, i: nat, b: Block, ptr: map<nat, nat>, size: map<nat, nat>,
                     lo: nat, hi: nat, mid: Block)
    requires FreeList(bs) && Before(bs, i, b) && b.addr in size && size[b.addr] == b.size
    requires HeaderAt(bs, ptr, size, i) && HeaderAt(bs, ptr, size, Succ(bs, i))
    requires lo == (if bs[i].End() == b.addr then i else i + 1)
    requires hi == (if i + 1 < |bs| && b.End() == bs[i + 1].addr then i + 2 else i + 1)
    requires mid.size == b.size + (if lo == i then bs[i].size else 0) + (if hi == i + 2 then bs[i + 1].size else 0)
    ensures var p := bs[i].addr;
            var ptr1, size1 := RaisedPtr(ptr, size, p, b.addr), RaisedSize(ptr, size, p, b.addr);
            Rewired(ptr, size, LoweredPtr(ptr1, size1, p, b.addr), LoweredSize(size1, p, b.addr),
                    p, b.addr, lo == i, bs[if hi == |bs| then 0 else hi].addr, mid.size)
  {
    assert bs[0].addr <= bs[i].addr;
  }

  lemma OtherAddresses(bs: seq<Block>, i: nat, b: Block, k: nat)
    requires FreeList(bs) && Before(bs, i, b) && k < |bs|
    ensures bs[k].addr != b.addr && (k != i ==> bs[k].addr != bs[i].addr)
  {
    if k < i {
      assert bs[k].End() < bs[i].addr;
    } else if i < k {
      assert bs[i].End() < bs[k].addr;
      if i + 1 < k { assert bs[i + 1].End() < bs[k].addr; }
    }
  }

  lemma HeaderMoved(bs: seq<Block>, i: nat, b: Block, r: seq<Block>, lo: nat, hi: nat, mid: Block, j: nat,
                    ptr: map<nat, nat>, size: map<nat, nat>, ptr2: map<nat, nat>, size2: map<nat, nat>)
    requires FreeList(bs) && Before(bs, i, b) && i <= lo <= i + 1 <= hi <= |bs| && hi <= i + 2
    requires Shape(bs, lo, hi, mid, r) && mid.addr == (if lo == i then bs[i].addr else b.addr)
    requires Rewired(ptr, size, ptr2, size2, bs[i].addr, b.addr, lo == i, bs[if hi == |bs| then 0 else hi].addr, mid.size)
    requires j < |r|
    requires HeaderAt(bs, ptr, size, if j < lo then j else if j == lo then i else j - lo - 1 + hi)
    ensures HeaderAt(r, ptr2, size2, j)
  {
    hide FreeList, Before;
    if j == lo {
      assert FreeList(bs);
      assert r[j] == mid;
      assert r[Succ(r, j)].addr == bs[if hi == |bs| then 0 else hi].addr by {
        if hi == |bs| { assert Succ(r, j) == 0; } else { assert r[j + 1] == bs[hi]; }
      }
    } else {
      var k := if j < lo then j else j - lo - 1 + hi;
      assert r[j] == bs[k];
      OtherAddresses(bs, i, b, k);
      if k == i {
        assert r[Succ(r, j)] == mid;
      } else {
        assert r[Succ(r, j)].addr == bs[Succ(bs, k)].addr;
      }
    }
  }

  /** After free's four assignments the list in memory is Insert of the list before. */
  lemma LinkedInsert(bs: seq<Block>, i: nat, b: Block, ptr: map<nat, nat>, size: map<nat, nat>)
    requires FreeList(bs) && Before(bs, i, b) && Linked(bs, ptr, size) && b.addr in size && size[b.addr] == b.size
    ensures HeaderAt(bs, ptr, size, i) && HeaderAt(bs, ptr, size, Succ(bs, i))
    ensures var p := bs[i].addr;
            var ptr1, size1 := RaisedPtr(ptr, size, p, b.addr), RaisedSize(ptr, size, p, b.addr);
            Linked(Insert(bs, i, b), LoweredPtr(ptr1, size1, p, b.addr), LoweredSize(size1, p, b.addr))
  {
    hide Insert, FreeList, Rewired;
    assert HeaderAt(bs, ptr, size, i) && HeaderAt(bs, ptr, size, Succ(bs, i));
    var p := bs[i].addr;
    var ptr1, size1 := RaisedPtr(ptr, size, p, b.addr), RaisedSize(ptr, size, p, b.addr);
    var lo, hi, mid := InsertShape(bs, i, b);
    FreedHeaders(bs, i, b, ptr, size, lo, hi, mid);
    var r := Insert(bs, i, b);
    forall j | 0 <= j < |r|
      ensures HeaderAt(r, LoweredPtr(ptr1, size1, p, b.addr), LoweredSize(size1, p, b.addr), j)
    {
      HeaderMoved(bs, i, b, r, lo, hi, mid, j, ptr, size,
                  LoweredPtr(ptr1, size1, p, b.addr), LoweredSize(size1, p, b.addr));
    }
  }

  /** malloc's assignments: unlink p, or cut n units off its end. */
  function CutPtr(ptr: map<nat, nat>, size: map<nat, nat>, prev: nat, p: nat, n: nat): map<nat, nat>
    requires p in ptr && p in size
  {
    if size[p] == n then ptr[prev := ptr[p]] else ptr
  }

  function CutSize(size: map<nat, nat>, p: nat, n: nat): map<nat, nat>
    requires p in size && n <= size[p]
  {
    if size[p] == n then size else size[p := size[p] - n][p + HEADER * (size[p] - n) := n]
  }

  lemma LinkedUnlink(bs: seq<Block>, i: nat, ptr: map<nat, nat>, size: map<nat, nat>)
    requires FreeList(bs) && Linked(bs, ptr, size) && 0 < i < |bs| && HeaderAt(bs, ptr, size, i)
    ensures Linked(Drop(bs, i), ptr[bs[i - 1].addr := ptr[bs[i].addr]], size)
  {
    var r, ptr2 := Drop(bs, i), ptr[bs[i - 1].addr := ptr[bs[i].addr]];
    forall j | 0 <= j < |r| ensures HeaderAt(r, ptr2, size, j) {
      hide FreeList, Linked, Drop;
      var k := if j < i then j else j + 1;
      assert HeaderAt(bs, ptr, size, k) by { assert Linked(bs, ptr, size); }
      CutApart(bs, i, 1, k);
    }
  }

  lemma LinkedCut(bs: seq<Block>, i: nat, n: nat, ptr: map<nat, nat>, size: map<nat, nat>)
    requires FreeList(bs) && Linked(bs, ptr, size) && 0 < i < |bs| && 0 < n < bs[i].size
    ensures Linked(bs[i := Block(bs[i].addr, bs[i].size - n)], ptr,
                   size[bs[i].addr := bs[i].size - n][Taken(bs, i, n).addr := n])
  {
    var r, size2 := bs[i := Block(bs[i].addr, bs[i].size - n)], size[bs[i].addr := bs[i].size - n][Taken(bs, i, n).addr := n];
    forall j | 0 <= j < |r| ensures HeaderAt(r, ptr, size2, j) {
      hide FreeList, Linked;
      assert HeaderAt(bs, ptr, size, j) by { assert Linked(bs, ptr, size); }
      CutApart(bs, i, n, j);
    }
  }

  /** After malloc's assignments the list in memory is Take of the list before. */
  lemma LinkedTake(bs: seq<Block>, i: nat, n: nat, ptr: map<nat, nat>, size: map<nat, nat>)
    requires FreeList(bs) && Linked(bs, ptr, size) && 0 < i < |bs| && 0 < n <= bs[i].size
    ensures HeaderAt(bs, ptr, size, i)
    ensures Linked(Take(bs, i, n), CutPtr(ptr, size, bs[i - 1].addr, bs[i].addr, n), CutSize(size, bs[i].addr, n))
    ensures var b := Taken(bs, i, n); b.addr in CutSize(size, bs[i].addr, n) && CutSize(size, bs[i].addr, n)[b.addr] == n
  {
    assert HeaderAt(bs, ptr, size, i);
    hide Linked, FreeList, Drop;
    if bs[i].size == n { LinkedUnlink(bs, i, ptr, size); } else { LinkedCut(bs, i, n, ptr, size); }
  }

  lemma CutApart(bs: seq<Block>, i: nat, n: nat, k: nat)
    requires FreeList(bs) && 0 < i < |bs| && 0 < n <= bs[i].size && k < |bs|
    ensures k != i ==> bs[k].addr != bs[i].addr && bs[k].addr != Taken(bs, i, n).addr
    ensures k != i - 1 ==> bs[k].addr != bs[i - 1].addr
  {
  }

  // ---------------------------------------------------------------- who holds what

  predicate Disjoint(a: Block, b: Block) {
    a.End() <= b.addr || b.End() <= a.addr
  }

  /** Allocated blocks lie above base and do not overlap. */
  predicate LiveBlocks(base: nat, live: seq<Block>) {
    && (forall k :: 0 <= k < |live| ==> live[k].size > 0 && base < live[k].addr)
    && (forall j, k :: 0 <= j < k < |live| ==> Disjoint(live[j], live[k]))
  }

  /** x was granted by sbrk exactly if it is free or allocated, and it is not both. */
  ghost predicate HeldOnce(free: seq<Block>, live: seq<Block>, granted: seq<Block>, x: nat) {
    && (Covers(granted, x) <==> Covers(free, x) || Covers(live, x))
    && !(Covers(free, x) && Covers(live, x))
  }

  /** Nothing granted is lost, shared or invented, by address and by number of units. */
  ghost predicate Accounts(base: nat, free: seq<Block>, live: seq<Block>, granted: seq<Block>) {
    && LiveBlocks(base, live)
    && (forall x: nat :: HeldOnce(free, live, granted, x))
    && Units(granted) == Units(free) + Units(live)
  }

  lemma DropCovers(base: nat, live: seq<Block>, k: nat, x: nat)
    requires LiveBlocks(base, live) && k < |live|
    ensures Covers(Drop(live, k), x) <==> Covers(live, x) && !(live[k].addr <= x < live[k].End())
  {
    hide Covers, Drop;
    var ds := Drop(live, k);
    if Covers(ds, x) {
      var j := Holder(ds, x);
      var i := if j < k then j else j + 1;
      CoversAt(live, i, x);
      assert Disjoint(live[i], live[k]);
    }
    if Covers(live, x) && !(live[k].addr <= x < live[k].End()) {
      var i := Holder(live, x);
      CoversAt(ds, if i < k then i else i - 1, x);
    }
  }

  lemma PushCovers(live: seq<Block>, b: Block, x: nat)
    ensures Covers(live + [b], x) <==> Covers(live, x) || b.addr <= x < b.End()
  {
    if Covers(live, x) {
      var i :| 0 <= i < |live| && live[i].addr <= x < live[i].End();
      assert (live + [b])[i] == live[i];
    }
    if b.addr <= x < b.End() { assert (live + [b])[|live|] == b; }
  }

  /** The last free block below b: where free's search ends. */
  lemma {:induction false} FindBefore(base: nat, free: seq<Block>, live: seq<Block>, granted: seq<Block>, k: nat, n: nat)
    returns (t: nat)
    requires FreeList(free) && free[0].addr == base && Accounts(base, free, live, granted)
    requires k < |live| && 0 < n <= |free| && (n < |free| ==> live[k].addr < free[n].addr)
    ensures Before(free, t, live[k])
    decreases n
  {
    var b := live[k];
    if free[n - 1].addr < b.addr {
      t := n - 1;
      assert HeldOnce(free, live, granted, b.addr);
      assert b.addr <= b.addr < b.End();
      if t + 1 < |free| {
        assert HeldOnce(free, live, granted, free[t + 1].addr);
        assert free[t + 1].addr <= free[t + 1].addr < free[t + 1].End();
      }
    } else {
      assert HeldOnce(free, live, granted, b.addr);
      assert n > 1 && free[n - 1].addr <= free[n - 1].addr < free[n - 1].End();
      t := FindBefore(base, free, live, granted, k, n - 1);
    }
  }

  lemma FreeAccounts(base: nat, free: seq<Block>, live: seq<Block>, granted: seq<Block>, k: nat, t: nat)
    requires Accounts(base, free, live, granted) && k < |live| && Before(free, t, live[k])
    ensures Accounts(base, Insert(free, t, live[k]), Drop(live, k), granted)
  {
    hide Covers, Insert;
    InsertUnits(free, t, live[k]);
    DropUnits(live, k);
    forall x: nat ensures HeldOnce(Insert(free, t, live[k]), Drop(live, k), granted, x) {
      assert HeldOnce(free, live, granted, x);
      InsertCovers(free, t, live[k], x);
      DropCovers(base, live, k, x);
      if live[k].addr <= x < live[k].End() { CoversAt(live, k, x); }
    }
  }

  lemma MallocAccounts(base: nat, free: seq<Block>, live: seq<Block>, granted: seq<Block>, i: nat, n: nat)
    requires FreeList(free) && free[0].addr == base && Accounts(base, free, live, granted)
    requires i < |free| && 0 < n <= free[i].size
    ensures Accounts(base, Take(free, i, n), live + [Taken(free, i, n)], granted)
  {
    hide Covers, Take;
    var b := Taken(free, i, n);
    TakeUnits(free, i, n);
    UnitsAppend(live, [b]);
    forall x: nat ensures HeldOnce(Take(free, i, n), live + [b], granted, x) {
      assert HeldOnce(free, live, granted, x);
      TakeCovers(free, i, n, x);
      PushCovers(live, b, x);
      if b.addr <= x < b.End() { CoversAt(free, i, x); }
    }
    forall j | 0 <= j < |live| ensures Disjoint(live[j], b) {
      var x := if live[j].addr < b.addr then b.addr else live[j].addr;
      if live[j].addr <= x < live[j].End() { CoversAt(live, j, x); }
      if b.addr <= x < b.End() { CoversAt(free, i, x); }
      assert HeldOnce(free, live, granted, x);
    }
  }

  /** sbrk's new block, above everything granted before, counted as allocated. */
  lemma GrantAccounts(base: nat, free: seq<Block>, live: seq<Block>, granted: seq<Block>, b: Block)
    requires Accounts(base, free, live, granted) && b.size > 0 && base < b.addr
    requires forall j :: 0 <= j < |granted| ==> granted[j].End() <= b.addr
    ensures Accounts(base, free, live + [b], granted + [b])
  {
    hide Covers;
    UnitsAppend(live, [b]);
    UnitsAppend(granted, [b]);
    forall x: nat ensures HeldOnce(free, live + [b], granted + [b], x) {
      assert HeldOnce(free, live, granted, x);
      PushCovers(live, b, x);
      PushCovers(granted, b, x);
      if Covers(granted, x) { var j := Holder(granted, x); }
    }
    forall j | 0 <= j < |live| ensures Disjoint(live[j], b) {
      var x := live[j].End() - 1;
      CoversAt(live, j, x);
      assert HeldOnce(free, live, granted, x);
      var g := Holder(granted, x);
    }
  }

  // ---------------------------------------------------------------- headers of allocated blocks

  /** free finds the size of an allocated block in its header. */
  predicate Headers(live: seq<Block>, size: map<nat, nat>) {
    forall k :: 0 <= k < |live| ==> live[k].addr in size && size[live[k].addr] == live[k].size
  }

  lemma Elsewhere(base: nat, free: seq<Block>, live: seq<Block>, granted: seq<Block>, i: nat, j: nat, x: nat)
    requires FreeList(free) && free[0].addr == base && Accounts(base, free, live, granted)
    requires i < |free| && j < |live| && (x == free[i].addr || free[i].addr <= x < free[i].End())
    ensures x != live[j].addr
  {
    hide Covers;
    CoversAt(live, j, live[j].addr);
    assert HeldOnce(free, live, granted, live[j].addr);
    if i != 0 { CoversAt(free, i, x); }
  }

  lemma FreeHeaders(base: nat, free: seq<Block>, live: seq<Block>, granted: seq<Block>, k: nat, t: nat,
                    ptr: map<nat, nat>, size: map<nat, nat>)
    requires FreeList(free) && free[0].addr == base && Accounts(base, free, live, granted)
    requires k < |live| && t < |free| && Headers(live, size)
    requires HeaderAt(free, ptr, size, t) && HeaderAt(free, ptr, size, Succ(free, t))
    ensures var p, bp := free[t].addr, live[k].addr;
            Headers(Drop(live, k), LoweredSize(RaisedSize(ptr, size, p, bp), p, bp))
  {
    var ds := Drop(live, k);
    forall j | 0 <= j < |ds| ensures ds[j].addr != free[t].addr && ds[j].addr != live[k].addr && ds[j].addr in size && size[ds[j].addr] == ds[j].size {
      var i := if j < k then j else j + 1;
      Elsewhere(base, free, live, granted, t, i, free[t].addr);
      assert Disjoint(live[i], live[k]);
    }
  }

  lemma MallocHeaders(base: nat, free: seq<Block>, live: seq<Block>, granted: seq<Block>, i: nat, n: nat,
                      ptr: map<nat, nat>, size: map<nat, nat>)
    requires FreeList(free) && free[0].addr == base && Accounts(base, free, live, granted)
    requires Linked(free, ptr, size) && Headers(live, size) && 0 < i < |free| && 0 < n <= free[i].size
    ensures HeaderAt(free, ptr, size, i) && Headers(live + [Taken(free, i, n)], CutSize(size, free[i].addr, n))
  {
    assert HeaderAt(free, ptr, size, i);
    LinkedTake(free, i, n, ptr, size);
    forall j | 0 <= j < |live| ensures live[j].addr != free[i].addr && live[j].addr != Taken(free, i, n).addr {
      Elsewhere(base, free, live, granted, i, j, free[i].addr);
      Elsewhere(base, free, live, granted, i, j, Taken(free, i, n).addr);
    }
  }

  // ---------------------------------------------------------------- free undoes malloc

  /** The place free finds is the only one. */
  lemma OnePlace(bs: seq<Block>, t: nat, b: Block)
    requires FreeList(bs) && Before(bs, t, b)
    ensures forall u: nat :: u != t ==> !Before(bs, u, b)
  {
    forall u: nat | u != t && u < |bs| ensures !Before(bs, u, b) {
      if t < u { assert bs[t + 1].addr <= bs[u].addr; } else { assert bs[u + 1].addr <= bs[t].addr; }
    }
  }

  lemma UndoCut(bs: seq<Block>, i: nat, n: nat)
    requires FreeList(bs) && 0 < i < |bs| && 0 < n < bs[i].size
    ensures Before(Take(bs, i, n), i, Taken(bs, i, n)) && Insert(Take(bs, i, n), i, Taken(bs, i, n)) == bs
  {
    var ts, b := Take(bs, i, n), Taken(bs, i, n);
    var ps := Place(ts, i, b);
    assert i + 1 < |bs| ==> bs[i].End() < bs[i + 1].addr && ps[i + 2] == bs[i + 1];
    assert Join(ps, i + 1) == ps;
    assert ps[..i] == bs[..i] && ps[i + 2..] == bs[i + 1..];
    assert bs == bs[..i] + [bs[i]] + bs[i + 1..];
  }

  lemma UndoUnlink(bs: seq<Block>, i: nat)
    requires FreeList(bs) && 0 < i < |bs|
    ensures Before(Drop(bs, i), i - 1, bs[i]) && Insert(Drop(bs, i), i - 1, bs[i]) == bs
  {
    var ds := Drop(bs, i);
    var ps := Place(ds, i - 1, bs[i]);
    assert bs[i - 1].End() < bs[i].addr;
    assert i + 1 < |bs| ==> bs[i].End() < bs[i + 1].addr && ds[i] == bs[i + 1];
    assert ps == bs;
  }

  /** Freeing what malloc just took gives the list malloc found. */
  lemma FreeUndoesMalloc(bs: seq<Block>, i: nat, n: nat, t: nat)
    requires FreeList(bs) && i < |bs| && 0 < n <= bs[i].size && Before(Take(bs, i, n), t, Taken(bs, i, n))
    ensures Insert(Take(bs, i, n), t, Taken(bs, i, n)) == bs
  {
    hide Insert, Drop, Before;
    TakeFreeList(bs, i, n);
    OnePlace(Take(bs, i, n), t, Taken(bs, i, n));
    if n < bs[i].size { UndoCut(bs, i, n); } else { UndoUnlink(bs, i); }
  }
}
