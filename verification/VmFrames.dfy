/** How many page frames the operations of vm.c take: one a page, and one a table that is not there yet. */
module VmFrames {
  import opened Base
  import opened VmModel
  import opened VmSpaces
  import opened VmCopy

  /** 1 if slot i of a directory has no table. */
  function Gap(dir: Page, i: nat): nat
    requires i < ENTRIES
  {
    if Present(dir[i]) then 0 else 1
  }

  /** Slots from i up to n without a table. */
  function Absent(dir: Page, i: nat, n: nat): nat
    requires n <= ENTRIES
    decreases n - i
  {
    if i >= n then 0 else Gap(dir, i) + Absent(dir, i + 1, n)
  }

  /** The slots from i up to n have tables now; the others are as they were. */
  predicate TablesMade(dir: Page, dir': Page, i: nat, n: nat)
    requires n <= ENTRIES
  {
    forall k :: 0 <= k < ENTRIES ==> if i <= k < n then Present(dir'[k]) else dir'[k] == dir[k]
  }

  lemma {:induction false} AbsentSame(dir: Page, dir': Page, i: nat, n: nat)
    requires n <= ENTRIES && forall k :: i <= k < n ==> dir'[k] == dir[k]
    ensures Absent(dir', i, n) == Absent(dir, i, n)
    decreases n - i
  {
    if i < n { AbsentSame(dir, dir', i + 1, n); }
  }

  /** With a table in slot i, what is absent from there on is one gap less. */
  lemma AbsentStep(dir: Page, dir': Page, i: nat, next: nat, n: nat)
    requires i < n <= ENTRIES && TablesMade(dir, dir', i, i + 1) && (next == i || next == i + 1)
    ensures Absent(dir, i, n) == Gap(dir, i) + Absent(dir', next, n)
  {
    AbsentSame(dir, dir', i + 1, n);
  }

  /** A page more, in the last slot reached or in the next one. */
  lemma MadeMore(dir: Page, dir1: Page, dir2: Page, i: nat, n: nat, k: nat)
    requires i <= k < ENTRIES && (n == k || n == k + 1) && TablesMade(dir, dir1, i, n) && TablesMade(dir1, dir2, k, k + 1)
    ensures TablesMade(dir, dir2, i, k + 1)
  {
  }

  /** Frames that the pages from a up to hi take, with their tables. */
  function Frames(dir: Page, a: nat, hi: nat): nat
    requires hi <= KERNBASE
  {
    if a >= hi then 0 else (hi - a + PGSIZE - 1) / PGSIZE + Absent(dir, PDX(a), PDX(hi - 1) + 1)
  }

  /** One page, and its table if it is the first there. */
  lemma FramesStep(dir: Page, dir': Page, a: nat, hi: nat)
    requires Aligned(a) && a < hi <= KERNBASE && TablesMade(dir, dir', PDX(a), PDX(a) + 1)
    ensures Frames(dir, a, hi) == 1 + Gap(dir, PDX(a)) + Frames(dir', a + PGSIZE, hi)
  {
    var i, n := PDX(a), PDX(hi - 1) + 1;
    assert i < n;
    if a + PGSIZE < hi {
      PagesStep(a, hi);
      AbsentStep(dir, dir', i, PDX(a + PGSIZE), n);
    } else {
      LastPage(a, hi);
      assert Absent(dir, i + 1, n) == 0;
    }
  }

  lemma PagesStep(a: nat, hi: nat)
    requires Aligned(a) && a + PGSIZE < hi <= KERNBASE
    ensures (hi - a + PGSIZE - 1) / PGSIZE == 1 + (hi - (a + PGSIZE) + PGSIZE - 1) / PGSIZE
    ensures PDX(a + PGSIZE) == PDX(a) || PDX(a + PGSIZE) == PDX(a) + 1
  {
  }

  lemma LastPage(a: nat, hi: nat)
    requires Aligned(a) && a < hi <= a + PGSIZE && hi <= KERNBASE
    ensures (hi - a + PGSIZE - 1) / PGSIZE == 1 && PDX(hi - 1) == PDX(a)
  {
    var v := a / PGSIZE;
    assert (hi - 1) / DIRSPAN == v / ENTRIES && a / DIRSPAN == v / ENTRIES;
  }

  lemma FramesFirst(dir: Page, a: nat, hi: nat)
    requires Aligned(a) && a < hi <= KERNBASE
    ensures 1 + Gap(dir, PDX(a)) <= Frames(dir, a, hi)
  {
    assert PDX(a) < PDX(hi - 1) + 1;
    assert (hi - a + PGSIZE - 1) / PGSIZE >= 1;
  }

  lemma NoFrames(dir: Page, a: nat, hi: nat)
    requires hi <= KERNBASE && a >= hi
    ensures Frames(dir, a, hi) == 0
  {
  }

  // ---------------------------------------------------------------- a range of pages, one at a time

  /** The slots that size bytes from va on lie in. */
  lemma SlotBounds(va: nat, size: nat)
    requires 0 < size && va + size <= TWO32
    ensures PDX(va) == va / PGSIZE / ENTRIES < PDX(va + size - 1) + 1 <= ENTRIES
    ensures PDX(va + size - 1) == (va + size - 1) / PGSIZE / ENTRIES
  {
    assert va / DIRSPAN == va / PGSIZE / ENTRIES;
    assert (va + size - 1) / DIRSPAN == (va + size - 1) / PGSIZE / ENTRIES;
  }

  lemma SlotWithin(va: nat, size: nat, v: nat)
    requires 0 < size && va + size <= TWO32 && va / PGSIZE <= v <= (va + size - 1) / PGSIZE
    ensures PDX(va) <= v / ENTRIES <= PDX(va + size - 1)
  {
    SlotBounds(va, size);
  }

  /** The slot after the last one that the pages from v0 up to v1 lie in. */
  function SlotsEnd(v0: nat, v1: nat): nat {
    if v1 <= v0 then v0 / ENTRIES else (v1 - 1) / ENTRIES + 1
  }

  /** Pages v0 up to v1 of a range that ends in slot n - 1 have their tables, each from a free frame. */
  ghost predicate Taken(dir0: Page, dir: Page, free0: nat, free: nat, v0: nat, v1: nat, n: nat) {
    && v0 <= v1 && SlotsEnd(v0, v1) <= n <= ENTRIES
    && TablesMade(dir0, dir, v0 / ENTRIES, SlotsEnd(v0, v1))
    && free + Absent(dir0, v0 / ENTRIES, n) == free0 + Absent(dir, v1 / ENTRIES, n)
  }

  lemma TakenNone(dir: Page, free: nat, v0: nat, n: nat)
    requires v0 / ENTRIES <= n <= ENTRIES
    ensures Taken(dir, dir, free, free, v0, v0, n)
  {
  }

  lemma TakenStep(dir0: Page, dir1: Page, dir2: Page, free0: nat, free1: nat, free2: nat, v0: nat, v1: nat, n: nat)
    requires Taken(dir0, dir1, free0, free1, v0, v1, n) && v1 / ENTRIES < n
    requires TablesMade(dir1, dir2, v1 / ENTRIES, v1 / ENTRIES + 1) && free2 == free1 - Gap(dir1, v1 / ENTRIES)
    ensures Taken(dir0, dir2, free0, free2, v0, v1 + 1, n)
  {
    var k := v1 / ENTRIES;
    assert SlotsEnd(v0, v1) == k || SlotsEnd(v0, v1) == k + 1;
    MadeMore(dir0, dir1, dir2, v0 / ENTRIES, SlotsEnd(v0, v1), k);
    AbsentStep(dir1, dir2, k, (v1 + 1) / ENTRIES, n);
  }

  lemma TakenBounds(dir0: Page, dir: Page, free0: nat, free: nat, v0: nat, v1: nat, n: nat)
    requires Taken(dir0, dir, free0, free, v0, v1, n)
    ensures v0 / ENTRIES <= n <= ENTRIES
  {
  }

  /** No frame for a table that is not there: the range needs more than there were. */
  lemma TakenFail(dir0: Page, dir: Page, free0: nat, v0: nat, v1: nat, n: nat)
    requires Taken(dir0, dir, free0, 0, v0, v1, n) && v1 / ENTRIES < n && Gap(dir, v1 / ENTRIES) == 1
    ensures free0 < Absent(dir0, v0 / ENTRIES, n)
  {
  }

  lemma TakenAll(dir0: Page, dir: Page, free0: nat, free: nat, v0: nat, v1: nat, n: nat)
    requires Taken(dir0, dir, free0, free, v0, v1, n) && v0 < v1 && SlotsEnd(v0, v1) == n
    ensures free == free0 - Absent(dir0, v0 / ENTRIES, n) && TablesMade(dir0, dir, v0 / ENTRIES, n)
  {
    var next := v1 / ENTRIES;
    assert n - 1 <= next && v0 / ENTRIES <= n - 1;
    if next < n { assert Absent(dir, next + 1, n) == 0 && Present(dir[n - 1]); }
  }

  lemma OneSlot(dir: Page, a: nat)
    requires Aligned(a) && a < KERNBASE
    ensures PDX(a + PGSIZE - 1) == PDX(a) && Absent(dir, PDX(a), PDX(a) + 1) == Gap(dir, PDX(a))
  {
    LastPage(a, a + PGSIZE);
    assert Absent(dir, PDX(a) + 1, PDX(a) + 1) == 0;
  }

  // ---------------------------------------------------------------- the kernel's tables

  /** Directory and tables of the kernel half. */
  const KERNELFRAMES := 1 + PHYSTOP / DIRSPAN + (TWO32 - DEVSPACE) / DIRSPAN

  /** The slot after the last one that the first k mappings reach. */
  function KernelEnd(data: nat, k: nat): nat
    requires DataAt(data)
  {
    if k == 0 then USERSLOTS
    else if k == 1 then USERSLOTS + 1
    else if k == 2 then (KERNBASE + data - 1) / DIRSPAN + 1
    else USERSLOTS + PHYSTOP / DIRSPAN
  }

  /** Slot i has a table once the first k mappings are in. */
  predicate KernelSlot(data: nat, k: nat, i: nat)
    requires DataAt(data)
  {
    USERSLOTS <= i < KernelEnd(data, k) || (k >= 4 && DEVSPACE / DIRSPAN <= i < ENTRIES)
  }

  predicate KernelSlots(dir: Page, data: nat, k: nat)
    requires DataAt(data)
  {
    forall i :: 0 <= i < ENTRIES ==> (Present(dir[i]) <==> KernelSlot(data, k, i))
  }

  /** Frames that the first k mappings take, and the directory. */
  function KernelFrames(data: nat, k: nat): nat
    requires DataAt(data)
  {
    if k < 4 then 1 + KernelEnd(data, k) - USERSLOTS else KERNELFRAMES
  }

  /** The slots of mapping k. */
  lemma KernelReach(data: nat, k: nat)
    requires DataAt(data) && k < 4
    ensures var m := Kmap(data)[k];
            && 0 < (m.end - m.start) % TWO32 && m.virt + (m.end - m.start) % TWO32 <= TWO32
            && var i, n := PDX(m.virt), PDX(m.virt + (m.end - m.start) % TWO32 - 1) + 1;
            && n == (if k < 3 then KernelEnd(data, k + 1) else ENTRIES)
            && (if k < 3 then i <= KernelEnd(data, k) <= i + 1 && KernelEnd(data, k) <= n && USERSLOTS <= i
                else i == DEVSPACE / DIRSPAN && KernelEnd(data, k) <= i)
  {
  }

  lemma {:induction false} AbsentCount(dir: Page, i: nat, e: nat, n: nat)
    requires i <= n <= ENTRIES && forall k :: i <= k < n ==> (Present(dir[k]) <==> k < e)
    ensures Absent(dir, i, n) == if n <= e then 0 else if i < e then n - e else n - i
    decreases n - i
  {
    if i < n { AbsentCount(dir, i + 1, e, n); }
  }

  /** Mapping k needs the frames by which KernelFrames grows, and leaves the next slots. */
  lemma KernelStep(dir: Page, data: nat, k: nat)
    requires DataAt(data) && k < 4 && KernelSlots(dir, data, k)
    ensures var m := Kmap(data)[k];
            && 0 < (m.end - m.start) % TWO32 && m.virt + (m.end - m.start) % TWO32 <= TWO32
            && var i, n := PDX(m.virt), PDX(m.virt + (m.end - m.start) % TWO32 - 1) + 1;
            && KernelFrames(data, k) + Absent(dir, i, n) == KernelFrames(data, k + 1)
            && forall dir': Page :: TablesMade(dir, dir', i, n) ==> KernelSlots(dir', data, k + 1)
  {
    KernelReach(data, k);
    var m := Kmap(data)[k];
    var i, n := PDX(m.virt), PDX(m.virt + (m.end - m.start) % TWO32 - 1) + 1;
    AbsentCount(dir, i, if k < 3 then KernelEnd(data, k) else i, n);
  }

  lemma KernelNone(data: nat)
    requires DataAt(data)
    ensures KernelSlots(ZeroPage(), data, 0) && KernelFrames(data, 0) == 1
  {
  }

  lemma KernelAll(data: nat)
    requires DataAt(data)
    ensures KernelFrames(data, 4) == KERNELFRAMES
  {
  }

  lemma KernelFramesBound(data: nat, k: nat)
    requires DataAt(data) && k <= 4
    ensures KernelFrames(data, k) <= KERNELFRAMES
  {
  }

  /** What copyuvm takes: the kernel half, a frame a page, a table every 4 MB. */
  function CopyFrames(sz: nat): nat {
    KERNELFRAMES + (sz + PGSIZE - 1) / PGSIZE + (sz + DIRSPAN - 1) / DIRSPAN
  }

  /** Every page below sz was there to be copied. */
  lemma CopiedPresent(owner0: Owners, mem0: Memory, mem: Memory, p: nat, c: nat, sz: nat, data: nat)
    requires p in mem0 && c in mem && Copied(owner0, mem0, mem, p, c, sz, data)
    ensures AllPresent(mem0, p, sz)
  {
    hide Pte;
    forall k, l | 0 <= k < ENTRIES && 0 <= l < ENTRIES && AddrOf(k, l) < sz ensures Present(Pte(mem0, p, k, l)) {
      assert CopyEntry(owner0, mem0, mem, Pte(mem0, p, k, l), Pte(mem, c, k, l));
    }
  }

  /** A space with only the kernel's tables: every user page needs its table. */
  lemma UserFrames(dir: Page, data: nat, sz: nat)
    requires DataAt(data) && KernelSlots(dir, data, 4) && sz <= KERNBASE
    ensures Frames(dir, 0, sz) == (sz + PGSIZE - 1) / PGSIZE + (sz + DIRSPAN - 1) / DIRSPAN
  {
    if sz > 0 {
      var n := PDX(sz - 1) + 1;
      assert n <= USERSLOTS && n == (sz + DIRSPAN - 1) / DIRSPAN;
      AbsentCount(dir, 0, 0, n);
    }
  }
}
