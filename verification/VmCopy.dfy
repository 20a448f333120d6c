/** A new address space beside the old ones: the kernel half, and a copy of a parent's user half. */
module VmCopy {
  import opened Base
  import opened VmModel
  import opened VmSpaces

  // ---------------------------------------------------------------- a space beside the others

  /** Frames only moved from the free list into the new space c. */
  ghost predicate NewSpace(owner0: Owners, owner: Owners, c: nat) {
    && owner.Keys == owner0.Keys && c in owner0 && owner0[c] == Free && IsDir(owner, c)
    && forall f :: f in owner0 ==> owner[f] == owner0[f] || (owner0[f] == Free && Belongs(owner, f, c))
  }

  /** c was built from free frames; every other space and every page in use is untouched. */
  ghost predicate Beside(owner0: Owners, owner: Owners, mem0: Memory, mem: Memory, c: nat) {
    NewSpace(owner0, owner, c) && mem.Keys == mem0.Keys && SameSpaces(owner0, mem0, mem) && DataKept(owner0, mem0, mem)
  }

  lemma BesideTables(owner0: Owners, owner1: Owners, owner2: Owners, mem0: Memory, mem1: Memory, mem2: Memory,
                     c: nat, v0: nat, v1: nat, f0: nat, perm: nat)
    requires perm < PGSIZE && Beside(owner0, owner1, mem0, mem1, c) && NewTables(owner1, owner2, c)
    requires RangeMapped(owner1, mem1, mem2, c, v0, v1, f0, perm) && DataKept(owner1, mem1, mem2)
    ensures Beside(owner0, owner2, mem0, mem2, c)
  {
    hide Pte, Entry, PageNo;
    BesideData(owner0, owner1, mem0, mem1, mem2, c);
    BesideSpaces(owner0, owner1, mem0, mem1, mem2, c, v0, v1, f0, perm);
    assert forall f :: f in owner0 ==> owner2[f] == owner0[f] || (owner0[f] == Free && Belongs(owner2, f, c));
  }

  lemma BesideData(owner0: Owners, owner1: Owners, mem0: Memory, mem1: Memory, mem2: Memory, c: nat)
    requires NewSpace(owner0, owner1, c) && DataKept(owner0, mem0, mem1) && DataKept(owner1, mem1, mem2)
    ensures DataKept(owner0, mem0, mem2)
  {
  }

  lemma BesideSpaces(owner0: Owners, owner1: Owners, mem0: Memory, mem1: Memory, mem2: Memory,
                     c: nat, v0: nat, v1: nat, f0: nat, perm: nat)
    requires perm < PGSIZE && NewSpace(owner0, owner1, c) && SameSpaces(owner0, mem0, mem1) && mem1.Keys == mem0.Keys
    requires RangeMapped(owner1, mem1, mem2, c, v0, v1, f0, perm)
    ensures SameSpaces(owner0, mem0, mem2)
  {
    hide Pte, Entry, PageNo;
    forall e: nat, k: nat, l: nat | e in mem0 && IsDir(owner0, e) && k < ENTRIES && l < ENTRIES
      ensures Pte(mem2, e, k, l) == Pte(mem0, e, k, l)
    {
      assert e != c && IsDir(owner1, e);
      assert Pte(mem1, e, k, l) == Pte(mem0, e, k, l);
    }
  }

  /** Freeing the new space puts back the owners there were before it. */
  lemma BesideGone(owner0: Owners, owner: Owners, mem0: Memory, mem: Memory, mem': Memory, free0: seq<nat>, c: nat)
    requires Exact(mem0, owner0, free0) && Beside(owner0, owner, mem0, mem, c)
    requires SameSpaces(Released(owner, c, Free), mem, mem') && DataKept(Released(owner, c, Free), mem, mem')
    ensures Released(owner, c, Free) == owner0 && SameSpaces(owner0, mem0, mem') && DataKept(owner0, mem0, mem')
  {
    hide Pte;
    var r := Released(owner, c, Free);
    forall f: nat | f in owner0 ensures r[f] == owner0[f] {
      assert PlaceOk(mem0, owner0, free0, f);
    }
    assert r == owner0;
    SameJoin(owner0, owner0, mem0, mem, mem');
  }

  // ---------------------------------------------------------------- the kernel half

  const EXTMEM := 0x10_0000
  const DEVSPACE := 0xFE00_0000
  const PTE_W := 2

  datatype Kmapping = Kmapping(virt: nat, start: nat, end: nat, perm: nat)

  /** The table of kernel mappings; data is the physical address where the kernel's data begins. */
  function Kmap(data: nat): (r: seq<Kmapping>)
    ensures |r| == 4
  {
    [Kmapping(KERNBASE, 0, EXTMEM, PTE_W),
     Kmapping(KERNBASE + EXTMEM, EXTMEM, data, 0),
     Kmapping(KERNBASE + data, data, PHYSTOP, PTE_W),
     Kmapping(DEVSPACE, DEVSPACE, 0, PTE_W)]
  }

  predicate DataAt(data: nat) { Aligned(data) && EXTMEM < data < PHYSTOP }

  const KPAGE := KERNBASE / PGSIZE

  /** What every address space has at virtual page v: physical memory above KERNBASE, devices at the top. */
  function KernelEntry(v: nat, data: nat): nat {
    if KPAGE <= v < KPAGE + PHYSTOP / PGSIZE then
      Entry(v - KPAGE, if KPAGE + EXTMEM / PGSIZE <= v < KPAGE + data / PGSIZE then 0 else PTE_W)
    else if DEVSPACE / PGSIZE <= v then Entry(v, PTE_W)
    else 0
  }

  /** The first page of mapping k; past the last one, the end of the address space. */
  function StartPage(data: nat, k: nat): nat {
    if k < 4 then Kmap(data)[k].virt / PGSIZE else TWO32 / PGSIZE
  }

  /** The pages below the k-th mapping are set up, the others are empty. */
  ghost predicate KernelUpTo(mem: Memory, d: nat, data: nat, k: nat)
    requires d in mem
  {
    forall i, j {:trigger Pte(mem, d, i, j)} :: 0 <= i < ENTRIES && 0 <= j < ENTRIES ==>
      Pte(mem, d, i, j) == if PageNo(i, j) < StartPage(data, k) then KernelEntry(PageNo(i, j), data) else 0
  }

  /** The bits of an entry that let it be written through and let user code use it. */
  predicate WriteBit(w: nat) { w / 2 % 2 == 1 }

  predicate UserBit(w: nat) { w / 4 % 2 == 1 }

  lemma EntryBits(f: nat, flags: nat)
    requires flags == 0 || flags == PTE_W
    ensures !UserBit(Entry(f, flags)) && (WriteBit(Entry(f, flags)) <==> flags == PTE_W)
  {
    assert f * PGSIZE / 4 == f * 1024 && f * PGSIZE / 2 == f * 2048;
  }

  /**
   A space as setupkvm makes it, bit by bit: user code can use none of it, it can be written exactly
   outside the kernel's text, and it shows physical memory from KERNBASE on and the devices at their own addresses.
   */
  lemma KernelBits(mem: Memory, d: nat, data: nat, i: nat, j: nat)
    requires d in mem && DataAt(data) && KernelUpTo(mem, d, data, 4) && i < ENTRIES && j < ENTRIES
    ensures var w, a := Pte(mem, d, i, j), PageNo(i, j) * 4096;
            && !UserBit(w)
            && (Present(w) <==> 0x8000_0000 <= a < 0x8E00_0000 || 0xFE00_0000 <= a)
            && (Present(w) ==> (WriteBit(w) <==> a < 0x8010_0000 || 0x8000_0000 + data <= a))
            && (Present(w) ==> w / 4096 * 4096 == if a < 0xFE00_0000 then a - 0x8000_0000 else a)
  {
    hide Entry, UserBit, WriteBit;
    var v := PageNo(i, j);
    assert v < StartPage(data, 4);
    assert Pte(mem, d, i, j) == KernelEntry(v, data);
    NoBits();
    if KPAGE <= v < KPAGE + PHYSTOP / PGSIZE {
      EntryBits(v - KPAGE, if KPAGE + EXTMEM / PGSIZE <= v < KPAGE + data / PGSIZE then 0 else PTE_W);
    } else if DEVSPACE / PGSIZE <= v {
      EntryBits(v, PTE_W);
    }
  }

  lemma NoBits()
    ensures !UserBit(0) && !WriteBit(0)
  {
  }

  lemma KernelMore(owner: Owners, mem: Memory, mem': Memory, d: nat, data: nat, k: nat)
    requires DataAt(data) && k < 4 && d in mem && IsDir(owner, d) && KernelUpTo(mem, d, data, k)
    requires var m := Kmap(data)[k];
             RangeMapped(owner, mem, mem', d, m.virt / PGSIZE,
                         (m.virt + (m.end - m.start) % TWO32 - 1) / PGSIZE + 1, m.start / PGSIZE, m.perm)
    ensures KernelUpTo(mem', d, data, k + 1)
  {
    hide Pte, Entry;
    var m := Kmap(data)[k];
    var v1 := (m.virt + (m.end - m.start) % TWO32 - 1) / PGSIZE + 1;
    RangeEnd(data, k);
    forall i, j | 0 <= i < ENTRIES && 0 <= j < ENTRIES
      ensures Pte(mem', d, i, j) == if PageNo(i, j) < StartPage(data, k + 1) then KernelEntry(PageNo(i, j), data) else 0
    {
      assert Pte(mem, d, i, j) == if PageNo(i, j) < StartPage(data, k) then KernelEntry(PageNo(i, j), data) else 0;
    }
  }

  lemma RangeEnd(data: nat, k: nat)
    requires DataAt(data) && k < 4
    ensures var m := Kmap(data)[k];
            && 0 < (m.end - m.start) % TWO32 && m.virt + (m.end - m.start) % TWO32 <= TWO32 && Aligned(m.start) && Aligned(m.virt)
            && (m.virt + (m.end - m.start) % TWO32 - 1) / PGSIZE + 1 ==
               if k == 0 then KPAGE + EXTMEM / PGSIZE else if k == 1 then KPAGE + data / PGSIZE
               else if k == 2 then KPAGE + PHYSTOP / PGSIZE else TWO32 / PGSIZE
  {
  }

  lemma Permission(data: nat, k: nat)
    requires k < 4
    ensures Kmap(data)[k].perm < PGSIZE && (DataAt(data) ==> Kmap(data)[k].virt >= KERNBASE)
  {
  }

  /** The kernel's mappings lie above KERNBASE. */
  lemma HeldNone(owner: Owners, data: nat, k: nat)
    requires DataAt(data) && k < 4
    ensures var m := Kmap(data)[k];
            && 0 < (m.end - m.start) % TWO32 && m.virt / PGSIZE / ENTRIES >= USERSLOTS
            && HeldFor(owner, m.virt / PGSIZE, (m.virt + (m.end - m.start) % TWO32 - 1) / PGSIZE + 1, m.start / PGSIZE)
  {
  }

  /** No page of a mapping still to come is mapped: mappages finds nothing to remap. */
  lemma KernelEmpty(mem: Memory, d: nat, data: nat, k: nat, v: nat)
    requires d in mem && k < 4 && KernelUpTo(mem, d, data, k)
    ensures StartPage(data, k) <= v < TWO32 / PGSIZE ==> !Present(Pte(mem, d, v / ENTRIES, v % ENTRIES))
  {
    hide Pte, KernelEntry, StartPage;
    if v < TWO32 / PGSIZE {
      assert PageNo(v / ENTRIES, v % ENTRIES) == v;
      assert Pte(mem, d, v / ENTRIES, v % ENTRIES) == Pte(mem, d, v / ENTRIES, v % ENTRIES);
    }
  }

  /** The frame just allocated, zeroed, is an empty space. */
  lemma StartSpace(owner0: Owners, mem0: Memory, free: seq<nat>, d: nat, data: nat)
    requires d in owner0 && owner0[d] == Free && Exact(mem0, owner0[d := Held], free) && DataAt(data)
    ensures var mem := mem0[d := ZeroPage()];
            && d in mem0 && Exact(mem, owner0[d := Directory], free) && mem.Keys == mem0.Keys
            && Beside(owner0, owner0[d := Directory], mem0, mem, d) && KernelUpTo(mem, d, data, 0)
  {
    hide Pte, ZeroPage, KernelEntry;
    var held, mem := owner0[d := Held], mem0[d := ZeroPage()];
    DataWrite(mem0, held, free, d, ZeroPage());
    NewDirectory(mem, held, free, d);
    assert held[d := Directory] == owner0[d := Directory];
    FewerSpaces(held, owner0, mem0, mem);
    forall i, j | 0 <= i < ENTRIES && 0 <= j < ENTRIES
      ensures PageNo(i, j) < StartPage(data, 0) ==> KernelEntry(PageNo(i, j), data) == 0
    {
      BelowKernel(PageNo(i, j), data);
    }
  }

  lemma BelowKernel(v: nat, data: nat)
    ensures StartPage(data, 0) == KPAGE && (v < KPAGE ==> KernelEntry(v, data) == 0)
  {
  }

  // ---------------------------------------------------------------- the copy

  /** The child's entry w' has the parent's flags and, on a frame that was free, the parent's bytes. */
  ghost predicate CopyEntry(owner0: Owners, mem0: Memory, mem: Memory, w: nat, w': nat) {
    && Present(w) && Present(w') && Flags(w') == Flags(w)
    && Frame(w) in mem0 && Frame(w') in mem && mem[Frame(w')] == mem0[Frame(w)]
    && Frame(w') in owner0 && owner0[Frame(w')] == Free
  }

  /** c maps copies of p's pages below hi, the kernel half, and nothing else. */
  ghost predicate Copied(owner0: Owners, mem0: Memory, mem: Memory, p: nat, c: nat, hi: nat, data: nat)
    requires p in mem0 && c in mem
  {
    forall k, l {:trigger Pte(mem, c, k, l)} :: 0 <= k < ENTRIES && 0 <= l < ENTRIES ==>
      if AddrOf(k, l) < hi then CopyEntry(owner0, mem0, mem, Pte(mem0, p, k, l), Pte(mem, c, k, l))
      else Pte(mem, c, k, l) == KernelEntry(PageNo(k, l), data)
  }

  /** Frame f, filled with bytes, mapped at slot (i, j) of c. */
  lemma BesideUser(owner0: Owners, owner1: Owners, owner2: Owners, mem0: Memory, mem1: Memory, mem2: Memory, free1: seq<nat>,
                   c: nat, i: nat, j: nat, f: nat, bytes: Page, flags: nat)
    requires flags < PGSIZE && i < USERSLOTS && Beside(owner0, owner1, mem0, mem1, c) && Exact(mem1, owner1, free1)
    requires f in owner1 && owner1[f] == Free && SameSpaces(owner1, mem1, mem1[f := bytes])
    requires RangeMapped(owner1[f := Held], mem1[f := bytes], mem2, c, PageNo(i, j), PageNo(i, j) + 1, f, flags)
    requires DataKept(owner1[f := Held], mem1[f := bytes], mem2)
    requires NewTables(Given(owner1[f := Held], c, i, j, f), owner2, c)
    ensures Beside(owner0, owner2, mem0, mem2, c) && owner0[f] == Free && f in mem2 && mem2[f] == bytes
  {
    hide Pte, Entry, PageNo;
    var memb := mem1[f := bytes];
    assert owner0[f] == Free;
    UserOwners(owner0, owner1, owner2, c, i, j, f);
    BesideBytes(owner0, owner1, mem0, mem1, mem2, c, f, bytes);
    forall e: nat, k: nat, l: nat | e in mem0 && IsDir(owner0, e) && k < ENTRIES && l < ENTRIES
      ensures Pte(mem2, e, k, l) == Pte(mem0, e, k, l)
    {
      assert e != c && IsDir(owner1, e) && IsDir(owner1[f := Held], e);
      assert Pte(memb, e, k, l) == Pte(mem1, e, k, l) == Pte(mem0, e, k, l);
    }
  }

  lemma UserOwners(owner0: Owners, owner1: Owners, owner2: Owners, c: nat, i: nat, j: nat, f: nat)
    requires NewSpace(owner0, owner1, c) && f in owner1 && owner1[f] == Free && i < USERSLOTS
    requires NewTables(Given(owner1[f := Held], c, i, j, f), owner2, c)
    ensures NewSpace(owner0, owner2, c)
  {
  }

  lemma BesideBytes(owner0: Owners, owner1: Owners, mem0: Memory, mem1: Memory, mem2: Memory, c: nat, f: nat, bytes: Page)
    requires NewSpace(owner0, owner1, c) && DataKept(owner0, mem0, mem1) && mem1.Keys == owner1.Keys
    requires f in owner1 && owner1[f] == Free && DataKept(owner1[f := Held], mem1[f := bytes], mem2)
    ensures DataKept(owner0, mem0, mem2) && f in mem2 && mem2[f] == bytes
  {
  }

  lemma PresentFlag(w: nat)
    ensures Present(w) <==> Flags(w) % 2 == 1
  {
  }

  /** One iteration of copyuvm. */
  lemma CopyMore(owner0: Owners, owner1: Owners, mem0: Memory, mem1: Memory, mem2: Memory, free1: seq<nat>,
                 p: nat, c: nat, i: nat, j: nat, hi: nat, data: nat, f: nat)
    requires p in mem0 && c in mem1 && IsDir(owner1, c) && Exact(mem1, owner1, free1) && i < USERSLOTS && j < ENTRIES
    requires Copied(owner0, mem0, mem1, p, c, AddrOf(i, j), data) && NewSpace(owner0, owner1, c)
    requires Present(Pte(mem0, p, i, j)) && Frame(Pte(mem0, p, i, j)) in mem0
    requires var bytes, flags := mem0[Frame(Pte(mem0, p, i, j))], Flags(Pte(mem0, p, i, j));
             && f in owner1 && owner1[f] == Free && f in owner0 && owner0[f] == Free && SameSpaces(owner1, mem1, mem1[f := bytes])
             && RangeMapped(owner1[f := Held], mem1[f := bytes], mem2, c, PageNo(i, j), PageNo(i, j) + 1, f, flags)
             && DataKept(owner1[f := Held], mem1[f := bytes], mem2) && f in mem2 && mem2[f] == bytes
    requires AddrOf(i, j) < hi <= AddrOf(i, j) + PGSIZE
    ensures c in mem2 && Copied(owner0, mem0, mem2, p, c, hi, data)
  {
    hide Pte, Entry, KernelEntry, PageNo, DataKept, NewSpace, Flags, Frame, Present;
    PresentFlag(Pte(mem0, p, i, j));
    var bytes := mem0[Frame(Pte(mem0, p, i, j))];
    var memb := mem1[f := bytes];
    forall k, l | 0 <= k < ENTRIES && 0 <= l < ENTRIES
      ensures if AddrOf(k, l) < hi then CopyEntry(owner0, mem0, mem2, Pte(mem0, p, k, l), Pte(mem2, c, k, l))
              else Pte(mem2, c, k, l) == KernelEntry(PageNo(k, l), data)
    {
      assert Pte(memb, c, k, l) == Pte(mem1, c, k, l);
      SamePage(k, l, i, j);
      assert AddrOf(k, l) == AddrOf(i, j) ==> k == i && l == j;
      if AddrOf(k, l) < AddrOf(i, j) {
        assert UserEntryOk(mem1, owner1, c, k, l);
        assert k < USERSLOTS;
        CopyKept(owner0, owner1, mem0, mem1, mem2, f, bytes, Pte(mem0, p, k, l), Pte(mem1, c, k, l));
      }
    }
  }

  lemma CopyKept(owner0: Owners, owner1: Owners, mem0: Memory, mem1: Memory, mem2: Memory, f: nat, bytes: Page, w: nat, w': nat)
    requires CopyEntry(owner0, mem0, mem1, w, w') && Frame(w') in owner1 && owner1[Frame(w')].User?
    requires f in owner1 && owner1[f] == Free && DataKept(owner1[f := Held], mem1[f := bytes], mem2)
    ensures CopyEntry(owner0, mem0, mem2, w, w')
  {
  }

  /** mappages failed in the middle of a copy: only tables of c were added. */
  lemma BesideHeld(owner0: Owners, owner1: Owners, owner2: Owners, mem0: Memory, mem1: Memory, mem2: Memory, free1: seq<nat>,
                   c: nat, v: nat, f: nat, bytes: Page, flags: nat)
    requires flags < PGSIZE && Beside(owner0, owner1, mem0, mem1, c) && Exact(mem1, owner1, free1)
    requires f in owner1 && owner1[f] == Free && SameSpaces(owner1, mem1, mem1[f := bytes])
    requires RangeMapped(owner1[f := Held], mem1[f := bytes], mem2, c, v, v, f, flags)
    requires DataKept(owner1[f := Held], mem1[f := bytes], mem2) && NewTables(owner1[f := Held], owner2, c)
    ensures f in owner2 && owner2[f] == Held && Beside(owner0, owner2[f := Free], mem0, mem2, c)
  {
    hide Pte, Entry, PageNo;
    hide NewSpace, DataKept, NewTables, Exact;
    var memb := mem1[f := bytes];
    assert mem1.Keys == owner1.Keys by { SameKeys(mem1, owner1, free1); }
    BesideBytes(owner0, owner1, mem0, mem1, mem2, c, f, bytes);
    HeldOwners(owner0, owner1, owner2, c, f);
    forall e: nat, k: nat, l: nat | e in mem0 && IsDir(owner0, e) && k < ENTRIES && l < ENTRIES
      ensures Pte(mem2, e, k, l) == Pte(mem0, e, k, l)
    {
      assert Pte(memb, e, k, l) == Pte(mem1, e, k, l) == Pte(mem0, e, k, l);
    }
  }

  lemma HeldOwners(owner0: Owners, owner1: Owners, owner2: Owners, c: nat, f: nat)
    requires NewSpace(owner0, owner1, c) && f in owner1 && owner1[f] == Free && NewTables(owner1[f := Held], owner2, c)
    ensures NewSpace(owner0, owner2[f := Free], c) && f in owner2 && owner2[f] == Held
    ensures forall e: nat :: IsDir(owner0, e) ==> e != c && IsDir(owner1, e) && IsDir(owner1[f := Held], e)
  {
  }

  lemma BesideFreed(owner0: Owners, owner: Owners, mem0: Memory, mem: Memory, c: nat, f: nat, junk: Page)
    requires Beside(owner0, owner[f := Free], mem0, mem, c) && f in owner && f in mem
    requires SameSpaces(owner[f := Free], mem, mem[f := junk])
    ensures Beside(owner0, owner[f := Free], mem0, mem[f := junk], c)
  {
    hide Pte;
    assert owner0[f] == Free;
    FewerSpaces(owner[f := Free], owner0, mem, mem[f := junk]) by {
      assert forall d: nat :: IsDir(owner0, d) ==> IsDir(owner[f := Free], d);
    }
    SameJoin(owner0, owner0, mem0, mem, mem[f := junk]);
  }

  /** Before the first page is copied the child has the kernel half only. */
  lemma CopyNone(owner0: Owners, mem0: Memory, mem: Memory, p: nat, c: nat, data: nat)
    requires p in mem0 && c in mem && KernelUpTo(mem, c, data, 4)
    ensures Copied(owner0, mem0, mem, p, c, 0, data)
  {
    hide Pte, KernelEntry;
  }

  lemma ChildEmpty(owner0: Owners, mem0: Memory, mem: Memory, p: nat, c: nat, i: nat, j: nat, data: nat)
    requires p in mem0 && c in mem && i < USERSLOTS && j < ENTRIES && Copied(owner0, mem0, mem, p, c, AddrOf(i, j), data)
    ensures !Present(Pte(mem, c, i, j))
  {
    hide Pte;
    assert Pte(mem, c, i, j) == KernelEntry(PageNo(i, j), data);
  }

  lemma FreeBefore(owner0: Owners, owner: Owners, mem0: Memory, mem: Memory, c: nat, f: nat)
    requires Beside(owner0, owner, mem0, mem, c) && f in owner && owner[f] == Free
    ensures f in owner0 && owner0[f] == Free && NewSpace(owner0, owner, c)
  {
  }

  lemma BesideDirs(owner0: Owners, owner: Owners, mem0: Memory, mem: Memory, p: nat, c: nat)
    requires Beside(owner0, owner, mem0, mem, c) && IsDir(owner0, p)
    ensures IsDir(owner, p) && IsDir(owner, c)
  {
  }

  /** The parent's entries and bytes are as they were when the copy began. */
  lemma ParentPage(owner0: Owners, owner: Owners, mem0: Memory, mem: Memory, free0: seq<nat>, p: nat, c: nat, i: nat, j: nat)
    requires Exact(mem0, owner0, free0) && Beside(owner0, owner, mem0, mem, c)
    requires IsDir(owner0, p) && p in mem0 && p in mem && i < USERSLOTS && j < ENTRIES
    ensures Pte(mem, p, i, j) == Pte(mem0, p, i, j)
    ensures var w := Pte(mem0, p, i, j); Present(w) ==> Frame(w) in mem0 && Frame(w) in mem && mem[Frame(w)] == mem0[Frame(w)]
  {
    hide Pte;
    assert UserEntryOk(mem0, owner0, p, i, j);
  }

  /** Every user page below sz is mapped. */
  ghost predicate AllPresent(mem: Memory, p: nat, sz: nat)
    requires p in mem
  {
    forall k, l :: 0 <= k < USERSLOTS && 0 <= l < ENTRIES && AddrOf(k, l) < sz ==> Present(Pte(mem, p, k, l))
  }

  lemma PageAbsent(mem: Memory, p: nat, sz: nat, i: nat, j: nat)
    requires p in mem && i < USERSLOTS && j < ENTRIES && AddrOf(i, j) < sz
    ensures !Present(Pte(mem, p, i, j)) ==> !AllPresent(mem, p, sz)
  {
  }

  lemma NoTablePte(mem: Memory, d: nat, i: nat, j: nat)
    requires d in mem && i < ENTRIES && j < ENTRIES && !Present(mem[d][i])
    ensures Pte(mem, d, i, j) == 0 && !Present(0)
  {
  }
}
