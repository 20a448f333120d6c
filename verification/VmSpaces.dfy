/** Address spaces as values: what mapping, unmapping and tearing down a space change (vm.c). */
module VmSpaces {
  import opened Base
  import opened VmModel

  const KERNBASE := 0x8000_0000
  const PHYSTOP := 0xE00_0000
  const DIRSPAN := 0x40_0000

  function PGROUNDUP(sz: nat): nat { (sz + PGSIZE - 1) / PGSIZE * PGSIZE }

  function PDX(va: nat): (i: nat)
    requires va < TWO32
    ensures i < ENTRIES
  {
    va / DIRSPAN
  }

  function PTX(va: nat): (j: nat)
    ensures j < ENTRIES
  {
    va / PGSIZE % ENTRIES
  }

  /** The virtual address that slot j of table i translates. */
  function AddrOf(i: nat, j: nat): nat { i * DIRSPAN + j * PGSIZE }

  predicate Aligned(a: nat) { a % PGSIZE == 0 }

  lemma Indices(va: nat)
    requires va < TWO32 && Aligned(va)
    ensures AddrOf(PDX(va), PTX(va)) == va
    ensures va < KERNBASE ==> PDX(va) < USERSLOTS
    ensures va >= KERNBASE ==> PDX(va) >= USERSLOTS
  {
    var v := va / PGSIZE;
    assert va == v * PGSIZE;
    assert va / DIRSPAN == v / ENTRIES;
  }

  lemma RoundedUp(sz: nat)
    ensures Aligned(PGROUNDUP(sz)) && sz <= PGROUNDUP(sz) < sz + PGSIZE
  {
  }

  lemma NextPage(a: nat)
    requires Aligned(a)
    ensures Aligned(a + PGSIZE)
  {
  }

  /** The last page before the next directory slot. */
  lemma NextSlot(a: nat)
    requires a < TWO32 && Aligned(a)
    ensures a + PGSIZE <= (PDX(a) + 1) * DIRSPAN <= a + DIRSPAN && Aligned((PDX(a) + 1) * DIRSPAN - PGSIZE)
  {
    var v := a / PGSIZE;
    assert a == v * PGSIZE && PDX(a) == v / ENTRIES;
    assert (PDX(a) + 1) * DIRSPAN == (v / ENTRIES + 1) * ENTRIES * PGSIZE;
  }

  // ---------------------------------------------------------------- unmapping a range

  predicate InRange(p: Place, d: nat, lo: nat, hi: nat) {
    p.User? && p.dir == d && lo <= AddrOf(p.i, p.j) < hi
  }

  /** The user pages of d from lo up to hi are unmapped and free; nothing else changed. */
  ghost predicate Unmapped(owner: Owners, owner': Owners, mem: Memory, mem': Memory, d: nat, lo: nat, hi: nat) {
    && mem'.Keys == mem.Keys && owner'.Keys == owner.Keys && DataKept(owner', mem, mem')
    && (forall f :: f in owner ==> owner'[f] == if InRange(owner[f], d, lo, hi) then Free else owner[f])
    && (forall e, k, l {:trigger Pte(mem', e, k, l)} ::
          e in mem && IsDir(owner, e) && 0 <= k < ENTRIES && 0 <= l < ENTRIES ==>
            Pte(mem', e, k, l) ==
              if e == d && k < USERSLOTS && lo <= AddrOf(k, l) < hi && Present(Pte(mem, e, k, l)) then 0 else Pte(mem, e, k, l))
  }

  lemma UnmapNone(owner: Owners, mem: Memory, d: nat, lo: nat, hi: nat)
    requires hi <= lo
    ensures Unmapped(owner, owner, mem, mem, d, lo, hi)
  {
  }

  /** One page further: it was mapped and deallocuvm's step was taken. */
  lemma UnmapPage(owner: Owners, owner1: Owners, owner2: Owners, mem: Memory, mem1: Memory, mem2: Memory,
                  free1: seq<nat>, d: nat, lo: nat, i: nat, j: nat, hi: nat, f: nat)
    requires Unmapped(owner, owner1, mem, mem1, d, lo, AddrOf(i, j)) && lo <= AddrOf(i, j)
    requires d in mem && IsDir(owner, d) && i < USERSLOTS && j < ENTRIES && mem.Keys == owner.Keys
    requires Present(Pte(mem1, d, i, j)) && f in owner1 && owner1[f] == User(d, i, j) && owner2 == owner1[f := Free]
    requires OneEntry(owner1, mem1, mem2, d, i, j, 0) && DataKept(owner2, mem1, mem2)
    requires Exact(mem1, owner1, free1) && AddrOf(i, j) < hi <= AddrOf(i, j) + PGSIZE
    ensures Unmapped(owner, owner2, mem, mem2, d, lo, hi)
  {
    hide Pte, AddrOf;
    assert forall e: nat :: IsDir(owner, e) ==> IsDir(owner1, e);
    forall k: nat, l: nat | l < ENTRIES ensures AddrOf(k, l) < hi <==> AddrOf(k, l) < AddrOf(i, j) || (k == i && l == j) {
      AddrOrder(i, j, k, l, hi);
    }
    forall g: nat | g in owner ensures owner2[g] == if InRange(owner[g], d, lo, hi) then Free else owner[g] {
      assert PlaceOk(mem1, owner1, free1, g) && PlaceOk(mem1, owner1, free1, f);
    }
    hide Exact;
    forall e: nat, k: nat, l: nat | e in mem && IsDir(owner, e) && k < ENTRIES && l < ENTRIES
      ensures Pte(mem2, e, k, l) ==
        if e == d && k < USERSLOTS && lo <= AddrOf(k, l) < hi && Present(Pte(mem, e, k, l)) then 0 else Pte(mem, e, k, l)
    {
      assert Pte(mem1, e, k, l) == Pte(mem1, e, k, l);
    }
  }

  /** Between one slot's address and the next lies no other slot's. */
  lemma AddrOrder(i: nat, j: nat, k: nat, l: nat, hi: nat)
    requires j < ENTRIES && l < ENTRIES && AddrOf(i, j) < hi <= AddrOf(i, j) + PGSIZE
    ensures AddrOf(k, l) < hi <==> AddrOf(k, l) < AddrOf(i, j) || (k == i && l == j)
  {
    if k < i { assert k * DIRSPAN + DIRSPAN <= i * DIRSPAN; }
    if k > i { assert i * DIRSPAN + DIRSPAN <= k * DIRSPAN; }
  }

  /** Pages not mapped need nothing: the range may be counted further up to hi. */
  lemma UnmapAbsent(owner: Owners, owner1: Owners, mem: Memory, mem1: Memory, free1: seq<nat>, d: nat, lo: nat, a: nat, hi: nat)
    requires Unmapped(owner, owner1, mem, mem1, d, lo, a) && lo <= a <= hi
    requires d in mem && IsDir(owner, d) && Exact(mem1, owner1, free1)
    requires forall k, l :: 0 <= k < USERSLOTS && 0 <= l < ENTRIES && a <= AddrOf(k, l) < hi ==> !Present(Pte(mem1, d, k, l))
    ensures Unmapped(owner, owner1, mem, mem1, d, lo, hi)
  {
    hide Pte;
    forall f: nat | f in owner && !InRange(owner[f], d, lo, a) ensures !InRange(owner[f], d, a, hi) {
      assert PlaceOk(mem1, owner1, free1, f);
    }
  }

  // ---------------------------------------------------------------- growing a space

  predicate TableOf(p: Place, d: nat) { p.Table? && p.dir == d }

  /** Frames only moved from the free list to tables of d. */
  ghost predicate NewTables(owner: Owners, owner': Owners, d: nat) {
    && owner'.Keys == owner.Keys
    && forall f :: f in owner ==> owner'[f] == owner[f] || (owner[f] == Free && TableOf(owner'[f], d))
  }

  /** Frames only moved from the free list to tables of d and to its pages from lo up to hi. */
  ghost predicate Grew(owner: Owners, owner': Owners, d: nat, lo: nat, hi: nat) {
    && owner'.Keys == owner.Keys
    && forall f :: f in owner ==>
         owner'[f] == owner[f] || (owner[f] == Free && (TableOf(owner'[f], d) || InRange(owner'[f], d, lo, hi)))
  }

  lemma TablesTrans(owner: Owners, owner1: Owners, owner2: Owners, d: nat)
    requires NewTables(owner, owner1, d) && NewTables(owner1, owner2, d)
    ensures NewTables(owner, owner2, d)
  {
  }

  /** The virtual page number that slot j of table i translates. */
  function PageNo(i: nat, j: nat): nat { i * ENTRIES + j }

  /** In d, pages v0 up to v1 map the frames from f0 on; every other entry reads as before. */
  ghost predicate RangeMapped(owner: Owners, mem: Memory, mem': Memory, d: nat, v0: nat, v1: nat, f0: nat, perm: nat)
    requires perm < PGSIZE
  {
    && mem'.Keys == mem.Keys
    && forall e, k, l {:trigger Pte(mem', e, k, l)} ::
         e in mem && IsDir(owner, e) && 0 <= k < ENTRIES && 0 <= l < ENTRIES ==>
           Pte(mem', e, k, l) ==
             if e == d && v0 <= PageNo(k, l) < v1 then Entry(f0 + PageNo(k, l) - v0, perm) else Pte(mem, e, k, l)
  }

  lemma RangeMore(owner: Owners, owner1: Owners, mem: Memory, mem1: Memory, mem2: Memory, d: nat,
                  v0: nat, f0: nat, perm: nat, i: nat, j: nat)
    requires perm < PGSIZE && i < ENTRIES && j < ENTRIES && v0 <= PageNo(i, j) && Onward(owner, owner1)
    requires RangeMapped(owner, mem, mem1, d, v0, PageNo(i, j), f0, perm)
    requires OneEntry(owner1, mem1, mem2, d, i, j, Entry(f0 + PageNo(i, j) - v0, perm)) && mem.Keys == owner.Keys
    ensures RangeMapped(owner, mem, mem2, d, v0, PageNo(i, j) + 1, f0, perm)
  {
    hide Pte, Entry;
    forall e: nat, k: nat, l: nat | e in mem && IsDir(owner, e) && k < ENTRIES && l < ENTRIES
      ensures Pte(mem2, e, k, l) ==
        if e == d && v0 <= PageNo(k, l) < PageNo(i, j) + 1 then Entry(f0 + PageNo(k, l) - v0, perm) else Pte(mem, e, k, l)
    {
      assert IsDir(owner1, e);
      assert PageNo(k, l) == PageNo(i, j) <==> k == i && l == j;
      assert Pte(mem1, e, k, l) == if e == d && v0 <= PageNo(k, l) < PageNo(i, j) then Entry(f0 + PageNo(k, l) - v0, perm) else Pte(mem, e, k, l);
    }
  }

  /** Where frame f ends up once slot (i, j) of d maps it. */
  function Given(owner: Owners, d: nat, i: nat, j: nat, f: nat): Owners {
    if i < USERSLOTS then owner[f := User(d, i, j)] else owner
  }

  /** The owners once the pages from v0 up to v1 of d map the frames from f0 on: user pages own theirs. */
  function GivenRange(owner: Owners, d: nat, v0: nat, v1: nat, f0: nat): Owners
    decreases v1
  {
    if v1 <= v0 then owner
    else Given(GivenRange(owner, d, v0, v1 - 1, f0), d, (v1 - 1) / ENTRIES, (v1 - 1) % ENTRIES, f0 + (v1 - 1 - v0))
  }

  /** The caller holds the frames for the user pages of the range. */
  ghost predicate HeldFor(owner: Owners, v0: nat, v1: nat, f0: nat) {
    forall f {:trigger f in owner} :: f0 <= f < f0 + (v1 - v0) && (v0 + (f - f0)) / ENTRIES < USERSLOTS ==> f in owner && owner[f] == Held
  }

  /** Directories stay directories, and pages in use stay in use. */
  ghost predicate Onward(owner: Owners, owner': Owners) {
    && owner'.Keys == owner.Keys
    && forall f :: f in owner ==>
         && (IsDir(owner, f) ==> IsDir(owner', f))
         && (owner[f].User? || owner[f].Held? ==> owner'[f].User? || owner'[f].Held?)
  }

  lemma TablesOnward(owner: Owners, owner1: Owners, owner2: Owners, d: nat)
    requires Onward(owner, owner1) && NewTables(owner1, owner2, d)
    ensures Onward(owner, owner2)
  {
  }

  lemma {:induction false} GivenOnward(owner: Owners, d: nat, v0: nat, v1: nat, f0: nat)
    requires v0 <= v1 && HeldFor(owner, v0, v1, f0)
    ensures Onward(owner, GivenRange(owner, d, v0, v1, f0))
    ensures forall f :: f in owner && f >= f0 + (v1 - v0) ==> GivenRange(owner, d, v0, v1, f0)[f] == owner[f]
    decreases v1
  {
    if v0 < v1 {
      GivenOnward(owner, d, v0, v1 - 1, f0);
      var f := f0 + (v1 - 1 - v0);
      assert v0 + (f - f0) == v1 - 1;
      assert (v1 - 1) / ENTRIES < USERSLOTS ==> f in owner && owner[f] == Held;
    }
  }

  lemma GivenMore(owner: Owners, d: nat, v0: nat, v: nat, f0: nat)
    requires v0 <= v
    ensures GivenRange(owner, d, v0, v + 1, f0) == Given(GivenRange(owner, d, v0, v, f0), d, v / ENTRIES, v % ENTRIES, f0 + (v - v0))
  {
  }

  /** The frame for the next page is still the caller's. */
  lemma HeldNext(owner0: Owners, given: Owners, owner: Owners, d: nat, v0: nat, v: nat, f0: nat)
    requires v0 <= v && HeldFor(owner0, v0, v + 1, f0) && given == GivenRange(owner0, d, v0, v, f0) && NewTables(given, owner, d)
    ensures Onward(owner0, owner)
    ensures v / ENTRIES < USERSLOTS ==>
              var f := f0 + (v - v0); f in given && given[f] == Held && f in owner && owner[f] == Held
  {
    hide GivenRange;
    HeldPart(owner0, v0, v, v + 1, f0);
    GivenOnward(owner0, d, v0, v, f0);
    TablesOnward(owner0, given, owner, d);
    var f := f0 + (v - v0);
    assert v0 + (f - f0) == v;
    assert v / ENTRIES < USERSLOTS ==> f in owner0 && owner0[f] == Held;
  }

  lemma HeldPart(owner: Owners, v0: nat, v: nat, v1: nat, f0: nat)
    requires v <= v1 && HeldFor(owner, v0, v1, f0)
    ensures HeldFor(owner, v0, v, f0)
  {
  }

  lemma PageDiv(v: nat)
    ensures v * PGSIZE / PGSIZE == v && Aligned(v * PGSIZE)
  {
  }

  /** One page at a, from a held frame. */
  lemma HeldOne(owner: Owners, a: nat, f: nat)
    requires Aligned(a) && f in owner && owner[f] == Held
    ensures (a + PGSIZE - 1) / PGSIZE == a / PGSIZE && f * PGSIZE / PGSIZE == f && HeldFor(owner, a / PGSIZE, a / PGSIZE + 1, f)
  {
  }

  /** Above KERNBASE nobody owns the frames. */
  lemma {:induction false} GivenKernel(owner: Owners, d: nat, v0: nat, v1: nat, f0: nat)
    requires v0 / ENTRIES >= USERSLOTS
    ensures GivenRange(owner, d, v0, v1, f0) == owner
    decreases v1
  {
    if v0 < v1 { GivenKernel(owner, d, v0, v1 - 1, f0); }
  }

  lemma GivenOne(owner: Owners, d: nat, v: nat, f: nat)
    ensures GivenRange(owner, d, v, v, f) == owner
    ensures GivenRange(owner, d, v, v + 1, f) == Given(owner, d, v / ENTRIES, v % ENTRIES, f)
  {
  }

  /** One page more, on owners that have gained tables meanwhile. */
  lemma GivenTables(owner: Owners, owner1: Owners, owner2: Owners, d: nat, i: nat, j: nat, f: nat)
    requires NewTables(owner, owner1, d) && NewTables(Given(owner1, d, i, j, f), owner2, d)
    requires i < USERSLOTS ==> f in owner && owner[f] == Held
    ensures NewTables(Given(owner, d, i, j, f), owner2, d)
  {
  }

  /** walkpgdir, then the store of the entry. */
  lemma MapStep(owner: Owners, owner1: Owners, mem: Memory, mem1: Memory, free: seq<nat>,
                d: nat, i: nat, j: nat, f: nat, perm: nat)
    requires Exact(mem1, owner1, free) && IsDir(owner1, d) && i < ENTRIES && j < ENTRIES && perm < PGSIZE
    requires SameSpaces(owner, mem, mem1) && DataKept(owner, mem, mem1) && NewTables(owner, owner1, d) && mem.Keys == owner.Keys
    requires Present(mem1[d][i]) && !Present(Pte(mem1, d, i, j))
    requires i < USERSLOTS ==> f in owner && owner[f] == Held
    ensures Frame(mem1[d][i]) in mem1
    ensures var mem2 := PutPte(mem1, d, i, j, Entry(f, perm));
            && Exact(mem2, Given(owner1, d, i, j, f), free) && IsDir(Given(owner1, d, i, j, f), d)
            && OneEntry(owner, mem, mem2, d, i, j, Entry(f, perm)) && DataKept(owner, mem, mem2)
            && NewTables(Given(owner, d, i, j, f), Given(owner1, d, i, j, f), d)
  {
    hide Pte, Entry, PutPte;
    var w := Entry(f, perm);
    PutPteStep(mem1, owner1, free, d, i, j, w);
    var mem2 := PutPte(mem1, d, i, j, w);
    if i < USERSLOTS {
      RetargetUser(mem1, owner1, free, d, i, j, w, f, User(d, i, j));
    } else {
      MapKernel(mem1, owner1, free, d, i, j, w);
    }
    forall e: nat, k: nat, l: nat | e in mem && IsDir(owner, e) && k < ENTRIES && l < ENTRIES
      ensures Pte(mem2, e, k, l) == if (e, k, l) == (d, i, j) then w else Pte(mem, e, k, l)
    {
      assert IsDir(owner1, e) && Pte(mem1, e, k, l) == Pte(mem, e, k, l);
    }
  }

  /** The directory words of other spaces are left alone too. */
  lemma FramesAt(mem: Memory, owner: Owners, free: seq<nat>, d: nat, i: nat)
    requires Exact(mem, owner, free) && IsDir(owner, d) && i < ENTRIES && Present(mem[d][i])
    ensures Frame(mem[d][i]) in mem && owner[Frame(mem[d][i])] == Table(d, i)
  {
    assert DirEntryOk(mem, owner, d, i);
  }

  lemma SameKeys(mem: Memory, owner: Owners, free: seq<nat>)
    requires Exact(mem, owner, free)
    ensures mem.Keys == owner.Keys
  {
  }

  /** A frame just allocated becomes a zeroed table of d. */
  lemma TableStep(mem: Memory, owner: Owners, free: seq<nat>, d: nat, i: nat, t: nat)
    requires t in owner && owner[t] == Free && Exact(mem, owner[t := Held], free)
    requires IsDir(owner, d) && d in mem && i < ENTRIES && !Present(mem[d][i])
    ensures var mem1 := mem[t := ZeroPage()];
            && d in mem1 && d != t && t in mem
            && var mem2 := mem1[d := mem1[d][i := Entry(t, 7)]];
            && Exact(mem2, owner[t := Table(d, i)], free) && mem2.Keys == mem.Keys
            && SameSpaces(owner, mem, mem2) && DataKept(owner, mem, mem2)
            && NewTables(owner, owner[t := Table(d, i)], d)
  {
    hide Pte, ZeroPage, Exact, SameSpaces;
    var held, mem1 := owner[t := Held], mem[t := ZeroPage()];
    SameKeys(mem, held, free);
    DataWrite(mem, held, free, t, ZeroPage());
    NewTable(mem1, held, free, d, i, t);
    var mem2 := mem1[d := mem1[d][i := Entry(t, 7)]];
    assert held[t := Table(d, i)] == owner[t := Table(d, i)];
    SameJoin(owner, held, mem, mem1, mem2);
  }

  lemma SameJoin(owner: Owners, held: Owners, mem: Memory, mem1: Memory, mem2: Memory)
    requires forall d: nat :: IsDir(owner, d) ==> IsDir(held, d)
    requires mem1.Keys == mem.Keys == mem2.Keys && SameSpaces(held, mem, mem1) && SameSpaces(held, mem1, mem2)
    ensures SameSpaces(owner, mem, mem2)
  {
    hide Pte;
    forall d: nat, i: nat, j: nat | d in mem && IsDir(owner, d) && i < ENTRIES && j < ENTRIES
      ensures Pte(mem2, d, i, j) == Pte(mem, d, i, j)
    {
      assert Pte(mem1, d, i, j) == Pte(mem, d, i, j);
    }
  }

  // ---------------------------------------------------------------- fresh pages

  /** w maps, writable by the user, a zeroed frame that was free. */
  ghost predicate FreshEntry(owner: Owners, mem': Memory, w: nat) {
    && Present(w) && Flags(w) == 7 && Frame(w) in mem' && mem'[Frame(w)] == ZeroPage()
    && Frame(w) in owner && owner[Frame(w)] == Free
  }

  predicate Inside(d: nat, lo: nat, hi: nat, e: nat, k: nat, l: nat) {
    e == d && k < USERSLOTS && lo <= AddrOf(k, l) < hi
  }

  /** In d the pages from lo up to hi are fresh, every other entry and every page in use is as before. */
  ghost predicate FreshRange(owner: Owners, owner': Owners, mem: Memory, mem': Memory, d: nat, lo: nat, hi: nat) {
    && mem'.Keys == mem.Keys && DataKept(owner, mem, mem') && Grew(owner, owner', d, lo, hi)
    && (forall e, k, l {:trigger Pte(mem', e, k, l)} ::
          e in mem && IsDir(owner, e) && 0 <= k < ENTRIES && 0 <= l < ENTRIES ==>
            if Inside(d, lo, hi, e, k, l) then FreshEntry(owner, mem', Pte(mem', e, k, l))
            else Pte(mem', e, k, l) == Pte(mem, e, k, l))
  }

  lemma FreshNone(owner: Owners, mem: Memory, d: nat, lo: nat, hi: nat)
    requires hi <= lo
    ensures FreshRange(owner, owner, mem, mem, d, lo, hi)
  {
  }

  /** One iteration of allocuvm: frame f taken, zeroed and mapped at slot (i, j). */
  lemma FreshMore(owner: Owners, owner1: Owners, owner2: Owners, mem: Memory, mem1: Memory, mem2: Memory, free1: seq<nat>,
                  d: nat, lo: nat, i: nat, j: nat, hi: nat, f: nat)
    requires FreshRange(owner, owner1, mem, mem1, d, lo, AddrOf(i, j)) && Exact(mem1, owner1, free1)
    requires f in owner1 && owner1[f] == Free && SameSpaces(owner1, mem1, mem1[f := ZeroPage()])
    requires i < USERSLOTS && j < ENTRIES && lo <= AddrOf(i, j) < hi <= AddrOf(i, j) + PGSIZE
    requires RangeMapped(owner1[f := Held], mem1[f := ZeroPage()], mem2, d, PageNo(i, j), PageNo(i, j) + 1, f, 6)
    requires DataKept(owner1[f := Held], mem1[f := ZeroPage()], mem2)
    requires NewTables(Given(owner1[f := Held], d, i, j, f), owner2, d)
    ensures FreshRange(owner, owner2, mem, mem2, d, lo, hi)
  {
    hide Pte, ZeroPage, Entry, DataKept;
    var memz := mem1[f := ZeroPage()];
    FreshOwners(owner, owner1, owner2, d, lo, i, j, hi, f);
    FreshData(owner, owner1, mem, mem1, mem2, d, lo, AddrOf(i, j), f);
    forall e: nat, k: nat, l: nat | e in mem && IsDir(owner, e) && k < ENTRIES && l < ENTRIES
      ensures if Inside(d, lo, hi, e, k, l) then FreshEntry(owner, mem2, Pte(mem2, e, k, l)) else Pte(mem2, e, k, l) == Pte(mem, e, k, l)
    {
      assert Pte(memz, e, k, l) == Pte(mem1, e, k, l);
      assert Pte(mem2, e, k, l) == if e == d && PageNo(k, l) == PageNo(i, j) then Entry(f, 6) else Pte(mem1, e, k, l);
      SamePage(k, l, i, j);
      if Inside(d, lo, AddrOf(i, j), e, k, l) {
        assert UserEntryOk(mem1, owner1, e, k, l);
        EntryKept(owner, owner1, mem1, mem2, f, Pte(mem1, e, k, l));
      }
    }
  }

  lemma FreshData(owner: Owners, owner1: Owners, mem: Memory, mem1: Memory, mem2: Memory, d: nat, lo: nat, hi: nat, f: nat)
    requires DataKept(owner, mem, mem1) && Grew(owner, owner1, d, lo, hi) && mem1.Keys == owner1.Keys
    requires f in owner1 && owner1[f] == Free && DataKept(owner1[f := Held], mem1[f := ZeroPage()], mem2)
    ensures DataKept(owner, mem, mem2) && f in mem2 && mem2[f] == ZeroPage()
  {
    hide ZeroPage;
  }

  lemma EntryKept(owner: Owners, owner1: Owners, mem1: Memory, mem2: Memory, f: nat, w: nat)
    requires FreshEntry(owner, mem1, w) && Frame(w) in owner1 && owner1[Frame(w)].User?
    requires f in owner1 && owner1[f] == Free && DataKept(owner1[f := Held], mem1[f := ZeroPage()], mem2)
    ensures FreshEntry(owner, mem2, w)
  {
    hide ZeroPage;
  }

  lemma SamePage(k: nat, l: nat, i: nat, j: nat)
    ensures PageNo(k, l) == PageNo(i, j) <==> AddrOf(k, l) == AddrOf(i, j)
    ensures AddrOf(k, l) < AddrOf(i, j) + PGSIZE ==> AddrOf(k, l) <= AddrOf(i, j)
  {
  }

  lemma FreshOwners(owner: Owners, owner1: Owners, owner2: Owners, d: nat, lo: nat, i: nat, j: nat, hi: nat, f: nat)
    requires Grew(owner, owner1, d, lo, AddrOf(i, j)) && f in owner1 && owner1[f] == Free && i < USERSLOTS
    requires NewTables(Given(owner1[f := Held], d, i, j, f), owner2, d) && lo <= AddrOf(i, j) < hi
    ensures Grew(owner, owner2, d, lo, hi) && owner[f] == Free
  {
  }

  ghost predicate NothingIn(mem: Memory, d: nat, lo: nat, hi: nat)
    requires d in mem
  {
    forall k, l :: 0 <= k < USERSLOTS && 0 <= l < ENTRIES && lo <= AddrOf(k, l) < hi ==> !Present(Pte(mem, d, k, l))
  }

  /** Fresh pages up to hi, then everything from lo up to top unmapped: back where it was, but for tables. */
  lemma Rollback(owner: Owners, owner1: Owners, owner2: Owners, mem: Memory, mem1: Memory, mem2: Memory, free: seq<nat>,
                 d: nat, lo: nat, hi: nat, top: nat)
    requires Exact(mem, owner, free) && IsDir(owner, d) && d in mem && NothingIn(mem, d, lo, top) && hi <= top
    requires FreshRange(owner, owner1, mem, mem1, d, lo, hi) && Unmapped(owner1, owner2, mem1, mem2, d, lo, top)
    ensures SameSpaces(owner, mem, mem2) && NewTables(owner, owner2, d) && DataKept(owner, mem, mem2)
  {
    RollbackOwners(owner, owner1, owner2, mem, mem1, mem2, free, d, lo, hi, top);
    hide Pte, AddrOf, NewTables, DataKept, DirEntryOk, PlaceOk;
    forall e: nat, k: nat, l: nat | e in mem && IsDir(owner, e) && k < ENTRIES && l < ENTRIES
      ensures Pte(mem2, e, k, l) == Pte(mem, e, k, l)
    {
      assert IsDir(owner1, e);
      assert UserEntryOk(mem, owner, e, k, l);
      assert Pte(mem1, e, k, l) == Pte(mem1, e, k, l);
    }
  }

  lemma RollbackOwners(owner: Owners, owner1: Owners, owner2: Owners, mem: Memory, mem1: Memory, mem2: Memory, free: seq<nat>,
                       d: nat, lo: nat, hi: nat, top: nat)
    requires Exact(mem, owner, free) && IsDir(owner, d) && d in mem && NothingIn(mem, d, lo, top) && hi <= top
    requires FreshRange(owner, owner1, mem, mem1, d, lo, hi) && Unmapped(owner1, owner2, mem1, mem2, d, lo, top)
    ensures NewTables(owner, owner2, d) && DataKept(owner, mem, mem2)
  {
    hide Pte, AddrOf;
    forall f: nat | f in owner ensures owner2[f] == owner[f] || (owner[f] == Free && TableOf(owner2[f], d)) {
      assert PlaceOk(mem, owner, free, f);
    }
  }

  datatype MapResult = Mapped | NoMemory | Remap

  /** deallocuvm over all of user space leaves no user entry of d and changes no other space. */
  lemma AllUnmapped(owner: Owners, owner1: Owners, mem: Memory, mem1: Memory, free1: seq<nat>, d: nat)
    requires Unmapped(owner, owner1, mem, mem1, d, 0, KERNBASE) && Exact(mem1, owner1, free1) && IsDir(owner, d) && d in mem
    ensures d in mem1 && forall i, j :: 0 <= i < USERSLOTS && 0 <= j < ENTRIES ==> !Present(Pte(mem1, d, i, j))
    ensures forall f :: f in owner1 && owner1[f].User? ==> owner1[f].dir != d
    ensures forall f :: f in owner1 && TableOf(owner1[f], d) ==> owner1[f].i < ENTRIES
  {
    hide Pte;
    forall i, j | 0 <= i < USERSLOTS && 0 <= j < ENTRIES ensures !Present(Pte(mem1, d, i, j)) {
      assert AddrOf(i, j) < KERNBASE;
    }
    forall f: nat | f in owner1 ensures (owner1[f].User? ==> owner1[f].dir != d) && (TableOf(owner1[f], d) ==> owner1[f].i < ENTRIES) {
      assert PlaceOk(mem1, owner1, free1, f);
    }
  }

  lemma UserAddresses(mem: Memory, owner: Owners, free: seq<nat>, d: nat)
    requires Exact(mem, owner, free)
    ensures forall f :: f in owner && owner[f].User? && owner[f].dir == d ==> AddrOf(owner[f].i, owner[f].j) < KERNBASE
  {
    hide Pte;
    forall f: nat | f in owner && owner[f].User? ensures AddrOf(owner[f].i, owner[f].j) < KERNBASE {
      assert PlaceOk(mem, owner, free, f);
    }
  }

  /** d's directory and tables given up: tables of slots below i are free, the rest still held. */
  ghost predicate Torn(owner1: Owners, owner: Owners, mem1: Memory, mem: Memory, d: nat, i: nat) {
    && owner.Keys == owner1.Keys && SameSpaces(owner, mem1, mem) && DataKept(owner, mem1, mem)
    && forall f :: f in owner1 ==>
         owner[f] == if !Belongs(owner1, f, d) then owner1[f] else if owner1[f].Table? && owner1[f].i < i then Free else Held
  }

  lemma TornNone(owner1: Owners, mem1: Memory, free1: seq<nat>, d: nat)
    requires Exact(mem1, owner1, free1) && IsDir(owner1, d)
    ensures Torn(owner1, Released(owner1, d, Held), mem1, mem1, d, 0) && d in mem1
  {
  }

  /** Slot i's table is still held, if the slot has one. */
  lemma TornAt(owner1: Owners, owner: Owners, mem1: Memory, mem: Memory, free1: seq<nat>, d: nat, i: nat)
    requires Torn(owner1, owner, mem1, mem, d, i) && Exact(mem1, owner1, free1) && IsDir(owner1, d) && i < ENTRIES
    requires d in mem && mem[d] == mem1[d]
    ensures Present(mem[d][i]) ==> Frame(mem[d][i]) in owner && owner[Frame(mem[d][i])] == Held && Frame(mem[d][i]) != d
    ensures !Present(mem[d][i]) ==> Torn(owner1, owner, mem1, mem, d, i + 1)
  {
    hide Pte, SameSpaces, DataKept;
    assert DirEntryOk(mem1, owner1, d, i);
    forall f: nat | f in owner1 && !Present(mem[d][i]) ensures owner1[f] != Table(d, i) {
      assert PlaceOk(mem1, owner1, free1, f);
    }
  }

  lemma TornMore(owner1: Owners, owner2: Owners, owner: Owners, mem1: Memory, mem2: Memory, mem: Memory, free1: seq<nat>, d: nat, i: nat)
    requires Torn(owner1, owner2, mem1, mem2, d, i) && Exact(mem1, owner1, free1) && IsDir(owner1, d) && i < ENTRIES
    requires d in mem1 && d in mem2 && mem2[d] == mem1[d] && Present(mem1[d][i]) && mem2.Keys == mem1.Keys
    requires var f := Frame(mem1[d][i]); f in owner2 && f in mem2 && owner == owner2[f := Free] && mem == mem2[f := JunkPage()]
    requires SameSpaces(owner, mem2, mem)
    ensures Torn(owner1, owner, mem1, mem, d, i + 1)
  {
    hide Pte, JunkPage, SameSpaces, Exact;
    OnlyTable(mem1, owner1, free1, d, i);
    FewerSpaces(owner2, owner, mem1, mem2);
    SameJoin(owner, owner, mem1, mem2, mem);
  }

  lemma OnlyTable(mem: Memory, owner: Owners, free: seq<nat>, d: nat, i: nat)
    requires Exact(mem, owner, free) && IsDir(owner, d) && i < ENTRIES && Present(mem[d][i])
    ensures var f := Frame(mem[d][i]);
            f in owner && owner[f] == Table(d, i) && forall g :: g in owner && owner[g] == Table(d, i) ==> g == f
  {
    hide Pte;
    assert DirEntryOk(mem, owner, d, i);
    forall g: nat | g in owner && owner[g] == Table(d, i) ensures g == Frame(mem[d][i]) {
      assert PlaceOk(mem, owner, free, g);
    }
  }

  lemma FewerSpaces(owner: Owners, owner': Owners, mem: Memory, mem': Memory)
    requires SameSpaces(owner, mem, mem') && forall d: nat :: IsDir(owner', d) ==> IsDir(owner, d)
    ensures SameSpaces(owner', mem, mem')
  {
  }

  lemma TornDown(owner0: Owners, owner1: Owners, owner2: Owners, owner: Owners,
                 mem0: Memory, mem1: Memory, mem2: Memory, mem: Memory, d: nat)
    requires Unmapped(owner0, owner1, mem0, mem1, d, 0, KERNBASE) && IsDir(owner0, d) && mem0.Keys == owner0.Keys
    requires forall f :: f in owner1 && owner1[f].User? ==> owner1[f].dir != d
    requires forall f :: f in owner0 && owner0[f].User? && owner0[f].dir == d ==> AddrOf(owner0[f].i, owner0[f].j) < KERNBASE
    requires Torn(owner1, owner2, mem1, mem2, d, ENTRIES) && mem2.Keys == mem0.Keys
    requires forall f :: f in owner1 && TableOf(owner1[f], d) ==> owner1[f].i < ENTRIES
    requires owner == owner2[d := Free] && mem == mem2[d := JunkPage()] && SameSpaces(owner, mem2, mem)
    ensures owner == Released(owner0, d, Free)
    ensures SameSpaces(owner, mem0, mem) && DataKept(owner, mem0, mem)
  {
    hide Pte, JunkPage, AddrOf, DataKept, SameSpaces, Unmapped, Torn;
    TornOwners(owner0, owner1, owner2, mem0, mem1, mem2, d);
    assert owner == Released(owner0, d, Free);
    TornSpaces(owner0, owner1, owner, mem0, mem1, d);
    assert SameSpaces(owner, mem1, mem2) by { TornKept(owner1, owner2, owner, mem1, mem2, d); }
    SameJoin(owner, owner, mem0, mem1, mem2);
    SameJoin(owner, owner, mem0, mem2, mem);
    TornData(owner0, owner1, owner2, owner, mem0, mem1, mem2, mem, d);
  }

  lemma TornOwners(owner0: Owners, owner1: Owners, owner2: Owners, mem0: Memory, mem1: Memory, mem2: Memory, d: nat)
    requires Unmapped(owner0, owner1, mem0, mem1, d, 0, KERNBASE) && IsDir(owner0, d)
    requires forall f :: f in owner0 && owner0[f].User? && owner0[f].dir == d ==> AddrOf(owner0[f].i, owner0[f].j) < KERNBASE
    requires Torn(owner1, owner2, mem1, mem2, d, ENTRIES)
    requires forall f :: f in owner1 && TableOf(owner1[f], d) ==> owner1[f].i < ENTRIES
    ensures owner2[d := Free] == Released(owner0, d, Free) && d in owner2
  {
    hide Pte, AddrOf, DataKept, SameSpaces;
    var owner, r := owner2[d := Free], Released(owner0, d, Free);
    forall f: nat | f in owner0 ensures owner[f] == r[f] {
    }
  }

  lemma TornSpaces(owner0: Owners, owner1: Owners, owner: Owners, mem0: Memory, mem1: Memory, d: nat)
    requires Unmapped(owner0, owner1, mem0, mem1, d, 0, KERNBASE) && owner == Released(owner0, d, Free)
    ensures SameSpaces(owner, mem0, mem1) && mem1.Keys == mem0.Keys
  {
    hide Pte, DataKept;
    assert !IsDir(owner, d) && forall e: nat :: IsDir(owner, e) ==> IsDir(owner0, e);
  }

  lemma TornKept(owner1: Owners, owner2: Owners, owner: Owners, mem1: Memory, mem2: Memory, d: nat)
    requires Torn(owner1, owner2, mem1, mem2, d, ENTRIES) && owner == owner2[d := Free]
    ensures SameSpaces(owner, mem1, mem2)
  {
    FewerSpaces(owner2, owner, mem1, mem2);
  }

  lemma TornData(owner0: Owners, owner1: Owners, owner2: Owners, owner: Owners,
                 mem0: Memory, mem1: Memory, mem2: Memory, mem: Memory, d: nat)
    requires Unmapped(owner0, owner1, mem0, mem1, d, 0, KERNBASE) && d in mem2
    requires forall f :: f in owner1 && owner1[f].User? ==> owner1[f].dir != d
    requires forall f :: f in owner1 && TableOf(owner1[f], d) ==> owner1[f].i < ENTRIES
    requires Torn(owner1, owner2, mem1, mem2, d, ENTRIES) && owner == owner2[d := Free] && mem == mem2[d := JunkPage()]
    ensures DataKept(owner, mem0, mem)
  {
    hide Pte, SameSpaces, JunkPage, AddrOf;
    forall f: nat | f in owner && f in mem0 && (owner[f].User? || owner[f].Held?) ensures mem[f] == mem0[f] {
      assert owner2[f] == owner[f] && mem2[f] == mem1[f];
      assert owner1[f] == owner[f];
    }
  }

  lemma NothingLess(mem: Memory, d: nat, lo: nat, hi: nat, top: nat)
    requires d in mem && NothingIn(mem, d, lo, top) && hi <= top
    ensures NothingIn(mem, d, lo, hi)
  {
  }

  lemma HeldRange(owner: Owners, owner': Owners, mem: Memory, mem': Memory, d: nat, lo: nat, hi: nat, f: nat)
    requires Unmapped(owner, owner', mem, mem', d, lo, hi) && f in owner && owner[f] == Held
    ensures f in owner' && owner'[f] == Held
    ensures Unmapped(owner[f := Free], owner'[f := Free], mem, mem', d, lo, hi)
  {
    hide Pte, AddrOf;
  }

  lemma TablesSpaces(owner: Owners, owner1: Owners, mem: Memory, mem': Memory, d: nat)
    requires NewTables(owner, owner1, d) && SameSpaces(owner1, mem, mem')
    ensures SameSpaces(owner, mem, mem')
  {
    assert forall e: nat :: IsDir(owner, e) ==> IsDir(owner1, e);
  }

  lemma HeldSpaces(owner: Owners, mem: Memory, mem': Memory, f: nat)
    requires SameSpaces(owner[f := Held], mem, mem') && f in owner && owner[f] == Free
    ensures SameSpaces(owner, mem, mem')
  {
  }

  /** mappages failed: nothing new is mapped. */
  lemma FreshSame(owner: Owners, owner1: Owners, owner2: Owners, mem: Memory, mem1: Memory, mem2: Memory, free1: seq<nat>,
                  d: nat, lo: nat, a: nat, hi: nat, f: nat)
    requires FreshRange(owner, owner1, mem, mem1, d, lo, a) && Exact(mem1, owner1, free1) && Aligned(a) && a < KERNBASE
    requires f in owner1 && owner1[f] == Free && SameSpaces(owner1, mem1, mem1[f := ZeroPage()])
    requires RangeMapped(owner1[f := Held], mem1[f := ZeroPage()], mem2, d, a / PGSIZE, a / PGSIZE, f, 6)
    requires DataKept(owner1[f := Held], mem1[f := ZeroPage()], mem2) && NewTables(owner1[f := Held], owner2, d)
    requires IsDir(owner, d) && d in mem && NothingIn(mem, d, lo, hi) && lo <= a < hi
    ensures f in owner2 && owner2[f] == Held && FreshRange(owner, owner2[f := Free], mem, mem2, d, lo, a)
    ensures !Present(Pte(mem1, d, PDX(a), PTX(a)))
  {
    hide Pte, ZeroPage, Entry, DataKept, PDX, PTX, AddrOf;
    FreshData(owner, owner1, mem, mem1, mem2, d, lo, a, f);
    Indices(a);
    assert Pte(mem1, d, PDX(a), PTX(a)) == Pte(mem, d, PDX(a), PTX(a));
    forall e: nat, k: nat, l: nat | e in mem && IsDir(owner, e) && k < ENTRIES && l < ENTRIES
      ensures if Inside(d, lo, a, e, k, l) then FreshEntry(owner, mem2, Pte(mem2, e, k, l)) else Pte(mem2, e, k, l) == Pte(mem, e, k, l)
    {
      assert Pte(mem1[f := ZeroPage()], e, k, l) == Pte(mem1, e, k, l);
      assert Pte(mem2, e, k, l) == Pte(mem1, e, k, l);
      if Inside(d, lo, a, e, k, l) {
        assert UserEntryOk(mem1, owner1, e, k, l);
        EntryKept(owner, owner1, mem1, mem2, f, Pte(mem1, e, k, l));
      }
    }
  }

  function Min(a: nat, b: nat): nat { if a < b then a else b }

  lemma PteAt(mem: Memory, d: nat, i: nat, j: nat)
    requires d in mem && i < ENTRIES && j < ENTRIES && Present(mem[d][i]) && Frame(mem[d][i]) in mem
    ensures Pte(mem, d, i, j) == mem[Frame(mem[d][i])][j]
  {
  }

  lemma NoTable(owner: Owners, owner1: Owners, mem: Memory, mem1: Memory, free1: seq<nat>, d: nat, lo: nat, a: nat, hi: nat)
    requires Unmapped(owner, owner1, mem, mem1, d, lo, a) && lo <= a < KERNBASE && a <= hi && Aligned(a)
    requires d in mem && IsDir(owner, d) && Exact(mem1, owner1, free1)
    requires !Present(mem1[d][PDX(a)]) && hi <= (PDX(a) + 1) * DIRSPAN
    ensures Unmapped(owner, owner1, mem, mem1, d, lo, hi)
  {
    Indices(a);
    forall k, l | 0 <= k < USERSLOTS && 0 <= l < ENTRIES && a <= AddrOf(k, l) < hi
      ensures !Present(Pte(mem1, d, k, l))
    {
      assert k == PDX(a);
    }
    UnmapAbsent(owner, owner1, mem, mem1, free1, d, lo, a, hi);
  }

  lemma UnmapAbsentPage(owner: Owners, owner1: Owners, mem: Memory, mem1: Memory, free1: seq<nat>, d: nat, lo: nat, a: nat, hi: nat)
    requires Unmapped(owner, owner1, mem, mem1, d, lo, a) && lo <= a < KERNBASE && Aligned(a)
    requires d in mem && IsDir(owner, d) && Exact(mem1, owner1, free1)
    requires !Present(Pte(mem1, d, PDX(a), PTX(a))) && a <= hi <= a + PGSIZE
    ensures Unmapped(owner, owner1, mem, mem1, d, lo, hi)
  {
    hide Pte, PDX, PTX;
    Indices(a);
    forall k, l | 0 <= k < USERSLOTS && 0 <= l < ENTRIES && a <= AddrOf(k, l) < hi
      ensures !Present(Pte(mem1, d, k, l))
    {
      assert k == PDX(a) && l == PTX(a);
    }
    UnmapAbsent(owner, owner1, mem, mem1, free1, d, lo, a, hi);
  }

  lemma SameSelf(owner: Owners, mem: Memory)
    ensures SameSpaces(owner, mem, mem)
  {
  }

  lemma ReleasedSpaces(owner: Owners, mem: Memory, mem': Memory, f: nat)
    requires SameSpaces(owner, mem, mem')
    ensures SameSpaces(owner[f := Free], mem, mem')
  {
  }

  lemma SamePte(owner: Owners, mem: Memory, mem': Memory, d: nat, i: nat, j: nat)
    requires SameSpaces(owner, mem, mem') && d in mem && d in mem' && IsDir(owner, d) && i < ENTRIES && j < ENTRIES
    ensures Pte(mem', d, i, j) == Pte(mem, d, i, j)
  {
  }

  lemma NothingMapped(owner: Owners, mem: Memory, d: nat, v0: nat, f0: nat, perm: nat)
    requires perm < PGSIZE
    ensures RangeMapped(owner, mem, mem, d, v0, v0, f0, perm) && DataKept(owner, mem, mem) && NewTables(owner, owner, d)
  {
  }

  lemma PageSlots(a: nat)
    requires a < TWO32 && Aligned(a)
    ensures PageNo(PDX(a), PTX(a)) == a / PGSIZE
    ensures PDX(a) == a / PGSIZE / ENTRIES && PTX(a) == a / PGSIZE % ENTRIES
    ensures a < KERNBASE <==> PDX(a) < USERSLOTS
  {
    Indices(a);
  }

  lemma DataTrans(owner: Owners, owner1: Owners, mem: Memory, mem1: Memory, mem2: Memory)
    requires DataKept(owner, mem, mem1) && DataKept(owner1, mem1, mem2) && Onward(owner, owner1)
    ensures DataKept(owner, mem, mem2)
  {
  }

  lemma RangeSame(owner: Owners, owner1: Owners, mem: Memory, mem1: Memory, mem2: Memory, d: nat,
                  v0: nat, v1: nat, f0: nat, perm: nat)
    requires perm < PGSIZE && RangeMapped(owner, mem, mem1, d, v0, v1, f0, perm) && mem.Keys == mem2.Keys
    requires SameSpaces(owner1, mem1, mem2) && Onward(owner, owner1)
    ensures RangeMapped(owner, mem, mem2, d, v0, v1, f0, perm)
  {
    hide Pte, Entry, PageNo;
    assert forall e: nat :: IsDir(owner, e) ==> IsDir(owner1, e);
  }

  lemma RangeAbove(owner: Owners, mem: Memory, mem1: Memory, d: nat, v0: nat, v1: nat, f0: nat, perm: nat, i: nat, j: nat)
    requires perm < PGSIZE && RangeMapped(owner, mem, mem1, d, v0, v1, f0, perm)
    requires d in mem && IsDir(owner, d) && i < ENTRIES && j < ENTRIES && PageNo(i, j) >= v1
    ensures Pte(mem1, d, i, j) == Pte(mem, d, i, j)
  {
  }
}
