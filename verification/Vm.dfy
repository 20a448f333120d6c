/** The page allocator and the page-table operations of kalloc.c and vm.c. */
module Vm {
  import opened Base
  import opened VmModel
  import opened VmCopy
  import opened VmFrames
  import opened VmSpaces

  datatype CopyResult = Child(dir: nat) | NoPages | Panic

  class Machine {
    /** Physical address of the first byte after the kernel. */
    const end: nat
    var mem: Memory
    var freelist: seq<nat>
    ghost var owner: Owners

    ghost predicate Valid()
      reads this
    {
      Exact(mem, owner, freelist) && forall f :: f in mem <==> end <= f * PGSIZE < PHYSTOP
    }

    /** Take the first free frame. */
    method Kalloc() returns (r: Option<nat>)
      requires Valid()
      modifies this
      ensures Valid() && mem == old(mem)
      ensures old(freelist) == [] ==> r == None && owner == old(owner) && freelist == []
      ensures old(freelist) != [] ==>
                && r == Some(old(freelist)[0]) && r.value in old(owner) && old(owner)[r.value] == Free
                && owner == old(owner)[r.value := Held] && freelist == old(freelist)[1..]
    {
      hide Exact;
      if freelist == [] { return None; }
      TakeFree(mem, owner, freelist);
      r := Some(freelist[0]);
      owner := owner[freelist[0] := Held];
      freelist := freelist[1..];
    }

    /** Fill the page at physical address pa with junk and push it; panic on an address kalloc never gave. */
    method Kfree(pa: nat) returns (panic: bool)
      modifies `mem, `freelist
      ensures panic <==> !Aligned(pa) || pa < end || pa >= PHYSTOP
      ensures panic ==> mem == old(mem) && freelist == old(freelist)
      ensures !panic ==> mem == old(mem)[pa / PGSIZE := JunkPage()] && freelist == [pa / PGSIZE] + old(freelist)
    {
      if !Aligned(pa) || pa < end || pa >= PHYSTOP { return true; }
      mem := mem[pa / PGSIZE := JunkPage()];
      freelist := [pa / PGSIZE] + freelist;
      return false;
    }

    /** kfree of a frame its caller holds. */
    method Release(f: nat) returns (panic: bool)
      requires Valid() && f in owner && owner[f] == Held
      modifies this
      ensures Valid() && !panic && mem == old(mem)[f := JunkPage()] && freelist == [f] + old(freelist)
      ensures owner == old(owner)[f := Free] && SameSpaces(owner, old(mem), mem)
    {
      hide SameSpaces;
      DataWrite(mem, owner, freelist, f, JunkPage());
      GiveBack(mem[f := JunkPage()], owner, freelist, f);
      ReleasedSpaces(owner, mem, mem[f := JunkPage()], f);
      hide Exact, JunkPage;
      panic := Kfree(f * PGSIZE);
      owner := owner[f := Free];
    }

    /** Free every whole page between two addresses, as at boot. */
    method Freerange(vstart: nat, vend: nat) returns (panic: bool)
      requires Valid() && end <= vstart && vend <= PHYSTOP
      requires forall f :: vstart <= f * PGSIZE && (f + 1) * PGSIZE <= vend ==> f in owner && owner[f] == Held
      modifies this
      ensures Valid() && !panic && owner.Keys == old(owner).Keys
      ensures forall f :: f in owner ==>
                owner[f] == if vstart <= f * PGSIZE && (f + 1) * PGSIZE <= vend then Free else old(owner)[f]
    {
      hide Exact;
      panic := false;
      var p := PGROUNDUP(vstart);
      RoundedUp(vstart);
      while p + PGSIZE <= vend
        invariant Valid() && !panic && Aligned(p) && vstart <= p && owner.Keys == old(owner).Keys
        invariant forall f :: f in owner ==>
                    owner[f] == if vstart <= f * PGSIZE < p && (f + 1) * PGSIZE <= vend then Free else old(owner)[f]
      {
        panic := Release(p / PGSIZE);
        p := p + PGSIZE;
      }
    }

    /** The table for va, made if alloc asks for it and a page is free. */
    method Walkpgdir(d: nat, va: nat, alloc: bool) returns (r: Option<nat>)
      requires Valid() && IsDir(owner, d) && va < TWO32
      modifies this
      ensures Valid() && IsDir(owner, d) && NewTables(old(owner), owner, d)
      ensures SameSpaces(old(owner), old(mem), mem) && DataKept(old(owner), old(mem), mem)
      ensures !alloc ==> mem == old(mem) && owner == old(owner) && freelist == old(freelist)
      ensures r.Some? ==> Present(mem[d][PDX(va)]) && r.value == Frame(mem[d][PDX(va)]) && r.value in mem
      ensures r.None? ==> mem == old(mem) && owner == old(owner) && freelist == old(freelist)
      ensures r.None? ==> !Present(mem[d][PDX(va)]) && (alloc ==> freelist == [])
      ensures d in mem && d in old(mem) && (forall k :: 0 <= k < ENTRIES && k != PDX(va) ==> mem[d][k] == old(mem)[d][k])
      ensures alloc && r.Some? ==> |freelist| == |old(freelist)| - Gap(old(mem)[d], PDX(va))
    {
      hide Exact, Pte, SameSpaces, PDX, ZeroPage;
      SameKeys(mem, owner, freelist);
      SameSelf(owner, mem);
      var pde := mem[d][PDX(va)];
      if Present(pde) {
        FramesAt(mem, owner, freelist, d, PDX(va));
        return Some(Frame(pde));
      }
      if !alloc { return None; }
      r := Kalloc();
      if r.Some? {
        var t := r.value;
        TableStep(mem, old(owner), freelist, d, PDX(va), t);
        mem := mem[t := ZeroPage()];
        mem := mem[d := mem[d][PDX(va) := Entry(t, 7)]];
        owner := owner[t := Table(d, PDX(va))];
        assert owner == old(owner)[t := Table(d, PDX(va))];
      }
    }

    /** One page: find or make the table, then store the entry. */
    method MapPage(d: nat, a: nat, pa: nat, perm: nat) returns (r: MapResult)
      requires Valid() && IsDir(owner, d) && a < TWO32 && perm < PGSIZE && Aligned(a) && Aligned(pa)
      requires a < KERNBASE ==> pa / PGSIZE in owner && owner[pa / PGSIZE] == Held
      modifies this
      ensures Valid() && IsDir(owner, d) && d in old(mem) && DataKept(old(owner), old(mem), mem)
      ensures r.Mapped? ==>
                && !Present(Pte(old(mem), d, PDX(a), PTX(a)))
                && OneEntry(old(owner), old(mem), mem, d, PDX(a), PTX(a), Entry(pa / PGSIZE, perm))
                && NewTables(Given(old(owner), d, PDX(a), PTX(a), pa / PGSIZE), owner, d)
      ensures !r.Mapped? ==> SameSpaces(old(owner), old(mem), mem) && NewTables(old(owner), owner, d)
      ensures r.NoMemory? ==> Gap(old(mem)[d], PDX(a)) == 1 && |old(freelist)| == 0
      ensures r.Remap? ==> Present(Pte(old(mem), d, PDX(a), PTX(a)))
      ensures r.Mapped? ==> d in mem && TablesMade(old(mem)[d], mem[d], PDX(a), PDX(a) + 1)
      ensures r.Mapped? ==> |freelist| == |old(freelist)| - Gap(old(mem)[d], PDX(a))
    {
      hide Exact, Pte, SameSpaces, PDX, PTX, OneEntry, DataKept, Entry, NewTables;
      SameKeys(mem, owner, freelist);
      Indices(a);
      var pte := Walkpgdir(d, a, true);
      if pte.None? { return NoMemory; }
      SamePte(old(owner), old(mem), mem, d, PDX(a), PTX(a));
      PteAt(mem, d, PDX(a), PTX(a));
      if Present(mem[pte.value][PTX(a)]) { return Remap; }
      FramesAt(mem, owner, freelist, d, PDX(a));
      MapStep(old(owner), owner, old(mem), mem, freelist, d, PDX(a), PTX(a), pa / PGSIZE, perm);
      mem := mem[pte.value := mem[pte.value][PTX(a) := Entry(pa / PGSIZE, perm)]];
      owner := Given(owner, d, PDX(a), PTX(a), pa / PGSIZE);
      return Mapped;
    }

    /** One page of a range that began at page v0 with frame f0, when the pages before v are mapped. */
    method MapNext(d: nat, a: nat, p: nat, perm: nat, ghost v: nat, ghost owner0: Owners, ghost mem0: Memory, ghost free0: nat,
                   ghost v0: nat, ghost f0: nat, ghost n: nat) returns (r: MapResult)
      requires Valid() && IsDir(owner, d) && a < TWO32 && a == v * PGSIZE && p == (f0 + (v - v0)) * PGSIZE && perm < PGSIZE
      requires v0 <= v && v / ENTRIES < n && d in mem && d in mem0 && IsDir(owner0, d) && mem0.Keys == owner0.Keys
      requires HeldFor(owner0, v0, v + 1, f0) && NewTables(GivenRange(owner0, d, v0, v, f0), owner, d)
      requires DataKept(owner0, mem0, mem) && RangeMapped(owner0, mem0, mem, d, v0, v, f0, perm)
      requires Taken(mem0[d], mem[d], free0, |freelist|, v0, v, n)
      modifies this
      ensures Valid() && IsDir(owner, d) && d in mem && DataKept(owner0, mem0, mem)
      ensures RangeMapped(owner0, mem0, mem, d, v0, if r.Mapped? then v + 1 else v, f0, perm)
      ensures NewTables(GivenRange(owner0, d, v0, if r.Mapped? then v + 1 else v, f0), owner, d)
      ensures r.Mapped? ==> Taken(mem0[d], mem[d], free0, |freelist|, v0, v + 1, n)
      ensures r.NoMemory? ==> v0 / ENTRIES <= n <= ENTRIES && free0 < Absent(mem0[d], v0 / ENTRIES, n)
      ensures r.Remap? ==> v / ENTRIES < ENTRIES && Present(Pte(mem0, d, v / ENTRIES, v % ENTRIES))
    {
      hide Exact, Pte, PDX, PTX, OneEntry, DataKept, Entry, NewTables, SameSpaces, RangeMapped, TablesMade, Absent, Gap, Taken;
      hide GivenRange, Given, HeldFor, Onward, Aligned, PageNo;
      ghost var mem1, owner1, free1, f := mem, owner, |freelist|, f0 + (v - v0);
      ghost var given := GivenRange(owner0, d, v0, v, f0);
      PageDiv(v);
      PageDiv(f);
      PageSlots(a);
      SameKeys(mem, owner, freelist);
      TakenBounds(mem0[d], mem[d], free0, free1, v0, v, n);
      HeldNext(owner0, given, owner, d, v0, v, f0);
      r := MapPage(d, a, p, perm);
      SameKeys(mem, owner, freelist);
      DataTrans(owner0, owner1, mem0, mem1, mem);
      if !r.Mapped? {
        RangeSame(owner0, owner1, mem0, mem1, mem, d, v0, v, f0, perm);
        RangeAbove(owner0, mem0, mem1, d, v0, v, f0, perm, PDX(a), PTX(a));
        TablesTrans(given, owner1, owner, d);
        if r.NoMemory? { TakenFail(mem0[d], mem1[d], free0, v0, v, n); }
        return;
      }
      RangeMore(owner0, owner1, mem0, mem1, mem, d, v0, f0, perm, PDX(a), PTX(a));
      GivenTables(given, owner1, owner, d, PDX(a), PTX(a), f);
      GivenMore(owner0, d, v0, v, f0);
      TakenStep(mem0[d], mem1[d], mem[d], free0, free1, |freelist|, v0, v, n);
    }

    /**
      * Map size bytes from va to physical memory from pa on; v1 is the page after the last one mapped.
      * The caller holds the frames of pages below KERNBASE.
      */
    method Mappages(d: nat, va: nat, size: nat, pa: nat, perm: nat) returns (r: MapResult, ghost v1: nat)
      requires Valid() && IsDir(owner, d) && 0 < size && va + size <= TWO32 && perm < PGSIZE && Aligned(pa)
      requires HeldFor(owner, va / PGSIZE, (va + size - 1) / PGSIZE + 1, pa / PGSIZE)
      modifies this
      ensures Valid() && IsDir(owner, d) && DataKept(old(owner), old(mem), mem)
      ensures va / PGSIZE <= v1 <= (va + size - 1) / PGSIZE + 1
      ensures RangeMapped(old(owner), old(mem), mem, d, va / PGSIZE, v1, pa / PGSIZE, perm)
      ensures r.Mapped? <==> v1 == (va + size - 1) / PGSIZE + 1
      ensures d in old(mem) && d in mem
      ensures var i, n := PDX(va), PDX(va + size - 1) + 1;
              && (r.NoMemory? ==> |old(freelist)| < Absent(old(mem)[d], i, n))
              && (r.Mapped? ==>
                    |freelist| == |old(freelist)| - Absent(old(mem)[d], i, n) && TablesMade(old(mem)[d], mem[d], i, n))
      ensures r.Remap? ==> v1 < TWO32 / PGSIZE && Present(Pte(old(mem), d, v1 / ENTRIES, v1 % ENTRIES))
      ensures NewTables(GivenRange(old(owner), d, va / PGSIZE, v1, pa / PGSIZE), owner, d)
    {
      hide GivenRange, HeldFor;
      hide Exact, Pte, PDX, PTX, OneEntry, DataKept, Entry, NewTables, SameSpaces, RangeMapped, TablesMade, Absent, Gap, Taken;
      ghost var n := PDX(va + size - 1) + 1;
      SlotBounds(va, size);
      var a, last := va / PGSIZE * PGSIZE, (va + size - 1) / PGSIZE * PGSIZE;
      ghost var v0 := va / PGSIZE;
      v1 := v0;
      var p := pa;
      SameKeys(mem, owner, freelist);
      NothingMapped(owner, mem, d, v0, pa / PGSIZE, perm);
      TakenNone(mem[d], |freelist|, v0, n);
      GivenOne(owner, d, v0, pa / PGSIZE);
      while true
        invariant Valid() && IsDir(owner, d) && d in mem && DataKept(old(owner), old(mem), mem)
        invariant v0 <= v1 && a == v1 * PGSIZE && p == pa + (v1 - v0) * PGSIZE && a <= last
        invariant RangeMapped(old(owner), old(mem), mem, d, v0, v1, pa / PGSIZE, perm)
        invariant NewTables(GivenRange(old(owner), d, v0, v1, pa / PGSIZE), owner, d) && Taken(old(mem)[d], mem[d], |old(freelist)|, |freelist|, v0, v1, n)
        decreases last - a
      {
        SlotWithin(va, size, v1);
        HeldPart(old(owner), v0, v1 + 1, (va + size - 1) / PGSIZE + 1, pa / PGSIZE);
        r := MapNext(d, a, p, perm, v1, old(owner), old(mem), |old(freelist)|, v0, pa / PGSIZE, n);
        if !r.Mapped? { return; }
        v1 := v1 + 1;
        if a == last {
          TakenAll(old(mem)[d], mem[d], |old(freelist)|, |freelist|, v0, v1, n);
          return;
        }
        a, p := a + PGSIZE, p + PGSIZE;
      }
    }

    /** Free the page behind a user entry and clear the entry, in deallocuvm's order. */
    method Clear(d: nat, i: nat, j: nat, t: nat) returns (panic: bool)
      requires Valid() && IsDir(owner, d) && d in mem && i < USERSLOTS && j < ENTRIES && Present(Pte(mem, d, i, j)) && end > 0
      requires Present(mem[d][i]) && t == Frame(mem[d][i]) && t in mem
      modifies this
      ensures Valid() && IsDir(owner, d) && !panic
      ensures var f := Frame(Pte(old(mem), d, i, j));
              f in old(owner) && old(owner)[f] == User(d, i, j) && owner == old(owner)[f := Free] && freelist == [f] + old(freelist)
      ensures OneEntry(old(owner), old(mem), mem, d, i, j, 0) && DataKept(owner, old(mem), mem)
    {
      hide Exact, OneEntry, DataKept, JunkPage;
      UnmapStep(mem, owner, freelist, d, i, j);
      var f := Frame(mem[t][j]);
      var pa := f * PGSIZE;
      if pa == 0 { return true; }
      panic := Kfree(pa);
      mem := mem[t := mem[t][j := 0]];
      owner := owner[f := Free];
    }

    /** deallocuvm at one address that has a table, t. */
    method UnmapAt(d: nat, a: nat, t: nat, ghost lo: nat, ghost hi: nat, ghost owner0: Owners, ghost mem0: Memory)
      returns (panic: bool)
      requires Valid() && IsDir(owner, d) && end > 0 && lo <= a < hi <= a + PGSIZE && a < KERNBASE && Aligned(a)
      requires d in mem && Present(mem[d][PDX(a)]) && t == Frame(mem[d][PDX(a)]) && t in mem
      requires d in mem0 && IsDir(owner0, d) && mem0.Keys == owner0.Keys && Unmapped(owner0, owner, mem0, mem, d, lo, a)
      modifies this
      ensures Valid() && !panic && IsDir(owner, d) && Unmapped(owner0, owner, mem0, mem, d, lo, hi)
    {
      hide Exact, Pte, Unmapped, PDX, PTX, OneEntry, DataKept;
      Indices(a);
      var w := mem[t][PTX(a)];
      assert Pte(mem, d, PDX(a), PTX(a)) == w by { PteAt(mem, d, PDX(a), PTX(a)); }
      if Present(w) {
        ghost var mem1, owner1, free1 := mem, owner, freelist;
        panic := Clear(d, PDX(a), PTX(a), t);
        UnmapPage(owner0, owner1, owner, mem0, mem1, mem, free1, d, lo, PDX(a), PTX(a), hi, Frame(w));
      } else {
        panic := false;
        UnmapAbsentPage(owner0, owner, mem0, mem, freelist, d, lo, a, hi);
      }
    }

    /** Unmap and free the user pages from newsz, rounded up, to oldsz; skip directory slots without a table. */
    method Deallocuvm(d: nat, oldsz: nat, newsz: nat) returns (r: nat, panic: bool)
      requires Valid() && IsDir(owner, d) && oldsz <= KERNBASE && end > 0
      modifies this
      ensures Valid() && !panic && IsDir(owner, d)
      ensures newsz >= oldsz ==> r == oldsz && mem == old(mem) && owner == old(owner) && freelist == old(freelist)
      ensures newsz < oldsz ==> r == newsz && Unmapped(old(owner), owner, old(mem), mem, d, PGROUNDUP(newsz), oldsz)
    {
      hide Exact, Pte, Unmapped, PGROUNDUP, PDX, PTX, OneEntry, DataKept, Aligned;
      if newsz >= oldsz { return oldsz, false; }
      RoundedUp(newsz);
      var a := PGROUNDUP(newsz);
      r, panic := newsz, false;
      SameKeys(mem, owner, freelist);
      UnmapNone(owner, mem, d, a, Min(a, oldsz));
      while a < oldsz
        invariant Valid() && IsDir(owner, d) && r == newsz && !panic && Aligned(a) && PGROUNDUP(newsz) <= a
        invariant Unmapped(old(owner), owner, old(mem), mem, d, PGROUNDUP(newsz), Min(a, oldsz))
      {
        Indices(a);
        ghost var lo, next := PGROUNDUP(newsz), Min(a + PGSIZE, oldsz);
        SameKeys(mem, owner, freelist);
        var pte := Walkpgdir(d, a, false);
        if pte.None? {
          NextSlot(a);
          NoTable(old(owner), owner, old(mem), mem, freelist, d, lo, a, Min((PDX(a) + 1) * DIRSPAN, oldsz));
          a := (PDX(a) + 1) * DIRSPAN - PGSIZE;
        } else {
          panic := UnmapAt(d, a, pte.value, lo, next, old(owner), old(mem));
        }
        NextPage(a);
        a := a + PGSIZE;
      }
    }

    /**
      * One iteration of allocuvm at address a. f is the page kalloc gave; it is still the caller's
      * if no table could be made for it.
      */
    method GrowPage(d: nat, a: nat, hi: nat, ghost lo: nat, ghost owner0: Owners, ghost mem0: Memory)
      returns (r: MapResult, f: Option<nat>)
      requires Valid() && IsDir(owner, d) && lo <= a < hi <= a + PGSIZE && a < KERNBASE && Aligned(a)
      requires FreshRange(owner0, owner, mem0, mem, d, lo, a) && IsDir(owner0, d)
      requires d in mem0 && NothingIn(mem0, d, lo, hi)
      modifies this
      ensures Valid() && IsDir(owner, d) && !r.Remap?
      ensures r.Mapped? ==> FreshRange(owner0, owner, mem0, mem, d, lo, hi)
      ensures d in mem && d in old(mem) && (r.Mapped? <==> |old(freelist)| >= 1 + Gap(old(mem)[d], PDX(a)))
      ensures r.Mapped? ==>
                && |freelist| == |old(freelist)| - 1 - Gap(old(mem)[d], PDX(a))
                && TablesMade(old(mem)[d], mem[d], PDX(a), PDX(a) + 1)
      ensures !r.Mapped? && f.None? ==> FreshRange(owner0, owner, mem0, mem, d, lo, a)
      ensures !r.Mapped? && f.Some? ==>
                f.value in owner && owner[f.value] == Held && FreshRange(owner0, owner[f.value := Free], mem0, mem, d, lo, a)
    {
      hide Exact, Pte, FreshRange, RangeMapped, NewTables, Given, DataKept, SameSpaces, ZeroPage, PDX, PTX, NothingIn;
      ghost var owner1, mem1, free1 := owner, mem, freelist;
      SameKeys(mem, owner, freelist);
      f := Kalloc();
      if f.None? { return NoMemory, None; }
      DataWrite(mem, owner, freelist, f.value, ZeroPage());
      mem := mem[f.value := ZeroPage()];
      Indices(a);
      PageSlots(a);
      ghost var v1;
      OneSlot(mem[d], a);
      HeldOne(owner, a, f.value);
      GivenOne(owner, d, a / PGSIZE, f.value);
      r, v1 := Mappages(d, a, PGSIZE, f.value * PGSIZE, 6);
      HeldSpaces(owner1, mem1, mem1[f.value := ZeroPage()], f.value);
      if r.Mapped? {
        FreshMore(owner0, owner1, owner, mem0, mem1, mem, free1, d, lo, PDX(a), PTX(a), hi, f.value);
      } else {
        FreshSame(owner0, owner1, owner, mem0, mem1, mem, free1, d, lo, a, hi, f.value);
      }
    }

    /** Grow a process from oldsz to newsz: all the new pages, or none and the old translation. */
    method Allocuvm(d: nat, oldsz: nat, newsz: nat) returns (r: nat)
      requires Valid() && IsDir(owner, d) && end > 0
      requires d in mem && NothingIn(mem, d, PGROUNDUP(oldsz), newsz)
      modifies this
      ensures Valid() && IsDir(owner, d)
      ensures newsz >= KERNBASE ==> r == 0 && mem == old(mem) && owner == old(owner) && freelist == old(freelist)
      ensures newsz < oldsz && newsz < KERNBASE ==> r == oldsz && mem == old(mem) && owner == old(owner) && freelist == old(freelist)
      ensures oldsz <= newsz < KERNBASE && |old(freelist)| >= Frames(old(mem)[d], PGROUNDUP(oldsz), newsz) ==>
                && r == newsz && FreshRange(old(owner), owner, old(mem), mem, d, PGROUNDUP(oldsz), newsz)
                && |freelist| == |old(freelist)| - Frames(old(mem)[d], PGROUNDUP(oldsz), newsz)
      ensures oldsz <= newsz < KERNBASE && |old(freelist)| < Frames(old(mem)[d], PGROUNDUP(oldsz), newsz) ==>
                && r == 0 && SameSpaces(old(owner), old(mem), mem)
                && NewTables(old(owner), owner, d) && DataKept(old(owner), old(mem), mem)
    {
      hide Exact, Pte, FreshRange, Unmapped, SameSpaces, NewTables, DataKept, PGROUNDUP, NothingIn, Frames, Gap, TablesMade;
      if newsz >= KERNBASE { return 0; }
      if newsz < oldsz { return oldsz; }
      RoundedUp(oldsz);
      ghost var lo := PGROUNDUP(oldsz);
      var a := PGROUNDUP(oldsz);
      FreshNone(owner, mem, d, lo, Min(a, newsz));
      while a < newsz
        invariant Valid() && IsDir(owner, d) && Aligned(a) && lo <= a && d in mem
        invariant |freelist| + Frames(old(mem)[d], lo, newsz) == |old(freelist)| + Frames(mem[d], a, newsz)
        invariant FreshRange(old(owner), owner, old(mem), mem, d, lo, Min(a, newsz))
      {
        NothingLess(old(mem), d, lo, Min(a + PGSIZE, newsz), newsz);
        FramesFirst(mem[d], a, newsz);
        ghost var dir := mem[d];
        var m, f := GrowPage(d, a, Min(a + PGSIZE, newsz), lo, old(owner), old(mem));
        if !m.Mapped? {
          Undo(d, oldsz, newsz, a, f, lo, old(owner), old(mem), old(freelist));
          return 0;
        }
        FramesStep(dir, mem[d], a, newsz);
        NextPage(a);
        a := a + PGSIZE;
      }
      NoFrames(mem[d], a, newsz);
      return newsz;
    }

    /** allocuvm's way out: unmap what was mapped, then free the page left over. */
    method Undo(d: nat, oldsz: nat, newsz: nat, ghost a: nat, f: Option<nat>,
                ghost lo: nat, ghost owner0: Owners, ghost mem0: Memory, ghost free0: seq<nat>)
      requires Valid() && IsDir(owner, d) && end > 0 && oldsz < newsz < KERNBASE && lo == PGROUNDUP(oldsz) && a < newsz
      requires Exact(mem0, owner0, free0) && IsDir(owner0, d) && d in mem0 && NothingIn(mem0, d, lo, newsz)
      requires f.None? ==> FreshRange(owner0, owner, mem0, mem, d, lo, a)
      requires f.Some? ==>
                 f.value in owner && owner[f.value] == Held && FreshRange(owner0, owner[f.value := Free], mem0, mem, d, lo, a)
      modifies this
      ensures Valid() && IsDir(owner, d)
      ensures SameSpaces(owner0, mem0, mem) && NewTables(owner0, owner, d) && DataKept(owner0, mem0, mem)
    {
      hide Exact, Pte, FreshRange, Unmapped, SameSpaces, PGROUNDUP, NothingIn;
      ghost var owner1, mem1 := owner, mem;
      var r, panic := Deallocuvm(d, newsz, oldsz);
      if f.None? {
        Rollback(owner0, owner1, owner, mem0, mem1, mem, free0, d, lo, a, newsz);
        return;
      }
      HeldRange(owner1, owner, mem1, mem, d, lo, newsz, f.value);
      Rollback(owner0, owner1[f.value := Free], owner[f.value := Free], mem0, mem1, mem, free0, d, lo, a, newsz);
      ghost var owner2, mem2 := owner, mem;
      SameKeys(mem, owner, freelist);
      panic := Release(f.value);
      SameJoin(owner0, owner0, mem0, mem2, mem) by { TablesSpaces(owner0, owner, mem2, mem, d); }
    }

    /** Free every page, table and the directory of d. */
    method Freevm(d: nat) returns (panic: bool)
      requires Valid() && IsDir(owner, d) && end > 0
      modifies this
      ensures Valid() && !panic && owner == Released(old(owner), d, Free)
      ensures SameSpaces(owner, old(mem), mem) && DataKept(owner, old(mem), mem)
    {
      hide Exact, Pte, Unmapped, SameSpaces, DataKept, Released, PGROUNDUP;
      SameKeys(mem, owner, freelist);
      UserAddresses(mem, owner, freelist, d);
      var sz;
      sz, panic := Deallocuvm(d, KERNBASE, 0);
      assert PGROUNDUP(0) == 0 by { RoundedUp(0); }
      ghost var owner1, mem1, free1 := owner, mem, freelist;
      AllUnmapped(old(owner), owner1, old(mem), mem1, free1, d);
      Dismantle(mem, owner, freelist, d);
      SameKeys(mem, owner, freelist);
      owner := Released(owner, d, Held);
      TornNone(owner1, mem1, free1, d);
      var pgdir := mem[d];
      var i := 0;
      while i < ENTRIES
        invariant Valid() && !panic && i <= ENTRIES && d in mem && mem[d] == pgdir
        invariant Torn(owner1, owner, mem1, mem, d, i)
      {
        TornAt(owner1, owner, mem1, mem, free1, d, i);
        if Present(pgdir[i]) {
          ghost var owner2, mem2 := owner, mem;
          SameKeys(mem, owner, freelist);
          panic := Release(Frame(pgdir[i]));
          TornMore(owner1, owner2, owner, mem1, mem2, mem, free1, d, i);
        }
        i := i + 1;
      }
      assert d in owner && owner[d] == Held;
      ghost var owner2, mem2 := owner, mem;
      SameKeys(mem, owner, freelist);
      panic := Release(d);
      TornDown(old(owner), owner1, owner2, owner, old(mem), mem1, mem2, mem, d);
    }

    /** A new page directory with the kernel's mappings, or nothing taken. */
    method Setupkvm(data: nat) returns (r: Option<nat>)
      requires Valid() && end > 0 && DataAt(data)
      modifies this
      ensures Valid()
      ensures r.Some? ==> Beside(old(owner), owner, old(mem), mem, r.value) && r.value in mem && KernelUpTo(mem, r.value, data, 4)
      ensures r.None? <==> |old(freelist)| < KERNELFRAMES
      ensures r.Some? ==> |freelist| == |old(freelist)| - KERNELFRAMES && KernelSlots(mem[r.value], data, 4)
      ensures r.None? ==>
                owner == old(owner) && SameSpaces(owner, old(mem), mem) && DataKept(owner, old(mem), mem)
    {
      hide Exact, Pte, Beside, KernelUpTo, NewTables, SameSpaces, DataKept, Released, KernelSlots, KernelFrames;
      ghost var owner0, mem0, free0 := owner, mem, freelist;
      SameSelf(owner, mem);
      NothingMapped(owner, mem, 0, 0, 0, 0);
      r := Kalloc();
      if r.None? { return; }
      var d := r.value;
      StartSpace(owner0, mem0, freelist, d, data);
      mem := mem[d := ZeroPage()];
      owner := owner[d := Directory];
      assert owner == owner0[d := Directory];
      KernelNone(data);
      var k := 0;
      while k < 4
        invariant Valid() && IsDir(owner, d) && d in mem && k <= 4
        invariant Beside(owner0, owner, mem0, mem, d) && KernelUpTo(mem, d, data, k)
        invariant KernelSlots(mem[d], data, k) && |freelist| == |old(freelist)| - KernelFrames(data, k)
      {
        var ok := MapKernel(d, data, k, owner0, mem0, |old(freelist)|);
        if !ok {
          ghost var owner2, mem2 := owner, mem;
          var panic := Freevm(d);
          BesideGone(owner0, owner2, mem0, mem2, mem, free0, d);
          return None;
        }
        k := k + 1;
      }
      KernelAll(data);
    }

    /** One of the kernel's mappings. */
    method MapKernel(d: nat, data: nat, k: nat, ghost owner0: Owners, ghost mem0: Memory, ghost free0: nat) returns (ok: bool)
      requires Valid() && IsDir(owner, d) && d in mem && k < 4 && DataAt(data)
      requires Beside(owner0, owner, mem0, mem, d) && KernelUpTo(mem, d, data, k)
      requires KernelSlots(mem[d], data, k) && |freelist| == free0 - KernelFrames(data, k)
      modifies this
      ensures Valid() && IsDir(owner, d) && d in mem && Beside(owner0, owner, mem0, mem, d)
      ensures ok ==>
                && KernelUpTo(mem, d, data, k + 1) && KernelSlots(mem[d], data, k + 1)
                && |freelist| == free0 - KernelFrames(data, k + 1)
      ensures !ok ==> free0 < KERNELFRAMES
    {
      hide Exact, Pte, Beside, KernelUpTo, RangeMapped, NewTables, SameSpaces, DataKept, Released, Kmap;
      hide KernelSlots, TablesMade, Absent, KernelFrames, GivenRange, HeldFor;
      var m := Kmap(data)[k];
      KernelStep(mem[d], data, k);
      KernelFramesBound(data, k + 1);
      RangeEnd(data, k);
      Permission(data, k);
      ghost var owner1, mem1 := owner, mem;
      SameKeys(mem, owner, freelist);
      HeldNone(owner, data, k);
      var r;
      ghost var v1;
      r, v1 := Mappages(d, m.virt, (m.end - m.start) % TWO32, m.start, m.perm);
      SameKeys(mem, owner, freelist);
      GivenKernel(owner1, d, m.virt / PGSIZE, v1, m.start / PGSIZE);
      BesideTables(owner0, owner1, owner, mem0, mem1, mem, d, m.virt / PGSIZE, v1, m.start / PGSIZE, m.perm);
      KernelEmpty(mem1, d, data, k, v1);
      ok := !r.NoMemory?;
      if ok { KernelMore(owner1, mem1, mem, d, data, k); }
    }

    /** One iteration of copyuvm: copy the page behind the parent's entry w to slot a of the child c. */
    method CopyPage(p: nat, c: nat, a: nat, hi: nat, w: nat, data: nat,
                    ghost owner0: Owners, ghost mem0: Memory) returns (ok: bool)
      requires Valid() && end > 0 && p in mem0 && IsDir(owner0, p) && p in mem && c in mem && IsDir(owner, c)
      requires a < hi <= a + PGSIZE && a < KERNBASE && Aligned(a)
      requires Beside(owner0, owner, mem0, mem, c) && Copied(owner0, mem0, mem, p, c, a, data)
      requires w == Pte(mem0, p, PDX(a), PTX(a)) && Present(w)
      requires Frame(w) in mem0 && Frame(w) in mem && mem[Frame(w)] == mem0[Frame(w)]
      modifies this
      ensures Valid() && IsDir(owner, c) && c in mem && Beside(owner0, owner, mem0, mem, c)
      ensures ok ==> Copied(owner0, mem0, mem, p, c, hi, data)
      ensures c in old(mem) && (ok <==> |old(freelist)| >= 1 + Gap(old(mem)[c], PDX(a)))
      ensures ok ==>
                && |freelist| == |old(freelist)| - 1 - Gap(old(mem)[c], PDX(a))
                && TablesMade(old(mem)[c], mem[c], PDX(a), PDX(a) + 1)
    {
      hide Exact, Pte, Beside, Copied, RangeMapped, NewTables, SameSpaces, DataKept, PDX, PTX, Frame, Flags, Present, Given, NewSpace;
      hide TablesMade, Gap, Absent, JunkPage, GivenRange, HeldFor;
      ghost var owner1, mem1, free1 := owner, mem, freelist;
      SameKeys(mem, owner, freelist);
      var f := Kalloc();
      if f.None? { return false; }
      var bytes, flags := mem[Frame(w)], Flags(w);
      DataWrite(mem, owner, freelist, f.value, bytes);
      mem := mem[f.value := bytes];
      HeldSpaces(owner1, mem1, mem, f.value);
      Indices(a);
      PageSlots(a);
      ChildEmpty(owner0, mem0, mem1, p, c, PDX(a), PTX(a), data);
      SamePte(owner1, mem1, mem, c, PDX(a), PTX(a));
      FreeBefore(owner0, owner1, mem0, mem1, c, f.value);
      ghost var v1;
      var r;
      OneSlot(mem[c], a);
      HeldOne(owner, a, f.value);
      GivenOne(owner, c, a / PGSIZE, f.value);
      r, v1 := Mappages(c, a, PGSIZE, f.value * PGSIZE, flags);
      SameKeys(mem, owner, freelist);
      if r.NoMemory? {
        BesideHeld(owner0, owner1, owner, mem0, mem1, mem, free1, c, a / PGSIZE, f.value, bytes, flags);
        ghost var owner2, mem2 := owner, mem;
        var panic := Release(f.value);
        BesideFreed(owner0, owner2, mem0, mem2, c, f.value, JunkPage());
        return false;
      }
      BesideUser(owner0, owner1, owner, mem0, mem1, mem, free1, c, PDX(a), PTX(a), f.value, bytes, flags);
      CopyMore(owner0, owner1, mem0, mem1, mem, free1, p, c, PDX(a), PTX(a), hi, data, f.value);
      return true;
    }

    /** Copy a parent's address space up to sz for a child: the whole copy, or nothing taken. */
    method Copyuvm(p: nat, sz: nat, data: nat) returns (r: CopyResult)
      requires Valid() && IsDir(owner, p) && end > 0 && DataAt(data) && sz <= KERNBASE
      modifies this
      ensures r.Child? ==>
                && Valid() && p in old(mem) && r.dir in mem && Beside(old(owner), owner, old(mem), mem, r.dir)
                && Copied(old(owner), old(mem), mem, p, r.dir, sz, data)
      ensures r.NoPages? ==>
                && Valid() && owner == old(owner) && (forall f :: f in freelist <==> f in old(freelist))
                && SameSpaces(owner, old(mem), mem) && DataKept(owner, old(mem), mem)
      ensures r.Panic? ==> p in old(mem) && !AllPresent(old(mem), p, sz)
      ensures r.NoPages? ==> |old(freelist)| < CopyFrames(sz)
      ensures r.Child? ==> |freelist| == |old(freelist)| - CopyFrames(sz) && AllPresent(old(mem), p, sz)
    {
      hide Gap, TablesMade, Frames, KernelSlots;
      hide Exact, Pte, Beside, Copied, SameSpaces, DataKept, Released, PDX, PTX, Frame, Present, AllPresent;
      ghost var owner0, mem0, free0 := owner, mem, freelist;
      SameKeys(mem, owner, freelist);
      var d := Setupkvm(data);
      if d.None? {
        SameFree(mem0, mem, owner0, free0, freelist);
        return NoPages;
      }
      var c := d.value;
      CopyNone(owner0, mem0, mem, p, c, data);
      UserFrames(mem[c], data, sz);
      BesideDirs(owner0, owner, mem0, mem, p, c);
      var a := 0;
      while a < sz
        invariant Valid() && IsDir(owner, p) && IsDir(owner, c) && c in mem && Aligned(a)
        invariant Beside(owner0, owner, mem0, mem, c) && Copied(owner0, mem0, mem, p, c, Min(a, sz), data)
        invariant |freelist| + CopyFrames(sz) == |old(freelist)| + Frames(mem[c], a, sz)
      {
        Indices(a);
        SameKeys(mem, owner, freelist);
        ParentPage(owner0, owner, mem0, mem, free0, p, c, PDX(a), PTX(a));
        PageAbsent(mem0, p, sz, PDX(a), PTX(a));
        var pte := Walkpgdir(p, a, false);
        if pte.None? {
          NoTablePte(mem, p, PDX(a), PTX(a));
          return Panic;
        }
        var w := mem[pte.value][PTX(a)];
        PteAt(mem, p, PDX(a), PTX(a));
        if !Present(w) { return Panic; }
        FramesFirst(mem[c], a, sz);
        ghost var dir := mem[c];
        var ok := CopyPage(p, c, a, Min(a + PGSIZE, sz), w, data, owner0, mem0);
        if !ok {
          ghost var owner2, mem2 := owner, mem;
          var panic := Freevm(c);
          BesideGone(owner0, owner2, mem0, mem2, mem, free0, c);
          SameFree(mem0, mem, owner0, free0, freelist);
          return NoPages;
        }
        BesideDirs(owner0, owner, mem0, mem, p, c);
        FramesStep(dir, mem[c], a, sz);
        NextPage(a);
        a := a + PGSIZE;
      }
      NoFrames(mem[c], a, sz);
      CopiedPresent(owner0, mem0, mem, p, c, sz, data);
      return Child(c);
    }
  }
}
