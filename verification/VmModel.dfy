/** Page frames, two-level page tables and who holds each frame (vm.c, kalloc.c) as values. */
module VmModel {

  const PGSIZE := 4096
  const ENTRIES := 1024
  /** Directory slots below KERNBASE. */
  const USERSLOTS := 512

  /** A 4096-byte page as 1024 words. */
  type Page = s: seq<nat> | |s| == 1024 witness seq(1024, _ => 0)

  function ZeroPage(): Page { seq(ENTRIES, _ => 0) }

  /** What kfree leaves in a page. */
  function JunkPage(): Page { seq(ENTRIES, _ => 0x0101_0101) }

  // ---------------------------------------------------------------- entries

  predicate Present(w: nat) { w % 2 == 1 }

  function Frame(w: nat): nat { w / PGSIZE }

  function Flags(w: nat): (low: nat)
    ensures low < PGSIZE
  {
    w % PGSIZE
  }

  lemma EntryParts(f: nat, low: nat)
    requires low < PGSIZE
    ensures (f * PGSIZE + low) / PGSIZE == f && (f * PGSIZE + low) % PGSIZE == low
    ensures (f * PGSIZE + low) % 2 == low % 2
  {
    assert f * PGSIZE + low == 2 * (2048 * f) + low;
  }

  /** The entry that maps frame f with the given low bits and PTE_P. */
  function Entry(f: nat, flags: nat): (w: nat)
    requires flags < PGSIZE
    ensures Present(w) && Frame(w) == f && Flags(w) == (if flags % 2 == 1 then flags else flags + 1)
  {
    var low := if flags % 2 == 1 then flags else flags + 1;
    EntryParts(f, low);
    f * PGSIZE + low
  }

  // ---------------------------------------------------------------- the two levels

  type Memory = map<nat, Page>

  /** The table entry for slot j of directory slot i; 0 where there is no table. */
  function Pte(mem: Memory, d: nat, i: nat, j: nat): nat
    requires d in mem && i < ENTRIES && j < ENTRIES
  {
    if Present(mem[d][i]) && Frame(mem[d][i]) in mem then mem[Frame(mem[d][i])][j] else 0
  }

  // ---------------------------------------------------------------- who holds a frame

  datatype Place =
    | Free
    | Directory
    | Table(dir: nat, i: nat)
    | User(dir: nat, i: nat, j: nat)
    | Held

  type Owners = map<nat, Place>

  predicate IsDir(owner: Owners, d: nat) { d in owner && owner[d] == Directory }

  predicate DirEntryOk(mem: Memory, owner: Owners, d: nat, i: nat) {
    d in mem && IsDir(owner, d) && i < ENTRIES && Present(mem[d][i]) ==>
      Frame(mem[d][i]) in owner && owner[Frame(mem[d][i])] == Table(d, i)
  }

  /** A user entry is 0 or maps a frame held for it. */
  predicate UserEntryOk(mem: Memory, owner: Owners, d: nat, i: nat, j: nat) {
    d in mem && IsDir(owner, d) && i < USERSLOTS && j < ENTRIES ==>
      if Present(Pte(mem, d, i, j))
      then Frame(Pte(mem, d, i, j)) in owner && owner[Frame(Pte(mem, d, i, j))] == User(d, i, j)
      else Pte(mem, d, i, j) == 0
  }

  predicate PlaceOk(mem: Memory, owner: Owners, free: seq<nat>, f: nat) {
    f in owner ==>
      match owner[f]
      case Free => f in free
      case Table(d, i) => d in mem && IsDir(owner, d) && i < ENTRIES && Present(mem[d][i]) && Frame(mem[d][i]) == f
      case User(d, i, j) =>
        && d in mem && IsDir(owner, d) && i < USERSLOTS && j < ENTRIES
        && Present(Pte(mem, d, i, j)) && Frame(Pte(mem, d, i, j)) == f
      case _ => true
  }

  predicate FreeOk(owner: Owners, free: seq<nat>) {
    && (forall k :: 0 <= k < |free| ==> free[k] in owner && owner[free[k]] == Free)
    && (forall k, l :: 0 <= k < l < |free| ==> free[k] != free[l])
  }

  /** Every frame is in exactly one place, and the memory's contents say which. */
  ghost predicate Exact(mem: Memory, owner: Owners, free: seq<nat>) {
    && mem.Keys == owner.Keys && FreeOk(owner, free)
    && (forall d, i {:trigger DirEntryOk(mem, owner, d, i)} :: DirEntryOk(mem, owner, d, i))
    && (forall d, i, j {:trigger UserEntryOk(mem, owner, d, i, j)} :: UserEntryOk(mem, owner, d, i, j))
    && (forall f {:trigger PlaceOk(mem, owner, free, f)} :: PlaceOk(mem, owner, free, f))
  }

  /** Every address space of owner reads the same in both memories. */
  ghost predicate SameSpaces(owner: Owners, mem: Memory, mem': Memory) {
    forall d, i, j {:trigger Pte(mem', d, i, j)} ::
      d in mem && d in mem' && IsDir(owner, d) && 0 <= i < ENTRIES && 0 <= j < ENTRIES ==> Pte(mem', d, i, j) == Pte(mem, d, i, j)
  }

  // ---------------------------------------------------------------- single steps

  /** kalloc: the first free frame goes to the caller. */
  lemma TakeFree(mem: Memory, owner: Owners, free: seq<nat>)
    requires Exact(mem, owner, free) && free != []
    ensures free[0] in owner && owner[free[0]] == Free
    ensures Exact(mem, owner[free[0] := Held], free[1..])
  {
    var f, owner' := free[0], owner[free[0] := Held];
    forall d: nat, i: nat ensures DirEntryOk(mem, owner', d, i) { assert DirEntryOk(mem, owner, d, i); }
    forall d: nat, i: nat, j: nat ensures UserEntryOk(mem, owner', d, i, j) { assert UserEntryOk(mem, owner, d, i, j); }
    forall g: nat ensures PlaceOk(mem, owner', free[1..], g) { assert PlaceOk(mem, owner, free, g); }
  }

  /** A frame its holder owns outright holds no table: its contents are not read as entries. */
  lemma DataWrite(mem: Memory, owner: Owners, free: seq<nat>, f: nat, p: Page)
    requires Exact(mem, owner, free) && f in owner && owner[f] in {Held, Free}
    ensures Exact(mem[f := p], owner, free) && SameSpaces(owner, mem, mem[f := p])
  {
    var mem' := mem[f := p];
    forall d: nat, i: nat ensures DirEntryOk(mem', owner, d, i) { assert DirEntryOk(mem, owner, d, i); }
    forall d: nat, i: nat, j: nat | d in mem && IsDir(owner, d) && i < ENTRIES && j < ENTRIES
      ensures Pte(mem', d, i, j) == Pte(mem, d, i, j)
    {
      assert DirEntryOk(mem, owner, d, i);
    }
    forall d: nat, i: nat, j: nat ensures UserEntryOk(mem', owner, d, i, j) { assert UserEntryOk(mem, owner, d, i, j); }
    forall g: nat ensures PlaceOk(mem', owner, free, g) { assert PlaceOk(mem, owner, free, g); }
  }

  /** kfree's list push: a held frame becomes free. */
  lemma GiveBack(mem: Memory, owner: Owners, free: seq<nat>, f: nat)
    requires Exact(mem, owner, free) && f in owner && owner[f] == Held
    ensures Exact(mem, owner[f := Free], [f] + free)
  {
    var owner', free' := owner[f := Free], [f] + free;
    forall d: nat, i: nat ensures DirEntryOk(mem, owner', d, i) { assert DirEntryOk(mem, owner, d, i); }
    forall d: nat, i: nat, j: nat ensures UserEntryOk(mem, owner', d, i, j) { assert UserEntryOk(mem, owner, d, i, j); }
    forall g: nat ensures PlaceOk(mem, owner', free', g) { assert PlaceOk(mem, owner, free, g); assert free'[0] == f; }
  }

  /** setupkvm's first step: a zeroed frame becomes an empty page directory. */
  lemma NewDirectory(mem: Memory, owner: Owners, free: seq<nat>, d: nat)
    requires Exact(mem, owner, free) && d in owner && owner[d] == Held && mem[d] == ZeroPage()
    ensures Exact(mem, owner[d := Directory], free)
    ensures forall i, j :: 0 <= i < ENTRIES && 0 <= j < ENTRIES ==> Pte(mem, d, i, j) == 0
  {
    var owner' := owner[d := Directory];
    forall e: nat, i: nat ensures DirEntryOk(mem, owner', e, i) { assert DirEntryOk(mem, owner, e, i); }
    forall e: nat, i: nat, j: nat ensures UserEntryOk(mem, owner', e, i, j) { assert UserEntryOk(mem, owner, e, i, j); }
    forall g: nat ensures PlaceOk(mem, owner', free, g) { assert PlaceOk(mem, owner, free, g); }
  }

  /** walkpgdir's allocation: a zeroed frame becomes the table of an empty directory slot. */
  lemma NewTable(mem: Memory, owner: Owners, free: seq<nat>, d: nat, i: nat, t: nat)
    requires Exact(mem, owner, free) && IsDir(owner, d) && i < ENTRIES && !Present(mem[d][i])
    requires t in owner && owner[t] == Held && mem[t] == ZeroPage()
    ensures Exact(mem[d := mem[d][i := Entry(t, 7)]], owner[t := Table(d, i)], free)
    ensures SameSpaces(owner, mem, mem[d := mem[d][i := Entry(t, 7)]])
  {
    hide Entry;
    var mem', owner' := mem[d := mem[d][i := Entry(t, 7)]], owner[t := Table(d, i)];
    forall e: nat, k: nat ensures DirEntryOk(mem', owner', e, k) { assert DirEntryOk(mem, owner, e, k); }
    forall e: nat, k: nat, j: nat | e in mem && IsDir(owner, e) && k < ENTRIES && j < ENTRIES
      ensures Pte(mem', e, k, j) == Pte(mem, e, k, j)
    {
      assert DirEntryOk(mem, owner, e, k);
    }
    forall e: nat, k: nat, j: nat ensures UserEntryOk(mem', owner', e, k, j) { assert UserEntryOk(mem, owner, e, k, j); }
    forall g: nat ensures PlaceOk(mem', owner', free, g) { assert PlaceOk(mem, owner, free, g); }
  }

  /** Storing w in slot j of the table of directory slot i. */
  function PutPte(mem: Memory, d: nat, i: nat, j: nat, w: nat): (r: Memory)
    requires d in mem && i < ENTRIES && j < ENTRIES && Frame(mem[d][i]) in mem
    ensures r.Keys == mem.Keys && forall g :: g in mem && g != Frame(mem[d][i]) ==> r[g] == mem[g]
  {
    mem[Frame(mem[d][i]) := mem[Frame(mem[d][i])][j := w]]
  }

  /** It changes that entry and no other, in any address space. */
  lemma PutPteReads(mem: Memory, owner: Owners, free: seq<nat>, d: nat, i: nat, j: nat, w: nat, e: nat, k: nat, l: nat)
    requires Exact(mem, owner, free) && IsDir(owner, d) && i < ENTRIES && j < ENTRIES && Present(mem[d][i])
    requires IsDir(owner, e) && k < ENTRIES && l < ENTRIES
    ensures Frame(mem[d][i]) in mem && PutPte(mem, d, i, j, w)[e] == mem[e]
    ensures Pte(PutPte(mem, d, i, j, w), e, k, l) == if (e, k, l) == (d, i, j) then w else Pte(mem, e, k, l)
  {
    assert DirEntryOk(mem, owner, d, i) && DirEntryOk(mem, owner, e, k);
  }

  /** A user entry and the frame behind it change together. */
  lemma RetargetUser(mem: Memory, owner: Owners, free: seq<nat>, d: nat, i: nat, j: nat, w: nat, f: nat, p: Place)
    requires Exact(mem, owner, free) && IsDir(owner, d) && i < USERSLOTS && j < ENTRIES && Present(mem[d][i])
    requires f in owner && owner[f] in {Held, User(d, i, j)} && p in {Held, User(d, i, j)}
    requires owner[f] == Held ==> !Present(Pte(mem, d, i, j))
    requires if p == Held then w == 0 else Present(w) && Frame(w) == f
    ensures Frame(mem[d][i]) in mem && Exact(PutPte(mem, d, i, j, w), owner[f := p], free)
  {
    hide PutPte, Pte;
    PutPteReads(mem, owner, free, d, i, j, w, d, i, j);
    var mem', owner' := PutPte(mem, d, i, j, w), owner[f := p];
    forall e: nat, k: nat ensures DirEntryOk(mem', owner', e, k) {
      assert DirEntryOk(mem, owner, e, k);
      if IsDir(owner, e) && k < ENTRIES { PutPteReads(mem, owner, free, d, i, j, w, e, k, 0); }
    }
    assert PlaceOk(mem, owner, free, f);
    forall e: nat, k: nat, l: nat ensures UserEntryOk(mem', owner', e, k, l) {
      assert UserEntryOk(mem, owner, e, k, l);
      if IsDir(owner, e) && k < ENTRIES && l < ENTRIES { PutPteReads(mem, owner, free, d, i, j, w, e, k, l); }
    }
    forall g: nat ensures PlaceOk(mem', owner', free, g) {
      assert PlaceOk(mem, owner, free, g);
      if g in owner && owner[g].Table? {
        PutPteReads(mem, owner, free, d, i, j, w, owner[g].dir, owner[g].i, 0);
      }
      if g in owner && owner[g].User? {
        PutPteReads(mem, owner, free, d, i, j, w, owner[g].dir, owner[g].i, owner[g].j);
      }
      assert UserEntryOk(mem, owner, d, i, j);
    }
  }

  /** Above KERNBASE the entries hold no frame of the allocator's. */
  lemma MapKernel(mem: Memory, owner: Owners, free: seq<nat>, d: nat, i: nat, j: nat, w: nat)
    requires Exact(mem, owner, free) && IsDir(owner, d) && USERSLOTS <= i < ENTRIES && j < ENTRIES && Present(mem[d][i])
    ensures Frame(mem[d][i]) in mem && Exact(PutPte(mem, d, i, j, w), owner, free)
  {
    hide PutPte, Pte;
    PutPteReads(mem, owner, free, d, i, j, w, d, i, j);
    var mem' := PutPte(mem, d, i, j, w);
    forall e: nat, k: nat ensures DirEntryOk(mem', owner, e, k) {
      assert DirEntryOk(mem, owner, e, k);
      if IsDir(owner, e) && k < ENTRIES { PutPteReads(mem, owner, free, d, i, j, w, e, k, 0); }
    }
    forall e: nat, k: nat, l: nat ensures UserEntryOk(mem', owner, e, k, l) {
      assert UserEntryOk(mem, owner, e, k, l);
      if IsDir(owner, e) && k < ENTRIES && l < ENTRIES { PutPteReads(mem, owner, free, d, i, j, w, e, k, l); }
    }
    forall g: nat ensures PlaceOk(mem', owner, free, g) {
      assert PlaceOk(mem, owner, free, g);
      if g in owner && owner[g].Table? {
        PutPteReads(mem, owner, free, d, i, j, w, owner[g].dir, owner[g].i, 0);
      }
      if g in owner && owner[g].User? {
        PutPteReads(mem, owner, free, d, i, j, w, owner[g].dir, owner[g].i, owner[g].j);
      }
    }
  }

  /** f is the directory d, one of its tables or one of its user pages. */
  predicate Belongs(owner: Owners, f: nat, d: nat) {
    f in owner && match owner[f] {
      case Directory => f == d
      case Table(e, _) => e == d
      case User(e, _, _) => e == d
      case _ => false
    }
  }

  /** The space d given up: everything of its becomes p. */
  ghost function Released(owner: Owners, d: nat, p: Place): (r: Owners)
    ensures r.Keys == owner.Keys
  {
    map f | f in owner :: if Belongs(owner, f, d) then p else owner[f]
  }

  /** freevm once no user page is mapped: directory and tables are the caller's to free. */
  lemma Dismantle(mem: Memory, owner: Owners, free: seq<nat>, d: nat)
    requires Exact(mem, owner, free) && IsDir(owner, d)
    requires forall i, j :: 0 <= i < USERSLOTS && 0 <= j < ENTRIES ==> !Present(Pte(mem, d, i, j))
    ensures Exact(mem, Released(owner, d, Held), free)
  {
    hide Pte;
    var owner' := Released(owner, d, Held);
    forall e: nat, i: nat ensures DirEntryOk(mem, owner', e, i) { assert DirEntryOk(mem, owner, e, i); }
    forall e: nat, i: nat, j: nat ensures UserEntryOk(mem, owner', e, i, j) { assert UserEntryOk(mem, owner, e, i, j); }
    forall g: nat ensures PlaceOk(mem, owner', free, g) { assert PlaceOk(mem, owner, free, g); }
  }

  // ---------------------------------------------------------------- steps the methods take

  /** Pte(mem', ...) reads w at one entry and as in mem at every other. */
  ghost predicate OneEntry(owner: Owners, mem: Memory, mem': Memory, d: nat, i: nat, j: nat, w: nat) {
    && mem'.Keys == mem.Keys
    && forall e, k, l {:trigger Pte(mem', e, k, l)} ::
         e in mem && IsDir(owner, e) && 0 <= k < ENTRIES && 0 <= l < ENTRIES ==>
           Pte(mem', e, k, l) == if (e, k, l) == (d, i, j) then w else Pte(mem, e, k, l)
  }

  /** Pages in use keep their bytes. */
  ghost predicate DataKept(owner: Owners, mem: Memory, mem': Memory) {
    && mem'.Keys == mem.Keys
    && forall f {:trigger mem'[f]} :: f in owner && f in mem && (owner[f].User? || owner[f].Held?) ==> mem'[f] == mem[f]
  }

  lemma PutPteStep(mem: Memory, owner: Owners, free: seq<nat>, d: nat, i: nat, j: nat, w: nat)
    requires Exact(mem, owner, free) && IsDir(owner, d) && i < ENTRIES && j < ENTRIES && Present(mem[d][i])
    ensures Frame(mem[d][i]) in mem && PutPte(mem, d, i, j, w)[d] == mem[d]
    ensures OneEntry(owner, mem, PutPte(mem, d, i, j, w), d, i, j, w) && DataKept(owner, mem, PutPte(mem, d, i, j, w))
  {
    hide Pte, PutPte;
    PutPteReads(mem, owner, free, d, i, j, w, d, i, j);
    var mem' := PutPte(mem, d, i, j, w);
    forall e: nat, k: nat, l: nat | e in mem && IsDir(owner, e) && k < ENTRIES && l < ENTRIES
      ensures Pte(mem', e, k, l) == if (e, k, l) == (d, i, j) then w else Pte(mem, e, k, l)
    {
      PutPteReads(mem, owner, free, d, i, j, w, e, k, l);
    }
    assert DirEntryOk(mem, owner, d, i);
  }

  /** deallocuvm's step: kfree the page behind an entry, then clear the entry. */
  lemma UnmapStep(mem: Memory, owner: Owners, free: seq<nat>, d: nat, i: nat, j: nat)
    requires Exact(mem, owner, free) && IsDir(owner, d) && i < USERSLOTS && j < ENTRIES && Present(Pte(mem, d, i, j))
    ensures var f := Frame(Pte(mem, d, i, j));
            && f in owner && f in mem && owner[f] == User(d, i, j) && d in mem && d != f
            && var mem1 := mem[f := JunkPage()];
            && Frame(mem1[d][i]) in mem1 && Frame(mem1[d][i]) != f
            && var mem' := PutPte(mem1, d, i, j, 0);
            && Exact(mem', owner[f := Free], [f] + free)
            && OneEntry(owner, mem, mem', d, i, j, 0) && DataKept(owner[f := Free], mem, mem')
  {
    hide PutPte, JunkPage;
    assert UserEntryOk(mem, owner, d, i, j) && DirEntryOk(mem, owner, d, i);
    var f, t := Frame(Pte(mem, d, i, j)), Frame(mem[d][i]);
    assert owner[t] == Table(d, i) && owner[f] == User(d, i, j) && f != t && f != d;
    var cleared, held := PutPte(mem, d, i, j, 0), owner[f := Held];
    RetargetUser(mem, owner, free, d, i, j, 0, f, Held);
    PutPteStep(mem, owner, free, d, i, j, 0);
    DataWrite(cleared, held, free, f, JunkPage());
    GiveBack(cleared[f := JunkPage()], held, free, f);
    assert held[f := Free] == owner[f := Free];
    assert PutPte(mem[f := JunkPage()], d, i, j, 0) == cleared[f := JunkPage()] by {
      SwapWrites(mem, d, i, j, 0, f, JunkPage());
    }
  }

  lemma SwapWrites(mem: Memory, d: nat, i: nat, j: nat, w: nat, f: nat, p: Page)
    requires d in mem && i < ENTRIES && j < ENTRIES && Frame(mem[d][i]) in mem
    requires f in mem && f != d && f != Frame(mem[d][i])
    ensures PutPte(mem[f := p], d, i, j, w) == PutPte(mem, d, i, j, w)[f := p]
  {
  }

  /** The owners fix the free list up to order. */
  lemma SameFree(mem: Memory, mem': Memory, owner: Owners, free: seq<nat>, free': seq<nat>)
    requires Exact(mem, owner, free) && Exact(mem', owner, free')
    ensures forall f :: f in free <==> f in free'
  {
    forall f: nat ensures f in free <==> f in free' {
      assert PlaceOk(mem, owner, free, f) && PlaceOk(mem', owner, free', f);
    }
  }
}
