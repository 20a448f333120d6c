/** Resolving a path over the directories of a file system (fs.c: namex, dirlookup, iget, iput). */
module Namei {
  import opened Base
  import opened FsModel
  import opened FileSystem
  import opened Directory
  import opened Paths
  import opened Inodes

  // ---------------------------------------------------------------- directories as a tree

  predicate IsDir(fs: Fs, i: nat) {
    i < |fs.inodes| && fs.inodes[i].typ == T_DIR
  }

  /** Entry k is the first one in use under its name: the one a lookup finds. */
  predicate FirstNamed(c: seq<byte>, k: nat) {
    && (k + 1) * DIRENT <= |c| && Names(c, k, EntryName(c, k))
    && forall j :: 0 <= j < k ==> !Names(c, j, EntryName(c, k))
  }

  /** What looking up names in a directory gives. */
  ghost function Lookups(c: seq<byte>): map<Name, nat> {
    map name | name in NamesIn(c) :: Inum(c, FirstOf(c, name))
  }

  function NamesIn(c: seq<byte>): set<Name> {
    set k | 0 <= k < Entries(c) && FirstNamed(c, k) :: EntryName(c, k)
  }

  ghost function FirstOf(c: seq<byte>, name: Name): (k: nat)
    requires name in NamesIn(c)
    ensures FirstNamed(c, k) && EntryName(c, k) == name
  {
    var k: nat :| k < Entries(c) && FirstNamed(c, k) && EntryName(c, k) == name;
    k
  }

  lemma LookupsAt(c: seq<byte>, k: nat, name: Name)
    requires FirstNamed(c, k) && EntryName(c, k) == name
    ensures name in Lookups(c) && Lookups(c)[name] == Inum(c, k)
  {
    hide Inum, EntryName;
    var j := FirstOf(c, name);
    assert Names(c, j, name) && Names(c, k, name);
  }

  lemma LookupsNone(c: seq<byte>, name: Name)
    requires forall j :: !Names(c, j, name)
    ensures name !in Lookups(c)
  {
  }

  /** Where no name is in use twice, a directory's lookups are its map. */
  lemma LookupsAreDirMap(c: seq<byte>)
    requires Unique(c)
    ensures Lookups(c) == DirMap(c)
  {
    hide Inum, EntryName;
    forall name ensures name in Lookups(c) <==> name in DirMap(c) {
      if name in DirMap(c) {
        var k :| Names(c, k, name);
        LookupsAt(c, k, name);
      }
      if name in Lookups(c) { assert Names(c, FirstOf(c, name), name); }
    }
    forall name | name in Lookups(c) ensures Lookups(c)[name] == DirMap(c)[name] {
      assert Names(c, FirstOf(c, name), name);
    }
  }

  /** Every directory is of a size a file can have. */
  ghost predicate DirsFit(fs: Fs) {
    Shaped(fs) && forall i: nat :: IsDir(fs, i) ==> fs.inodes[i].size <= MAXFILE * BSIZE
  }

  /** Every directory of fs. */
  ghost function TreeOf(fs: Fs): (tree: Tree)
    requires DirsFit(fs)
    ensures forall i: nat :: i in tree <==> IsDir(fs, i)
    ensures forall i: nat :: IsDir(fs, i) ==> tree[i] == Lookups(Contents(fs, i))
  {
    map i: nat | i < |fs.inodes| && IsDir(fs, i) :: Lookups(Contents(fs, i))
  }

  /** Every entry in use names an inode below n. */
  predicate Targets(tree: Tree, n: nat) {
    forall i, name :: i in tree && name in tree[i] ==> tree[i][name] < n
  }

  /** Every directory has a link or a reference: one with neither is gone. */
  ghost predicate Alive(fs: Fs, slots: seq<Paths.Slot>) {
    forall i: nat :: IsDir(fs, i) ==> fs.inodes[i].nlink > 0 || Refs(slots, i) > 0
  }

  ghost predicate Ready(f: FileSys)
    reads f
  {
    DirsFit(f.fs) && Exact(f.meta, f.fs, f.owner) && |f.dinodes| == |f.fs.inodes|
  }

  /** fs and gs have the same directories, with the same entries and links. */
  ghost predicate SameTree(fs: Fs, gs: Fs) {
    && DirsFit(fs) && DirsFit(gs) && |gs.inodes| == |fs.inodes| && TreeOf(gs) == TreeOf(fs)
    && forall i: nat :: IsDir(fs, i) ==> gs.inodes[i].nlink == fs.inodes[i].nlink
  }

  lemma SameTreeSelf(fs: Fs)
    requires DirsFit(fs)
    ensures SameTree(fs, fs)
  {
  }

  lemma SameTreeTrans(fs: Fs, gs: Fs, hs: Fs)
    requires SameTree(fs, gs) && SameTree(gs, hs)
    ensures SameTree(fs, hs)
  {
    hide TreeOf;
    assert forall i: nat :: IsDir(fs, i) <==> i in TreeOf(fs);
    assert forall i: nat :: IsDir(gs, i) <==> i in TreeOf(gs);
  }

  lemma SameDirs(fs: Fs, gs: Fs)
    requires DirsFit(fs) && Shaped(gs) && |gs.inodes| == |fs.inodes|
    requires forall i: nat :: i < |fs.inodes| ==> (IsDir(gs, i) <==> IsDir(fs, i))
    requires forall i: nat :: IsDir(fs, i) ==>
               gs.inodes[i].size == fs.inodes[i].size && gs.inodes[i].nlink == fs.inodes[i].nlink && Files(gs)[i] == Files(fs)[i]
    ensures SameTree(fs, gs)
  {
    hide Lookups, Files;
    var t, u := TreeOf(fs), TreeOf(gs);
    forall i: nat ensures (i in u <==> i in t) && (i in t ==> u[i] == t[i]) {
      if IsDir(fs, i) { assert Contents(gs, i) == Contents(fs, i); }
    }
  }

  /** Reading a directory leaves the tree alone. */
  lemma LookedTree(fs: Fs, gs: Fs, dp: nat, n: nat)
    requires DirsFit(fs) && Looked(fs, gs, dp, 0, n)
    ensures SameTree(fs, gs) && DirsFit(gs) && |gs.inodes| == |fs.inodes| && Files(gs) == Files(fs)
    ensures forall i: nat :: IsDir(fs, i) ==> IsDir(gs, i) && gs.inodes[i].nlink == fs.inodes[i].nlink
  {
    hide Files, Allocated, FreeSet, Lacking;
    SameDirs(fs, gs);
  }

  /** So does giving back an inode that is not a directory. */
  lemma GivenBackTree(fs: Fs, gs: Fs, i: nat)
    requires DirsFit(fs) && GivenBack(fs, gs, i) && !IsDir(fs, i)
    ensures SameTree(fs, gs)
  {
    hide Files;
    SameDirs(fs, gs);
  }

  // ---------------------------------------------------------------- one step of the walk

  lemma {:induction false} CanonTerminated(c: Name, tail: seq<byte>, n: nat)
    requires 0 !in c && |c| <= n && (|c| < n ==> tail != [] && tail[0] == 0) && (|c| == n ==> tail == [])
    ensures Canon(c + tail, n) == c
  {
    if c == [] {
      assert c + tail == tail;
    } else {
      assert (c + tail)[1..] == c[1..] + tail;
      CanonTerminated(c[1..], tail, n - 1);
    }
  }

  /** The lookup of one name, as a step in the tree. */
  lemma FoundStep(fs: Fs, dp: nat, name: Name, r: Lookup)
    requires DirsFit(fs) && IsDir(fs, dp)
    requires r.Found? ==>
               && Names(Contents(fs, dp), r.off / DIRENT, name) && r.inum == Inum(Contents(fs, dp), r.off / DIRENT)
               && forall j :: 0 <= j < r.off / DIRENT ==> !Names(Contents(fs, dp), j, name)
    requires r == NotFound ==> forall j :: !Names(Contents(fs, dp), j, name)
    ensures dp in TreeOf(fs)
    ensures r.Found? ==> name in TreeOf(fs)[dp] && TreeOf(fs)[dp][name] == r.inum
    ensures r == NotFound ==> name !in TreeOf(fs)[dp]
  {
    hide Files, Inum, EntryName, Contents;
    var c := Contents(fs, dp);
    if r.Found? { LookupsAt(c, r.off / DIRENT, name); }
    if r == NotFound { LookupsNone(c, name); }
  }

  /** iput of an inode that, if it is a directory, has a link or another reference. */
  method Put(icache: ICache, f: FileSys, ip: nat, valid: bool)
    requires Distinct(icache.slots) && ip < NINODE && icache.slots[ip].ref > 0
    requires Ready(f) && icache.slots[ip].inum < |f.fs.inodes|
    requires var i := icache.slots[ip].inum; IsDir(f.fs, i) ==> f.fs.inodes[i].nlink > 0 || Refs(icache.slots, i) > 1
    modifies icache, f
    ensures Distinct(icache.slots) && RefsChange(old(icache.slots), icache.slots, old(icache.slots)[ip].inum, -1)
    ensures icache.slots == old(icache.slots)[ip := old(icache.slots)[ip].(ref := old(icache.slots)[ip].ref - 1)]
    ensures Ready(f) && SameTree(old(f.fs), f.fs)
    ensures IsDir(old(f.fs), old(icache.slots)[ip].inum) ==> f.fs == old(f.fs)
  {
    hide Exact, Files, Disowned, GivenBack, RefsChange, SameTree;
    ghost var fs, i := f.fs, icache.slots[ip].inum;
    SameTreeSelf(fs);
    var freed := Inodes.Iput(icache, f, ip, valid);
    if freed { GivenBackTree(fs, f.fs, i); }
    TreeFits(fs, f.fs);
  }

  lemma TreeFits(fs: Fs, gs: Fs)
    requires SameTree(fs, gs)
    ensures DirsFit(gs) && |gs.inodes| == |fs.inodes| && TreeOf(gs) == TreeOf(fs)
    ensures forall i: nat :: IsDir(fs, i) <==> IsDir(gs, i)
    ensures forall i: nat :: IsDir(fs, i) ==> gs.inodes[i].nlink == fs.inodes[i].nlink
  {
    hide TreeOf;
    assert forall i: nat :: IsDir(fs, i) <==> i in TreeOf(fs);
    assert forall i: nat :: IsDir(gs, i) <==> i in TreeOf(gs);
  }

  // ---------------------------------------------------------------- namex

  /** What namex returns: an icache entry, 0, iget's panic, or one of dirlookup's. */
  datatype Resolved = Ip(ip: nat, name: Name) | Null | NoInodes | DirPanic

  /** Every directory has whole entries and no hole. */
  ghost predicate DirsWhole(fs: Fs)
    requires Shaped(fs)
  {
    forall i: nat :: IsDir(fs, i) ==> fs.inodes[i].size % DIRENT == 0 && Dense(fs, i)
  }

  lemma WholeIsEnough(fs: Fs, i: nat)
    requires DirsFit(fs) && IsDir(fs, i)
    ensures DirsWhole(fs) ==> fs.inodes[i].size % DIRENT == 0 && Lacking(fs, i, 0, fs.inodes[i].size) == 0 && Dense(fs, i)
  {
    hide Lacking, Dense;
    DenseLacksNone(fs, i, 0, fs.inodes[i].size);
  }

  /** The result of namex is the walk of the path over the tree. */
  predicate Answers(tree: Tree, start: nat, path: Name, nameiparent: bool, found: Option<(nat, Name)>) {
    if nameiparent then WalkParent(tree, start, Elems(path)) == found
    else Walk(tree, start, Elems(path)) == if found.Some? then Some(found.value.0) else None
  }

  /** What is left of the walk, at inode i with the path rest, gives what the whole of it does. */
  ghost predicate Ahead(tree: Tree, start: nat, path: Name, nameiparent: bool, i: nat, rest: Name) {
    && Walk(tree, start, Elems(path)) == Walk(tree, i, Elems(rest))
    && (nameiparent ==> WalkParent(tree, start, Elems(path)) == WalkParent(tree, i, Elems(rest)))
  }

  /** One lookup takes the walk from i to the inode the name leads to, or ends it. */
  lemma AheadStep(tree: Tree, start: nat, path: Name, nameiparent: bool, i: nat, rest: Name, name: Name, tail: Name)
    requires Ahead(tree, start, path, nameiparent, i, rest) && Elems(rest) == [name] + Elems(tail) && (tail == [] <==> Elems(tail) == [])
    ensures i !in tree ==> Answers(tree, start, path, nameiparent, None)
    ensures i in tree && nameiparent && tail == [] ==> Answers(tree, start, path, nameiparent, Some((i, name)))
    ensures i in tree && !(nameiparent && tail == []) && name !in tree[i] ==> Answers(tree, start, path, nameiparent, None)
    ensures i in tree && !(nameiparent && tail == []) && name in tree[i] ==>
              Ahead(tree, start, path, nameiparent, tree[i][name], tail)
  {
    hide Elems, Walk, WalkParent;
    WalkStep(tree, i, name, Elems(tail));
  }

  lemma AheadEnd(tree: Tree, start: nat, path: Name, nameiparent: bool, i: nat, rest: Name)
    requires Ahead(tree, start, path, nameiparent, i, rest) && Elems(rest) == []
    ensures Answers(tree, start, path, nameiparent, if nameiparent then None else Some((i, [])))
  {
    hide Elems, Walk, WalkParent;
    WalkEnd(tree, i);
  }

  /** With namex's own reference, a directory has a link or more than that reference. */
  lemma StillHeld(fs: Fs, before: seq<Paths.Slot>, held: seq<Paths.Slot>, i: nat)
    requires Alive(fs, before) && RefsChange(before, held, i, 1)
    ensures IsDir(fs, i) ==> fs.inodes[i].nlink > 0 || Refs(held, i) > 1
  {
  }

  lemma ExtraRef(before: seq<Paths.Slot>, held: seq<Paths.Slot>, i: nat)
    requires RefsChange(before, held, i, 1)
    ensures Refs(held, i) > Refs(before, i)
  {
  }

  lemma OneMore(held: seq<Paths.Slot>, both: seq<Paths.Slot>, i: nat, j: nat)
    requires RefsChange(held, both, j, 1)
    ensures Refs(both, i) >= Refs(held, i)
  {
  }

  /** Slots in use before are still there, for the same inodes, with no fewer references. */
  predicate Keeps(before: seq<Paths.Slot>, slots: seq<Paths.Slot>) {
    |slots| == |before| && forall s :: 0 <= s < |before| && before[s].ref > 0 ==> slots[s].inum == before[s].inum && slots[s].ref >= before[s].ref
  }

  lemma KeepsMore(before: seq<Paths.Slot>, held: seq<Paths.Slot>, both: seq<Paths.Slot>, ip: nat)
    requires Keeps(before, held) && |both| == |held| && ip < |held| && forall i :: 0 <= i < |held| && i != ip ==> both[i] == held[i]
    requires held[ip].ref > 0 ==> both[ip].inum == held[ip].inum && both[ip].ref >= held[ip].ref
    ensures Keeps(before, both)
  {
  }

  lemma KeepsFirst(before: seq<Paths.Slot>, slots: seq<Paths.Slot>, ip: nat)
    requires |slots| == |before| && ip < |before| && forall i :: 0 <= i < |before| && i != ip ==> slots[i] == before[i]
    requires before[ip].ref > 0 ==> slots[ip].inum == before[ip].inum && slots[ip].ref >= before[ip].ref
    ensures Keeps(before, slots)
  {
  }

  /** A reference that before did not have can go. */
  lemma KeepsLess(before: seq<Paths.Slot>, held: seq<Paths.Slot>, ip: nat)
    requires Distinct(before) && Distinct(held) && Keeps(before, held) && ip < NINODE && held[ip].ref > 0
    requires Refs(held, held[ip].inum) > Refs(before, held[ip].inum)
    ensures Keeps(before, held[ip := held[ip].(ref := held[ip].ref - 1)])
  {
    OnlySlot(held, ip);
    if before[ip].ref > 0 { OnlySlot(before, ip); }
  }

  /** Drop the one reference that before did not have. */
  method PutBack(icache: ICache, f: FileSys, ip: nat, valid: bool, ghost before: seq<Paths.Slot>)
    requires Distinct(icache.slots) && ip < NINODE && icache.slots[ip].ref > 0
    requires Ready(f) && icache.slots[ip].inum < |f.fs.inodes| && Alive(f.fs, before)
    requires Distinct(before) && Keeps(before, icache.slots) && RefsChange(before, icache.slots, icache.slots[ip].inum, 1)
    modifies icache, f
    ensures Distinct(icache.slots) && Keeps(before, icache.slots) && forall x :: Refs(icache.slots, x) == Refs(before, x)
    ensures Ready(f) && SameTree(old(f.fs), f.fs)
    ensures IsDir(old(f.fs), old(icache.slots)[ip].inum) ==> f.fs == old(f.fs)
  {
    hide Exact, Files, RefsChange, SameTree, Refs, Alive, TreeOf, Keeps;
    ghost var held, i := icache.slots, icache.slots[ip].inum;
    StillHeld(f.fs, before, held, i);
    ExtraRef(before, held, i);
    KeepsLess(before, held, ip);
    Put(icache, f, ip, valid);
    RefsBack(before, held, icache.slots, i);
  }

  /** Take a reference to inode inum, and drop the one to the directory behind ip that before did not have. */
  method Move(icache: ICache, f: FileSys, ip: nat, inum: nat, ghost before: seq<Paths.Slot>) returns (child: Option<nat>)
    requires Distinct(icache.slots) && ip < NINODE && icache.slots[ip].ref > 0
    requires Ready(f) && IsDir(f.fs, icache.slots[ip].inum) && Alive(f.fs, before)
    requires Distinct(before) && Keeps(before, icache.slots) && RefsChange(before, icache.slots, icache.slots[ip].inum, 1)
    modifies icache, f
    ensures child.None? ==> |icache.slots| == NINODE && forall i :: 0 <= i < NINODE ==> icache.slots[i].ref > 0
    ensures child.Some? ==>
              && Distinct(icache.slots) && Keeps(before, icache.slots) && RefsChange(before, icache.slots, inum, 1)
              && child.value < NINODE && icache.slots[child.value].ref > 0 && icache.slots[child.value].inum == inum
              && Ready(f) && f.fs == old(f.fs)
  {
    hide Exact, Files, RefsChange, SameTree, Refs, Alive, TreeOf, Keeps;
    ghost var held, i := icache.slots, icache.slots[ip].inum;
    child := icache.Iget(inum);
    if child.None? { return; }
    ghost var both := icache.slots;
    StillHeld(f.fs, before, held, i);
    OneMore(held, both, i, inum);
    ExtraRef(before, held, i);
    KeepsMore(before, held, both, child.value);
    KeepsLess(before, both, ip);
    Put(icache, f, ip, true);
    RefsSwap(before, held, both, icache.slots, i, inum);
  }

  /**
   One round of namex's loop after the checks: look name up in the directory behind ip, take a
   reference to what it names and drop the one to the directory.
   */
  method Descend(icache: ICache, f: FileSys, ip: nat, name: Name, ghost before: seq<Paths.Slot>) returns (r: Resolved)
    requires Distinct(icache.slots) && ip < NINODE && icache.slots[ip].ref > 0 && Ready(f) && 0 !in name && |name| <= DIRSIZ
    requires IsDir(f.fs, icache.slots[ip].inum) && Targets(TreeOf(f.fs), |f.fs.inodes|)
    requires Alive(f.fs, before) && RefsChange(before, icache.slots, icache.slots[ip].inum, 1)
    requires Distinct(before) && Keeps(before, icache.slots)
    modifies icache, f
    ensures r.Ip? || r == Null ==> Keeps(before, icache.slots)
    ensures r == DirPanic ==> !DirsWhole(old(f.fs))
    ensures r == NoInodes ==> |icache.slots| == NINODE && forall i :: 0 <= i < NINODE ==> icache.slots[i].ref > 0
    ensures r.Ip? || r == Null ==>
              var tree, i := TreeOf(old(f.fs)), old(icache.slots)[ip].inum;
              && Distinct(icache.slots) && Ready(f) && SameTree(old(f.fs), f.fs) && Files(f.fs) == Files(old(f.fs)) && i in tree
              && (DirsWhole(old(f.fs)) ==> f.fs == old(f.fs))
              && (if r.Ip? then
                    && name in tree[i] && r.ip < NINODE && icache.slots[r.ip].ref > 0 && icache.slots[r.ip].inum == tree[i][name]
                    && RefsChange(before, icache.slots, tree[i][name], 1)
                  else
                    name !in tree[i] && forall x :: Refs(icache.slots, x) == Refs(before, x))
  {
    hide Exact, Files, RefsChange, SameTree, Dense, Looked, Canon, Refs, Lacking, FreeSet, Names, Inum, EntryName, Contents, Targets, Alive, TreeOf, DirsWhole, Keeps;
    WholeIsEnough(f.fs, icache.slots[ip].inum);
    ghost var fs, held := f.fs, icache.slots;
    var i := icache.slots[ip].inum;
    var buf := if |name| < DIRSIZ then name + [0] else name;
    CanonTerminated(name, buf[|name|..], DIRSIZ);
    assert buf == name + buf[|name|..];
    var l := Dirlookup(f, i, buf);
    if l.LookupPanic? {
      return DirPanic;
    }
    FoundStep(fs, i, name, l);
    LookedTree(fs, f.fs, i, if l.Found? then l.off + DIRENT else fs.inodes[i].size);
    AliveStill(fs, f.fs, before);
    if l == NotFound {
      PutBack(icache, f, ip, true, before);
      return Null;
    }
    var child := Move(icache, f, ip, l.inum, before);
    if child.None? {
      return NoInodes;
    }
    return Ip(child.value, name);
  }

  /**
   namex.  Whatever way it returns, it has added one reference to the inode it returns and none to
   any other, and the result is the walk of the path over the directories of the file system.
   */
  method Namex(icache: ICache, f: FileSys, path: Name, nameiparent: bool, cwd: nat, valid: bool) returns (r: Resolved)
    requires Distinct(icache.slots) && cwd < NINODE && icache.slots[cwd].ref > 0 && 0 !in path
    requires Ready(f) && ROOTINO < |f.fs.inodes| && icache.slots[cwd].inum < |f.fs.inodes|
    requires Targets(TreeOf(f.fs), |f.fs.inodes|) && Alive(f.fs, icache.slots)
    modifies icache, f
    ensures r == NoInodes ==> |icache.slots| == NINODE && forall i :: 0 <= i < NINODE ==> icache.slots[i].ref > 0
    ensures r == DirPanic ==> !DirsWhole(old(f.fs))
    ensures r.Ip? || r == Null ==>
              && Distinct(icache.slots) && Ready(f) && SameTree(old(f.fs), f.fs)
              && (r.Ip? ==> r.ip < NINODE && icache.slots[r.ip].ref > 0)
    ensures (r.Ip? || r == Null) && path != [] && path[0] == SLASH ==>
              Answers(TreeOf(old(f.fs)), ROOTINO, path, nameiparent,
                      if r.Ip? then Some((icache.slots[r.ip].inum, r.name)) else None)
    ensures (r.Ip? || r == Null) && !(path != [] && path[0] == SLASH) ==>
              Answers(TreeOf(old(f.fs)), old(icache.slots)[cwd].inum, path, nameiparent,
                      if r.Ip? then Some((icache.slots[r.ip].inum, r.name)) else None)
    ensures r == Null ==> forall x :: Refs(icache.slots, x) == Refs(old(icache.slots), x)
    ensures r.Ip? ==> RefsChange(old(icache.slots), icache.slots, icache.slots[r.ip].inum, 1)
    ensures r.Ip? || r == Null ==> Keeps(old(icache.slots), icache.slots)
    ensures r.Ip? ==> Files(f.fs) == Files(old(f.fs)) && (DirsWhole(old(f.fs)) ==> f.fs == old(f.fs))
  {
    hide Exact, Files, RefsChange, SameTree, Refs, Targets, Alive, TreeOf, Walk, WalkParent, Elems, Answers, Ahead, DirsWhole, Keeps;
    ghost var before := icache.slots;
    var ip: nat;
    if path != [] && path[0] == SLASH {
      var root := icache.Iget(ROOTINO);
      if root.None? {
        return NoInodes;
      }
      ip := root.value;
    } else {
      icache.Idup(cwd);
      ip := cwd;
    }
    KeepsFirst(before, icache.slots, ip);
    r := Follow(icache, f, ip, path, nameiparent, valid, before);
  }

  /** namex's loop and what comes after it: ip holds the one reference that before did not have. */
  method Follow(icache: ICache, f: FileSys, first: nat, path: Name, nameiparent: bool, valid: bool, ghost before: seq<Paths.Slot>)
    returns (r: Resolved)
    requires Distinct(icache.slots) && first < NINODE && icache.slots[first].ref > 0 && 0 !in path
    requires Ready(f) && icache.slots[first].inum < |f.fs.inodes| && Targets(TreeOf(f.fs), |f.fs.inodes|) && Alive(f.fs, before)
    requires Distinct(before) && Keeps(before, icache.slots) && RefsChange(before, icache.slots, icache.slots[first].inum, 1)
    modifies icache, f
    ensures r == NoInodes ==> |icache.slots| == NINODE && forall i :: 0 <= i < NINODE ==> icache.slots[i].ref > 0
    ensures r == DirPanic ==> !DirsWhole(old(f.fs))
    ensures r.Ip? || r == Null ==>
              && Distinct(icache.slots) && Ready(f) && SameTree(old(f.fs), f.fs) && Keeps(before, icache.slots)
              && (r.Ip? ==> r.ip < NINODE && icache.slots[r.ip].ref > 0)
              && Answers(TreeOf(old(f.fs)), old(icache.slots)[first].inum, path, nameiparent,
                         if r.Ip? then Some((icache.slots[r.ip].inum, r.name)) else None)
    ensures r == Null ==> forall x :: Refs(icache.slots, x) == Refs(before, x)
    ensures r.Ip? ==> RefsChange(before, icache.slots, icache.slots[r.ip].inum, 1)
    ensures r.Ip? ==> Files(f.fs) == Files(old(f.fs)) && (DirsWhole(old(f.fs)) ==> f.fs == old(f.fs))
  {
    hide Exact, Files, RefsChange, SameTree, Refs, Targets, Alive, TreeOf, Walk, WalkParent, Elems, Answers, Ahead, DirsWhole, Keeps;
    ghost var fs, tree, start := f.fs, TreeOf(f.fs), icache.slots[first].inum;
    var ip: nat, rest := first, path;
    SameTreeSelf(fs);
    AheadSelf(tree, start, path, nameiparent);
    while true
      invariant Distinct(icache.slots) && ip < NINODE && icache.slots[ip].ref > 0 && 0 !in rest
      invariant RefsChange(before, icache.slots, icache.slots[ip].inum, 1) && Keeps(before, icache.slots)
      invariant Ready(f) && SameTree(fs, f.fs) && Files(f.fs) == Files(fs) && (DirsWhole(fs) ==> f.fs == fs)
      invariant icache.slots[ip].inum < |f.fs.inodes| && Ahead(tree, start, path, nameiparent, icache.slots[ip].inum, rest)
      decreases |rest|
    {
      ghost var gs, inum := f.fs, icache.slots[ip].inum;
      TreeFits(fs, f.fs);
      AliveStill(fs, f.fs, before);
      var next := SkipElem(rest);
      if next.None? {
        break;
      }
      var (name, tail) := next.value;
      AheadStep(tree, start, path, nameiparent, inum, rest, name, tail);
      if f.fs.inodes[icache.slots[ip].inum].typ != T_DIR {
        PutBack(icache, f, ip, true, before);
        SameTreeTrans(fs, gs, f.fs);
        return Null;
      }
      if nameiparent && tail == [] {
        return Ip(ip, name);
      }
      r := Descend(icache, f, ip, name, before);
      if !r.Ip? {
        if r == Null { SameTreeTrans(fs, gs, f.fs); }
        return;
      }
      SameTreeTrans(fs, gs, f.fs);
      TargetAt(tree, |fs.inodes|, inum, name);
      TreeFits(gs, f.fs);
      ip, rest := r.ip, tail;
    }
    AheadEnd(tree, start, path, nameiparent, icache.slots[ip].inum, rest);
    if nameiparent {
      ghost var gs := f.fs;
      PutBack(icache, f, ip, valid, before);
      SameTreeTrans(fs, gs, f.fs);
      return Null;
    }
    r := Ip(ip, []);
  }

  lemma AliveMore(fs: Fs, before: seq<Paths.Slot>, slots: seq<Paths.Slot>)
    requires Alive(fs, before) && forall x :: Refs(slots, x) >= Refs(before, x)
    ensures Alive(fs, slots)
  {
  }

  lemma RefsMore(before: seq<Paths.Slot>, slots: seq<Paths.Slot>, inum: nat)
    requires RefsChange(before, slots, inum, 1)
    ensures forall x :: Refs(slots, x) >= Refs(before, x)
  {
  }

  /**
   Two processes that look the same absolute path up, one after the other, in whatever directories they
   are, get the same entry of the inode cache.
   */
  method TwoCallers(icache: ICache, f: FileSys, path: Name, cwd1: nat, cwd2: nat) returns (r1: Resolved, r2: Resolved)
    requires Distinct(icache.slots) && 0 !in path && path != [] && path[0] == SLASH
    requires cwd1 < NINODE && icache.slots[cwd1].ref > 0 && cwd2 < NINODE && icache.slots[cwd2].ref > 0
    requires Ready(f) && ROOTINO < |f.fs.inodes| && icache.slots[cwd1].inum < |f.fs.inodes| && icache.slots[cwd2].inum < |f.fs.inodes|
    requires Targets(TreeOf(f.fs), |f.fs.inodes|) && Alive(f.fs, icache.slots)
    modifies icache, f
    ensures r1.Ip? && r2.Ip? ==> r1.ip == r2.ip
    ensures r1.Ip? ==> r2 != Null
    ensures r1 == Null ==> !r2.Ip?
  {
    hide Exact, Files, RefsChange, SameTree, Refs, Targets, Alive, TreeOf, Walk, WalkParent, Elems, DirsWhole;
    ghost var fs, before := f.fs, icache.slots;
    r1 := Namex(icache, f, path, false, cwd1, true);
    r2 := NoInodes;
    if r1.Ip? || r1 == Null {
      TreeFits(fs, f.fs);
      AliveStill(fs, f.fs, before);
      if r1.Ip? { RefsMore(before, icache.slots, icache.slots[r1.ip].inum); }
      AliveMore(f.fs, before, icache.slots);
      r2 := Namex(icache, f, path, false, cwd2, true);
    }
  }

  lemma AheadSelf(tree: Tree, start: nat, path: Name, nameiparent: bool)
    ensures Ahead(tree, start, path, nameiparent, start, path)
  {
  }

  lemma AliveStill(fs: Fs, gs: Fs, slots: seq<Paths.Slot>)
    requires SameTree(fs, gs) && Alive(fs, slots)
    ensures Alive(gs, slots)
  {
    hide TreeOf;
    TreeFits(fs, gs);
  }

  lemma TargetAt(tree: Tree, n: nat, i: nat, name: Name)
    requires Targets(tree, n) && i in tree && name in tree[i]
    ensures tree[i][name] < n
  {
  }
}
