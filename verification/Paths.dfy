/** Path names and the inode cache's reference counts (fs.c: iget, idup, iput, skipelem, namex). */
module Paths {
  import opened Base

  const NINODE := 50

  const SLASH: byte := 47

  // ---------------------------------------------------------------- path elements

  /** Path after its leading slashes. */
  function SkipSlashes(path: Name): (r: Name)
    ensures |r| <= |path|
  {
    if path != [] && path[0] == SLASH then SkipSlashes(path[1..]) else path
  }

  /** The characters before the first slash. */
  function Word(path: Name): (r: Name)
    ensures |r| <= |path| && path[..|r|] == r
    ensures path != [] && path[0] != SLASH ==> |r| > 0
  {
    if path == [] || path[0] == SLASH then [] else [path[0]] + Word(path[1..])
  }

  function Truncate(s: Name): Name {
    if |s| >= DIRSIZ then s[..DIRSIZ] else s
  }

  /** The names a path consists of, each cut to DIRSIZ characters. */
  function Elems(path: Name): seq<Name>
    decreases |path|
  {
    var p := SkipSlashes(path);
    if p == [] then []
    else
      SkipSlashesStops(path);
      [Truncate(Word(p))] + Elems(p[|Word(p)|..])
  }

  lemma {:induction false} SkipSlashesStops(path: Name)
    ensures var p := SkipSlashes(path); p == [] || p[0] != SLASH
    ensures SkipSlashes(SkipSlashes(path)) == SkipSlashes(path)
  {
    if path != [] && path[0] == SLASH { SkipSlashesStops(path[1..]); }
  }

  lemma ElemsSkip(path: Name)
    ensures Elems(path) == Elems(SkipSlashes(path))
  {
    SkipSlashesStops(path);
  }

  lemma ElemsStep(path: Name)
    ensures var p := SkipSlashes(path);
            if p == [] then Elems(path) == []
            else Word(p) != [] && Elems(path) == [Truncate(Word(p))] + Elems(p[|Word(p)|..])
  {
    SkipSlashesStops(path);
  }

  /** skipelem's loops over slashes: the place of the first other character. */
  method PassSlashes(path: Name, start: nat) returns (x: nat)
    requires start <= |path|
    ensures start <= x <= |path| && path[x..] == SkipSlashes(path[start..])
  {
    x := start;
    while x < |path| && path[x] == SLASH
      invariant start <= x <= |path| && SkipSlashes(path[x..]) == SkipSlashes(path[start..])
    {
      assert path[x..][1..] == path[x + 1..];
      x := x + 1;
    }
  }

  /** skipelem's loop over an element: the place of the slash or the end after it. */
  method PassWord(path: Name, start: nat) returns (x: nat)
    requires start <= |path|
    ensures start <= x <= |path| && path[start..x] == Word(path[start..])
  {
    x := start;
    while x < |path| && path[x] != SLASH
      invariant start <= x <= |path| && forall i :: start <= i < x ==> path[i] != SLASH
    {
      x := x + 1;
    }
    WordIs(path[start..], x - start);
    assert path[start..][..x - start] == path[start..x];
  }

  lemma {:induction false} WordIs(path: Name, k: nat)
    requires k <= |path| && (forall i :: 0 <= i < k ==> path[i] != SLASH) && (k < |path| ==> path[k] == SLASH)
    ensures Word(path) == path[..k]
  {
    if k > 0 {
      WordIs(path[1..], k - 1);
      assert path[..k] == [path[0]] + path[1..][..k - 1];
    }
  }

  /** skipelem: the next element and the path behind it, without leading slashes. */
  method SkipElem(path: Name) returns (r: Option<(Name, Name)>)
    ensures r.None? <==> Elems(path) == []
    ensures r.Some? ==>
              var (name, rest) := r.value;
              && Elems(path) == [name] + Elems(rest)
              && |rest| < |path| && |name| <= DIRSIZ && (0 !in path ==> 0 !in name && 0 !in rest)
              && (rest == [] <==> Elems(rest) == [])
  {
    hide Elems, SkipSlashes, Word;
    assert path[0..] == path;
    var s := PassSlashes(path, 0);
    ElemsStep(path);
    if s == |path| {
      return None;
    }
    var e := PassWord(path, s);
    var name := if e - s >= DIRSIZ then path[s..s + DIRSIZ] else path[s..e];
    SliceWithout(path, s, s + |name|);
    assert name == Truncate(Word(path[s..]));
    assert path[s..][e - s..] == path[e..];
    var x := PassSlashes(path, e);
    ElemsSkip(path[e..]);
    ElemsStep(path[e..]);
    SliceWithout(path, x, |path|);
    r := Some((name, path[x..]));
  }

  lemma SliceWithout(path: Name, i: nat, j: nat)
    requires i <= j <= |path|
    ensures 0 !in path ==> 0 !in path[i..j]
  {
  }

  lemma {:induction false} WordJoin(a: Name, b: Name)
    ensures Word(a + [SLASH] + b) == Word(a)
  {
    if a != [] && a[0] != SLASH {
      assert (a + [SLASH] + b)[1..] == a[1..] + [SLASH] + b;
      WordJoin(a[1..], b);
    }
  }

  lemma {:induction false} SkipJoin(a: Name, b: Name)
    ensures SkipSlashes(a + [SLASH] + b) == if SkipSlashes(a) == [] then SkipSlashes(b) else SkipSlashes(a) + [SLASH] + b
  {
    if a == [] {
      assert (a + [SLASH] + b)[1..] == b;
    } else {
      assert (a + [SLASH] + b)[1..] == a[1..] + [SLASH] + b;
      if a[0] == SLASH { SkipJoin(a[1..], b); }
    }
  }

  /** Joining two paths with a slash concatenates their elements. */
  lemma {:induction false} ElemsJoin(a: Name, b: Name)
    ensures Elems(a + [SLASH] + b) == Elems(a) + Elems(b)
    decreases |a|
  {
    SkipJoin(a, b);
    var p := SkipSlashes(a);
    SkipSlashesStops(a);
    hide SkipSlashes, Word;
    if p == [] {
      ElemsSkip(b);
      ElemsSkip(a + [SLASH] + b);
    } else {
      WordJoin(p, b);
      var w := |Word(p)|;
      assert (p + [SLASH] + b)[w..] == p[w..] + [SLASH] + b;
      ElemsJoin(p[w..], b);
      ElemsSkip(a + [SLASH] + b);
    }
  }

  /** Names written one after the other, with slashes between. */
  function Joined(names: seq<Name>): Name {
    if names == [] then [] else names[0] + [SLASH] + Joined(names[1..])
  }

  /** The first 14 bytes of a name, or all of it if there are fewer. */
  predicate CutTo14(name: Name, r: Name) {
    r <= name && |r| == if |name| < 14 then |name| else 14
  }

  lemma OneElem(name: Name)
    requires name != [] && SLASH !in name
    ensures |Elems(name)| == 1 && CutTo14(name, Elems(name)[0])
  {
    WordIs(name, |name|);
    assert name[..|name|] == name && name[|name|..] == [];
    assert SkipSlashes(name) == name;
    ElemsStep(name);
  }

  /** A path written from names is read as those names, each cut to 14 bytes. */
  lemma {:induction false} ElemsOfJoined(names: seq<Name>)
    requires forall k :: 0 <= k < |names| ==> names[k] != [] && SLASH !in names[k]
    ensures |Elems(Joined(names))| == |names|
    ensures forall k :: 0 <= k < |names| ==> CutTo14(names[k], Elems(Joined(names))[k])
  {
    if names != [] {
      ElemsOfJoined(names[1..]);
      OneElem(names[0]);
      ElemsJoin(names[0], Joined(names[1..]));
      hide Elems, CutTo14;
      var e := Elems(Joined(names[1..]));
      assert Elems(Joined(names)) == Elems(names[0]) + e;
      forall k | 0 <= k < |names| ensures CutTo14(names[k], Elems(Joined(names))[k]) {
        if k > 0 { assert names[k] == names[1..][k - 1] && Elems(Joined(names))[k] == e[k - 1]; }
      }
    }
  }

  // ---------------------------------------------------------------- the inode cache

  /** An icache entry; free when ref is 0. */
  datatype Slot = Slot(inum: nat, ref: nat)

  /** In-memory references to inode inum. */
  function Refs(slots: seq<Slot>, inum: nat): nat {
    if slots == [] then 0
    else (if slots[0].inum == inum then slots[0].ref else 0) + Refs(slots[1..], inum)
  }

  function Share(s: Slot, inum: nat): nat {
    if s.inum == inum then s.ref else 0
  }

  lemma {:induction false} RefsUpdate(slots: seq<Slot>, i: nat, s: Slot, inum: nat)
    requires i < |slots|
    ensures Refs(slots[i := s], inum) == Refs(slots, inum) - Share(slots[i], inum) + Share(s, inum)
  {
    if i == 0 {
      assert slots[0 := s][1..] == slots[1..];
    } else {
      assert slots[i := s][1..] == slots[1..][i - 1 := s];
      RefsUpdate(slots[1..], i - 1, s, inum);
    }
  }

  /** after differs from before by one reference to inum, added or dropped. */
  ghost predicate RefsChange(before: seq<Slot>, after: seq<Slot>, inum: nat, delta: int) {
    forall x :: Refs(after, x) == Refs(before, x) + if x == inum then delta else 0
  }

  lemma RefsSwap(a: seq<Slot>, b: seq<Slot>, c: seq<Slot>, d: seq<Slot>, old': nat, new': nat)
    requires RefsChange(a, b, old', 1) && RefsChange(b, c, new', 1) && RefsChange(c, d, old', -1)
    ensures RefsChange(a, d, new', 1)
  {
  }

  /** No inode is in the cache twice. */
  predicate Distinct(slots: seq<Slot>) {
    |slots| == NINODE && forall i, j :: 0 <= i < j < |slots| && slots[i].ref > 0 && slots[j].ref > 0 ==> slots[i].inum != slots[j].inum
  }

  lemma {:induction false} RefsNone(slots: seq<Slot>, inum: nat)
    requires forall j :: 0 <= j < |slots| && slots[j].ref > 0 ==> slots[j].inum != inum
    ensures Refs(slots, inum) == 0
  {
    if slots != [] { RefsNone(slots[1..], inum); }
  }

  /** An inode in the cache has its one slot's references and no others. */
  lemma {:induction false} OnlySlot(slots: seq<Slot>, ip: nat)
    requires ip < |slots| && forall j :: 0 <= j < |slots| && j != ip && slots[j].ref > 0 ==> slots[j].inum != slots[ip].inum
    ensures Refs(slots, slots[ip].inum) == slots[ip].ref
    decreases |slots|
  {
    if ip == 0 {
      RefsNone(slots[1..], slots[0].inum);
    } else {
      OnlySlot(slots[1..], ip - 1);
    }
  }

  class ICache {
    var slots: seq<Slot>

    /** iget: find the inode's entry or take a free one; none left is a panic. */
    method Iget(inum: nat) returns (ip: Option<nat>)
      requires Distinct(slots)
      modifies this
      ensures Distinct(slots)
      ensures ip.None? ==> slots == old(slots) && forall i :: 0 <= i < NINODE ==> slots[i].ref > 0 && slots[i].inum != inum
      ensures ip.Some? ==> ip.value < NINODE && slots[ip.value].inum == inum && slots[ip.value].ref > 0
      ensures ip.Some? ==> RefsChange(old(slots), slots, inum, 1)
      ensures ip.Some? ==> forall i :: 0 <= i < NINODE && i != ip.value ==> slots[i] == old(slots)[i]
      ensures ip.Some? && old(slots)[ip.value].ref > 0 ==>
                old(slots)[ip.value].inum == inum && slots[ip.value].ref == old(slots)[ip.value].ref + 1
    {
      var empty: Option<nat> := None;
      var i := 0;
      while i < NINODE
        invariant 0 <= i <= NINODE
        invariant forall j :: 0 <= j < i && slots[j].ref > 0 ==> slots[j].inum != inum
        invariant empty.None? ==> forall j :: 0 <= j < i ==> slots[j].ref > 0
        invariant empty.Some? ==> empty.value < i && slots[empty.value].ref == 0
      {
        if slots[i].ref > 0 && slots[i].inum == inum {
          ghost var before := slots;
          slots := slots[i := slots[i].(ref := slots[i].ref + 1)];
          forall x { RefsUpdate(before, i, slots[i], x); }
          return Some(i);
        }
        if empty.None? && slots[i].ref == 0 {
          empty := Some(i);
        }
        i := i + 1;
      }
      if empty.None? {
        return None;
      }
      ghost var before := slots;
      slots := slots[empty.value := Slot(inum, 1)];
      forall x { RefsUpdate(before, empty.value, slots[empty.value], x); }
      ip := empty;
    }

    /** idup: one more reference to an entry in use. */
    method Idup(ip: nat)
      requires Distinct(slots) && ip < NINODE && slots[ip].ref > 0
      modifies this
      ensures Distinct(slots) && slots == old(slots)[ip := old(slots)[ip].(ref := old(slots)[ip].ref + 1)]
      ensures RefsChange(old(slots), slots, slots[ip].inum, 1)
    {
      ghost var before := slots;
      slots := slots[ip := slots[ip].(ref := slots[ip].ref + 1)];
      forall x { RefsUpdate(before, ip, slots[ip], x); }
    }

    /** iput: drop a reference. */
    method Iput(ip: nat)
      requires Distinct(slots) && ip < NINODE && slots[ip].ref > 0
      modifies this
      ensures Distinct(slots) && slots == old(slots)[ip := old(slots)[ip].(ref := old(slots)[ip].ref - 1)]
      ensures RefsChange(old(slots), slots, slots[ip].inum, -1)
    {
      ghost var before := slots;
      slots := slots[ip := slots[ip].(ref := slots[ip].ref - 1)];
      forall x { RefsUpdate(before, ip, slots[ip], x); }
    }
  }

  // ---------------------------------------------------------------- resolving a path

  /** Directories by inode number; an inode that is not here is not a directory. */
  type Tree = map<nat, map<Name, nat>>

  /** The inode a path leads to. */
  function Walk(tree: Tree, cur: nat, elems: seq<Name>): Option<nat>
    decreases |elems|
  {
    if elems == [] then Some(cur)
    else if cur !in tree || elems[0] !in tree[cur] then None
    else Walk(tree, tree[cur][elems[0]], elems[1..])
  }

  /** The directory the last element of a path is to be looked up in, and that element. */
  function WalkParent(tree: Tree, cur: nat, elems: seq<Name>): Option<(nat, Name)>
    decreases |elems|
  {
    if elems == [] || cur !in tree then None
    else if |elems| == 1 then Some((cur, elems[0]))
    else if elems[0] !in tree[cur] then None
    else WalkParent(tree, tree[cur][elems[0]], elems[1..])
  }

  /** Walking two lists of names one after the other is walking both together. */
  lemma {:induction false} WalkAppend(tree: Tree, cur: nat, a: seq<Name>, b: seq<Name>)
    ensures Walk(tree, cur, a + b) == if Walk(tree, cur, a).Some? then Walk(tree, Walk(tree, cur, a).value, b) else None
    decreases |a|
  {
    if a == [] {
      assert a + b == b;
    } else {
      assert (a + b)[1..] == a[1..] + b;
      if cur in tree && a[0] in tree[cur] { WalkAppend(tree, tree[cur][a[0]], a[1..], b); }
    }
  }

  /** Looking up a/b is looking up b from where a leads. */
  lemma WalkPath(tree: Tree, cur: nat, a: Name, b: Name)
    ensures Walk(tree, cur, Elems(a + [SLASH] + b))
         == if Walk(tree, cur, Elems(a)).Some? then Walk(tree, Walk(tree, cur, Elems(a)).value, Elems(b)) else None
  {
    hide Elems, Walk;
    ElemsJoin(a, b);
    WalkAppend(tree, cur, Elems(a), Elems(b));
  }

  /** nameiparent then a lookup of the last name is namei. */
  lemma {:induction false} ParentThenLookup(tree: Tree, cur: nat, elems: seq<Name>)
    requires elems != []
    ensures Walk(tree, cur, elems)
         == match WalkParent(tree, cur, elems)
            case None => None
            case Some((dir, name)) => if dir in tree && name in tree[dir] then Some(tree[dir][name]) else None
    ensures WalkParent(tree, cur, elems).Some? ==> WalkParent(tree, cur, elems).value.0 in tree
    decreases |elems|
  {
    if cur in tree && |elems| > 1 && elems[0] in tree[cur] {
      ParentThenLookup(tree, tree[cur][elems[0]], elems[1..]);
    }
  }

  lemma WalkStep(tree: Tree, cur: nat, name: Name, elems: seq<Name>)
    ensures cur !in tree ==> Walk(tree, cur, [name] + elems).None? && WalkParent(tree, cur, [name] + elems).None?
    ensures cur in tree && name !in tree[cur] ==> Walk(tree, cur, [name] + elems).None?
    ensures cur in tree && name !in tree[cur] && elems != [] ==> WalkParent(tree, cur, [name] + elems).None?
    ensures cur in tree && elems == [] ==> WalkParent(tree, cur, [name] + elems) == Some((cur, name))
    ensures cur in tree && name in tree[cur] ==> Walk(tree, cur, [name] + elems) == Walk(tree, tree[cur][name], elems)
    ensures cur in tree && name in tree[cur] && elems != [] ==>
              WalkParent(tree, cur, [name] + elems) == WalkParent(tree, tree[cur][name], elems)
  {
    assert ([name] + elems)[1..] == elems;
  }

  lemma WalkEnd(tree: Tree, cur: nat)
    ensures Walk(tree, cur, []) == Some(cur) && WalkParent(tree, cur, []).None?
  {
  }

  lemma RefsBack(a: seq<Slot>, b: seq<Slot>, c: seq<Slot>, inum: nat)
    requires RefsChange(a, b, inum, 1) && RefsChange(b, c, inum, -1)
    ensures forall x :: Refs(c, x) == Refs(a, x)
  {
  }
}
