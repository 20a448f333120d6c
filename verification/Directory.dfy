/** Directories: files of 16-byte entries (fs.c: namecmp, dirlookup, dirlink). */
module Directory {
  import opened Base
  import opened FsModel
  import opened FileSystem

  // ---------------------------------------------------------------- names

  /** A name as the directory code sees it: the bytes before the first NUL, at most n of them. */
  function Canon(s: seq<byte>, n: nat): (r: Name) {
    if n == 0 || s == [] || s[0] == 0 then [] else [s[0]] + Canon(s[1..], n - 1)
  }

  /** A buffer of which n bytes, or all up to a NUL, may be read. */
  predicate Readable(s: seq<byte>, n: nat) {
    |s| >= n || 0 in s
  }

  lemma CanonStep(s: seq<byte>, x: nat, n: nat)
    requires 0 < n && x < |s| && s[x] != 0
    ensures Canon(s[x..], n) == [s[x]] + Canon(s[x + 1..], n - 1)
  {
    assert s[x..][1..] == s[x + 1..];
  }

  lemma CanonEnd(s: seq<byte>, x: nat, n: nat)
    requires x <= |s| && (n == 0 || (x < |s| && s[x] == 0))
    ensures Canon(s[x..], n) == []
  {
  }

  /** Two names from x on, when the bytes at x differ or end a name. */
  lemma CanonDiffer(p: seq<byte>, q: seq<byte>, x: nat, n: nat)
    requires x <= |p| && x <= |q| && (n > 0 ==> x < |p| && x < |q| && (p[x] == 0 || p[x] != q[x]))
    ensures Canon(p[x..], n) == Canon(q[x..], n) <==> n == 0 || p[x] == q[x]
  {
    if n > 0 {
      assert p[x..][0] == p[x] && q[x..][0] == q[x];
      if p[x] != 0 { CanonStep(p, x, n); assert Canon(p[x..], n)[0] == p[x]; }
      if q[x] != 0 { CanonStep(q, x, n); assert Canon(q[x..], n)[0] == q[x]; }
    }
  }

  lemma ConsEqual(a: byte, s: seq<byte>, t: seq<byte>)
    ensures [a] + s == [a] + t <==> s == t
  {
    assert ([a] + s)[1..] == s && ([a] + t)[1..] == t;
  }

  /** Whether namecmp finds two names equal: strncmp's loop over at most DIRSIZ bytes. */
  method NameEqual(p: seq<byte>, q: seq<byte>) returns (same: bool)
    requires Readable(p, DIRSIZ) && Readable(q, DIRSIZ)
    ensures same <==> Canon(p, DIRSIZ) == Canon(q, DIRSIZ)
  {
    hide Canon;
    var n, x := DIRSIZ, 0;
    assert p[0..] == p && q[0..] == q;
    while n > 0 && p[x] != 0 && p[x] == q[x]
      invariant 0 <= n <= DIRSIZ && x == DIRSIZ - n && x <= |p| && x <= |q|
      invariant Readable(p[x..], n) && Readable(q[x..], n)
      invariant Canon(p, DIRSIZ) == Canon(q, DIRSIZ) <==> Canon(p[x..], n) == Canon(q[x..], n)
    {
      CanonStep(p, x, n);
      CanonStep(q, x, n);
      ConsEqual(p[x], Canon(p[x + 1..], n - 1), Canon(q[x + 1..], n - 1));
      n, x := n - 1, x + 1;
    }
    CanonDiffer(p, q, x, n);
    same := n == 0 || p[x] == q[x];
  }

  lemma {:induction false} CanonBounds(s: seq<byte>, n: nat)
    ensures |Canon(s, n)| <= n && 0 !in Canon(s, n)
  {
    if n > 0 && s != [] && s[0] != 0 { CanonBounds(s[1..], n - 1); }
  }

  lemma {:induction false} CanonPadded(c: Name, pad: seq<byte>, n: nat)
    requires 0 !in c && |c| + |pad| == n && forall x :: 0 <= x < |pad| ==> pad[x] == 0
    ensures Canon(c + pad, n) == c
  {
    if c == [] {
      assert c + pad == pad;
    } else {
      assert (c + pad)[1..] == c[1..] + pad;
      CanonPadded(c[1..], pad, n - 1);
    }
  }

  /** strncpy(dst, t, DIRSIZ): copy up to a NUL, then pad with NULs. */
  method CopyName(t: seq<byte>) returns (dst: seq<byte>)
    requires Readable(t, DIRSIZ)
    ensures |dst| == DIRSIZ && Canon(dst, DIRSIZ) == Canon(t, DIRSIZ)
  {
    hide Canon;
    dst := [];
    var n := DIRSIZ;
    assert t[0..] == t;
    while n > 0 && t[DIRSIZ - n] != 0
      invariant 0 <= n <= DIRSIZ && |dst| == DIRSIZ - n <= |t|
      invariant Readable(t[DIRSIZ - n..], n)
      invariant Canon(t, DIRSIZ) == dst + Canon(t[DIRSIZ - n..], n)
    {
      CanonStep(t, DIRSIZ - n, n);
      dst := dst + [t[DIRSIZ - n]];
      n := n - 1;
    }
    CanonEnd(t, DIRSIZ - n, n);
    assert dst == Canon(t, DIRSIZ);
    var pad: seq<byte> := [];
    while n > 0
      invariant 0 <= n && |dst| + |pad| + n == DIRSIZ
      invariant forall x :: 0 <= x < |pad| ==> pad[x] == 0
    {
      pad := pad + [0];
      n := n - 1;
    }
    CanonBounds(t, DIRSIZ);
    CanonPadded(dst, pad, DIRSIZ);
    dst := dst + pad;
  }

  // ---------------------------------------------------------------- entries

  /** de.inum of entry k. */
  function Inum(c: seq<byte>, k: nat): nat
    requires (k + 1) * DIRENT <= |c|
  {
    c[k * DIRENT] as int + 0x100 * (c[k * DIRENT + 1] as int)
  }

  function EntryName(c: seq<byte>, k: nat): Name
    requires (k + 1) * DIRENT <= |c|
  {
    Canon(c[k * DIRENT + 2..(k + 1) * DIRENT], DIRSIZ)
  }

  function Entries(c: seq<byte>): nat {
    |c| / DIRENT
  }

  /** Entry k is in use under this name. */
  predicate Names(c: seq<byte>, k: nat, name: Name) {
    (k + 1) * DIRENT <= |c| && Inum(c, k) != 0 && EntryName(c, k) == name
  }

  /** No name is in use twice. */
  ghost predicate Unique(c: seq<byte>) {
    forall j, k, name :: Names(c, j, name) && Names(c, k, name) ==> j == k
  }

  /** The directory as a finite map. */
  ghost function DirMap(c: seq<byte>): (m: map<Name, nat>)
    requires Unique(c)
    ensures forall k, name :: Names(c, k, name) ==> name in m && m[name] == Inum(c, k)
    ensures forall name :: name in m ==> exists k :: Names(c, k, name)
  {
    map k | 0 <= k < Entries(c) && Names(c, k, EntryName(c, k)) :: EntryName(c, k) := Inum(c, k)
  }

  /** c' is c with entry k written as (inum, name); k may be one past the end. */
  ghost predicate EntryPut(c: seq<byte>, c': seq<byte>, k: nat, inum: nat, name: Name) {
    && k <= Entries(c) && |c| % DIRENT == 0
    && |c'| == (if k == Entries(c) then |c| + DIRENT else |c|)
    && Inum(c', k) == inum && EntryName(c', k) == name
    && forall j :: 0 <= j < Entries(c) && j != k ==> Inum(c', j) == Inum(c, j) && EntryName(c', j) == EntryName(c, j)
  }

  lemma EntryPutNames(c: seq<byte>, c': seq<byte>, k: nat, inum: nat, name: Name, j: nat, other: Name)
    requires EntryPut(c, c', k, inum, name) && (k < Entries(c) ==> Inum(c, k) == 0)
    ensures Names(c', j, other) <==> Names(c, j, other) || (j == k && inum != 0 && other == name)
  {
  }

  /** dirlink keeps names unique, adds its entry to the map and leaves every other lookup alone. */
  lemma EntryPutMap(c: seq<byte>, c': seq<byte>, k: nat, inum: nat, name: Name)
    requires EntryPut(c, c', k, inum, name) && (k < Entries(c) ==> Inum(c, k) == 0)
    requires Unique(c) && forall j :: !Names(c, j, name)
    ensures Unique(c')
    ensures DirMap(c') == if inum != 0 then DirMap(c)[name := inum] else DirMap(c)
  {
    hide Inum, EntryName, Unique, DirMap;
    forall j, other ensures Names(c', j, other) <==> Names(c, j, other) || (j == k && inum != 0 && other == name) {
      EntryPutNames(c, c', k, inum, name, j, other);
    }
    assert inum != 0 ==> Inum(c', k) == inum;
    assert forall j, other :: Names(c, j, other) ==> Names(c', j, other) && Inum(c', j) == Inum(c, j);
    hide EntryPut;
    NamedMap(c, c', k, inum, name);
  }

  /** A directory with one more name in use. */
  lemma NamedMap(c: seq<byte>, c': seq<byte>, k: nat, inum: nat, name: Name)
    requires Unique(c) && forall j :: !Names(c, j, name)
    requires forall j, other :: Names(c', j, other) <==> Names(c, j, other) || (j == k && inum != 0 && other == name)
    requires forall j, other :: Names(c, j, other) ==> Names(c', j, other) && Inum(c', j) == Inum(c, j)
    requires inum != 0 ==> Names(c', k, name) && Inum(c', k) == inum
    ensures Unique(c')
    ensures DirMap(c') == if inum != 0 then DirMap(c)[name := inum] else DirMap(c)
  {
    hide Inum, EntryName, Names;
    var m := if inum != 0 then DirMap(c)[name := inum] else DirMap(c);
    forall other ensures other in DirMap(c') <==> other in m {
      if other in DirMap(c) {
        var j :| Names(c, j, other);
        assert Names(c', j, other);
      }
      if inum != 0 { assert Names(c', k, name); }
    }
    forall other | other in m ensures DirMap(c')[other] == m[other] {
      var j :| Names(c', j, other);
    }
  }

  // ---------------------------------------------------------------- operations

  datatype Lookup = Found(inum: nat, off: nat) | NotFound | LookupPanic

  datatype Link = Linked | Exists | LinkPanic

  /** The bytes of directory dp. */
  ghost function Contents(fs: Fs, dp: nat): (c: seq<byte>)
    requires Shaped(fs) && dp < |fs.inodes| && fs.inodes[dp].size <= MAXFILE * BSIZE
    ensures |c| == fs.inodes[dp].size
  {
    Files(fs)[dp][..fs.inodes[dp].size]
  }

  ghost predicate DirReady(f: FileSys, dp: nat)
    reads f
  {
    && Shaped(f.fs) && Exact(f.meta, f.fs, f.owner) && |f.dinodes| == |f.fs.inodes|
    && dp < |f.fs.inodes| && f.fs.inodes[dp].size <= MAXFILE * BSIZE
  }

  lemma LookedContents(fs: Fs, gs: Fs, dp: nat, off: nat, n: nat)
    requires Looked(fs, gs, dp, off, n) && fs.inodes[dp].size <= MAXFILE * BSIZE
    ensures |gs.inodes| == |fs.inodes| && gs.inodes[dp].size == fs.inodes[dp].size && gs.inodes[dp].typ == fs.inodes[dp].typ
    ensures Contents(gs, dp) == Contents(fs, dp)
  {
    LookedSame(fs, gs, dp, off, n);
  }

  datatype EntryRead = Read(de: seq<byte>) | Short | OutOfBlocks

  /** Read the entry at offset off. */
  method ReadEntry(f: FileSys, dp: nat, off: uint) returns (r: EntryRead)
    requires DirReady(f, dp) && off < f.fs.inodes[dp].size
    modifies f`fs, f`owner, f`logged
    ensures r == OutOfBlocks <==>
              |FreeSet(old(f.fs))| < Lacking(old(f.fs), dp, off, Clipped(old(f.fs).inodes[dp].size, off, DIRENT))
    ensures r != OutOfBlocks ==> (r == Short <==> off + DIRENT > old(f.fs).inodes[dp].size)
    ensures r.Read? ==> r.de == Contents(old(f.fs), dp)[off..off + DIRENT]
    ensures r.Read? ==> DirReady(f, dp) && Looked(old(f.fs), f.fs, dp, off, DIRENT)
    ensures Dense(old(f.fs), dp) ==> r != OutOfBlocks && f.fs == old(f.fs) && f.owner == old(f.owner) && f.logged == old(f.logged)
  {
    hide Exact, Dense, Files, Lacking, FreeSet, Allocated;
    var c, dst := f.Readi(dp, off, DIRENT);
    if c == Panic {
      return OutOfBlocks;
    }
    if c != Count(DIRENT) {
      return Short;
    }
    assert Contents(old(f.fs), dp)[off..off + DIRENT] == Files(old(f.fs))[dp][off..off + DIRENT];
    r := Read(dst);
  }

  lemma EntryOf(c: seq<byte>, k: nat, de: seq<byte>, name: seq<byte>)
    requires (k + 1) * DIRENT <= |c| && de == c[k * DIRENT..k * DIRENT + DIRENT]
    ensures Inum(de, 0) == Inum(c, k) && EntryName(c, k) == Canon(de[2..], DIRSIZ)
  {
    assert de[2..] == c[k * DIRENT + 2..(k + 1) * DIRENT];
  }

  /** dirlookup: the first entry in use under the name. */
  method Dirlookup(f: FileSys, dp: nat, name: seq<byte>) returns (r: Lookup)
    requires DirReady(f, dp) && Readable(name, DIRSIZ)
    modifies f`fs, f`owner, f`logged
    ensures Dense(old(f.fs), dp) ==> f.fs == old(f.fs) && f.owner == old(f.owner) && f.logged == old(f.logged)
    ensures r != LookupPanic ==> DirReady(f, dp)
    ensures old(f.fs).inodes[dp].typ != T_DIR ==> r == LookupPanic
    ensures r == LookupPanic ==>
              || old(f.fs).inodes[dp].typ != T_DIR || old(f.fs).inodes[dp].size % DIRENT != 0
              || |FreeSet(old(f.fs))| < Lacking(old(f.fs), dp, 0, old(f.fs).inodes[dp].size)
    ensures r.Found? ==>
              var c, k := Contents(old(f.fs), dp), r.off / DIRENT;
              && r.off % DIRENT == 0 && Names(c, k, Canon(name, DIRSIZ)) && r.inum == Inum(c, k)
              && (forall j :: 0 <= j < k ==> !Names(c, j, Canon(name, DIRSIZ)))
              && Looked(old(f.fs), f.fs, dp, 0, r.off + DIRENT)
    ensures r == NotFound ==>
              && old(f.fs).inodes[dp].size % DIRENT == 0 && Looked(old(f.fs), f.fs, dp, 0, old(f.fs).inodes[dp].size)
              && forall j :: !Names(Contents(old(f.fs), dp), j, Canon(name, DIRSIZ))
  {
    hide Exact, Dense, Files, Contents, EntryName, Inum, Looked, FreeSet, Lacking;
    if f.fs.inodes[dp].typ != T_DIR {
      return LookupPanic;
    }
    ghost var fs, c := f.fs, Contents(f.fs, dp);
    var k := 0;
    LookedSelf(fs, dp, 0);
    while k * DIRENT < f.fs.inodes[dp].size
      invariant 0 <= k && DirReady(f, dp) && Looked(fs, f.fs, dp, 0, k * DIRENT) && Contents(f.fs, dp) == c
      invariant f.fs.inodes[dp].size == fs.inodes[dp].size && k * DIRENT <= fs.inodes[dp].size
      invariant Dense(fs, dp) ==> f.fs == fs && f.owner == old(f.owner) && f.logged == old(f.logged)
      invariant forall j :: 0 <= j < k ==> !Names(c, j, Canon(name, DIRSIZ))
      decreases fs.inodes[dp].size - k * DIRENT
    {
      ghost var gs := f.fs;
      ghost var got := Clipped(fs.inodes[dp].size, k * DIRENT, DIRENT);
      LookedRoom(fs, gs, dp, 0, k * DIRENT, k * DIRENT + got, fs.inodes[dp].size);
      var de := ReadEntry(f, dp, k * DIRENT);
      if !de.Read? {
        return LookupPanic;
      }
      LookedMore(fs, gs, f.fs, dp, 0, k * DIRENT, k * DIRENT + DIRENT);
      LookedContents(gs, f.fs, dp, k * DIRENT, DIRENT);
      EntryOf(c, k, de.de, name);
      if Inum(de.de, 0) != 0 {
        var same := NameEqual(name, de.de[2..]);
        if same {
          return Found(Inum(de.de, 0), k * DIRENT);
        }
      }
      k := k + 1;
    }
    r := NotFound;
  }

  /** The bytes of struct dirent; its inum keeps the low 16 bits. */
  function DirentOf(inum: uint, name: seq<byte>): (de: seq<byte>)
    requires |name| == DIRSIZ
    ensures |de| == DIRENT && Inum(de, 0) == inum % 0x1_0000 && EntryName(de, 0) == Canon(name, DIRSIZ)
  {
    var de: seq<byte> := [inum % 0x100, inum / 0x100 % 0x100] + name;
    assert de[2..DIRENT] == name;
    de
  }

  /** Writing a dirent over entry k, or after the last one. */
  lemma PutDirent(c: seq<byte>, c': seq<byte>, k: nat, de: seq<byte>)
    requires |c| % DIRENT == 0 && k <= Entries(c) && |de| == DIRENT
    requires c' == c[..k * DIRENT] + de + (if k == Entries(c) then [] else c[(k + 1) * DIRENT..])
    ensures EntryPut(c, c', k, Inum(de, 0), EntryName(de, 0))
  {
    assert c'[k * DIRENT + 2..(k + 1) * DIRENT] == de[2..DIRENT];
    forall j | 0 <= j < Entries(c) && j != k
      ensures Inum(c', j) == Inum(c, j) && EntryName(c', j) == EntryName(c, j)
    {
      assert c'[j * DIRENT + 2..(j + 1) * DIRENT] == c[j * DIRENT + 2..(j + 1) * DIRENT];
    }
  }

  /** What writei does to the contents of a file that ends at size. */
  lemma WrittenContents(files: seq<seq<byte>>, i: nat, size: uint, off: nat, src: seq<byte>)
    requires i < |files| && off <= size <= |files[i]| && 0 < |src| && off + |src| <= |files[i]| < TWO32
    ensures WriteFile(files, i, off, src)[i][..NewSize(size, off, |src|)]
         == files[i][..off] + src + (if off + |src| < size then files[i][off + |src|..size] else [])
  {
  }

  predicate Sized(fs: Fs, dp: nat) {
    Shaped(fs) && dp < |fs.inodes| && fs.inodes[dp].size <= MAXFILE * BSIZE
  }

  /** gs is fs with (inum, name) put into a free place k of directory dp; no other file differs. */
  ghost predicate LinkedInto(fs: Fs, gs: Fs, dp: nat, k: nat, inum: nat, name: Name)
    requires Sized(fs, dp) && Sized(gs, dp)
  {
    && EntryPut(Contents(fs, dp), Contents(gs, dp), k, inum, name)
    && (k < Entries(Contents(fs, dp)) ==> Inum(Contents(fs, dp), k) == 0)
    && |gs.inodes| == |fs.inodes|
    && forall i :: 0 <= i < |fs.inodes| && i != dp ==> gs.inodes[i] == fs.inodes[i] && Files(gs)[i] == Files(fs)[i]
  }

  lemma LinkStep(fs: Fs, gs: Fs, dp: nat, k: nat, inum: uint, name: seq<byte>)
    requires Sized(fs, dp) && Shaped(gs) && |gs.inodes| == |fs.inodes| && |name| == DIRSIZ
    requires fs.inodes[dp].size % DIRENT == 0 && k <= Entries(Contents(fs, dp)) && k * DIRENT + DIRENT <= MAXFILE * BSIZE
    requires k < Entries(Contents(fs, dp)) ==> Inum(Contents(fs, dp), k) == 0
    requires Files(gs) == WriteFile(Files(fs), dp, k * DIRENT, DirentOf(inum, name))
    requires SameButFile(fs, gs, dp, NewSize(fs.inodes[dp].size, k * DIRENT, DIRENT))
    ensures Sized(gs, dp) && LinkedInto(fs, gs, dp, k, inum % 0x1_0000, Canon(name, DIRSIZ))
  {
    hide DirentOf, Contents, WriteFile, Inum, EntryName, Canon;
    var de := DirentOf(inum, name);
    LinkedContents(fs, gs, dp, k, de);
    PutDirent(Contents(fs, dp), Contents(gs, dp), k, de);
    forall i | 0 <= i < |fs.inodes| && i != dp ensures Files(gs)[i] == Files(fs)[i] {
      OtherFile(Files(fs), dp, k * DIRENT, de, i);
    }
  }

  lemma OtherFile(files: seq<seq<byte>>, i: nat, off: nat, src: seq<byte>, j: nat)
    requires i < |files| && (src == [] || off + |src| <= |files[i]|) && j < |files| && j != i
    ensures WriteFile(files, i, off, src)[j] == files[j]
  {
  }

  lemma LinkedContents(fs: Fs, gs: Fs, dp: nat, k: nat, de: seq<byte>)
    requires Sized(fs, dp) && Sized(gs, dp) && |gs.inodes| == |fs.inodes| && |de| == DIRENT
    requires fs.inodes[dp].size % DIRENT == 0 && k <= Entries(Contents(fs, dp)) && k * DIRENT + DIRENT <= MAXFILE * BSIZE
    requires Files(gs) == WriteFile(Files(fs), dp, k * DIRENT, de)
    requires gs.inodes[dp].size == NewSize(fs.inodes[dp].size, k * DIRENT, DIRENT)
    ensures Contents(gs, dp) == Contents(fs, dp)[..k * DIRENT] + de
             + (if k == Entries(Contents(fs, dp)) then [] else Contents(fs, dp)[(k + 1) * DIRENT..])
  {
    hide WriteFile;
    var file, size := Files(fs)[dp], fs.inodes[dp].size;
    WrittenContents(Files(fs), dp, size, k * DIRENT, de);
    assert file[..size][..k * DIRENT] == file[..k * DIRENT];
    if k < Entries(Contents(fs, dp)) {
      assert file[..size][(k + 1) * DIRENT..] == file[(k + 1) * DIRENT..size];
    }
  }

  /** k is the first entry of a directory that is not in use, or one past its end. */
  predicate FirstFree(c: seq<byte>, k: nat) {
    && k * DIRENT <= |c| && (k * DIRENT == |c| || (k < Entries(c) && Inum(c, k) == 0))
    && forall j :: 0 <= j < k ==> j < Entries(c) && Inum(c, j) != 0
  }

  /** dirlink's loop: the first entry that is not in use, or the end. */
  method FindFree(f: FileSys, dp: nat) returns (r: Option<nat>)
    requires DirReady(f, dp)
    modifies f`fs, f`owner, f`logged
    ensures Dense(old(f.fs), dp) ==> f.fs == old(f.fs) && f.owner == old(f.owner) && f.logged == old(f.logged)
    ensures r.None? ==>
              || old(f.fs).inodes[dp].size % DIRENT != 0
              || |FreeSet(old(f.fs))| < Lacking(old(f.fs), dp, 0, old(f.fs).inodes[dp].size)
    ensures r.Some? ==> DirReady(f, dp) && FirstFree(Contents(old(f.fs), dp), r.value)
    ensures r.Some? ==>
              exists n {:trigger Looked(old(f.fs), f.fs, dp, 0, n)} :: 0 <= n <= old(f.fs).inodes[dp].size && Looked(old(f.fs), f.fs, dp, 0, n)
  {
    hide Exact, Dense, Files, Contents, Inum, Looked, FreeSet, Lacking;
    ghost var fs, c := f.fs, Contents(f.fs, dp);
    var k := 0;
    LookedSelf(fs, dp, 0);
    while k * DIRENT < f.fs.inodes[dp].size
      invariant 0 <= k && DirReady(f, dp) && Looked(fs, f.fs, dp, 0, k * DIRENT) && Contents(f.fs, dp) == c
      invariant f.fs.inodes[dp].size == fs.inodes[dp].size && k <= Entries(c)
      invariant Dense(fs, dp) ==> f.fs == fs && f.owner == old(f.owner) && f.logged == old(f.logged)
      invariant forall j :: 0 <= j < k ==> Inum(c, j) != 0
      decreases fs.inodes[dp].size - k * DIRENT
    {
      ghost var gs := f.fs;
      ghost var got := Clipped(fs.inodes[dp].size, k * DIRENT, DIRENT);
      LookedRoom(fs, gs, dp, 0, k * DIRENT, k * DIRENT + got, fs.inodes[dp].size);
      var de := ReadEntry(f, dp, k * DIRENT);
      if !de.Read? {
        return None;
      }
      LookedMore(fs, gs, f.fs, dp, 0, k * DIRENT, k * DIRENT + DIRENT);
      LookedContents(gs, f.fs, dp, k * DIRENT, DIRENT);
      EntryOf(c, k, de.de, []);
      if Inum(de.de, 0) == 0 {
        assert Looked(fs, f.fs, dp, 0, k * DIRENT + DIRENT);
        return Some(k);
      }
      k := k + 1;
    }
    r := Some(k);
  }

  /** Where dirlink leaves the end of a directory. */
  function LinkEnd(c: seq<byte>, k: nat): nat {
    if k * DIRENT == |c| then |c| + DIRENT else |c|
  }

  /** What writing the entry still lacks, once the directory was read to its end. */
  lemma LinkRoom(fs: Fs, gs: Fs, dp: nat, k: nat)
    requires Shaped(fs) && dp < |fs.inodes| && fs.inodes[dp].size % DIRENT == 0 && fs.inodes[dp].size <= MAXFILE * BSIZE
    requires Looked(fs, gs, dp, 0, fs.inodes[dp].size) && FirstFree(Contents(fs, dp), k) && k * DIRENT + DIRENT <= MAXFILE * BSIZE
    ensures Shaped(gs) && dp < |gs.inodes| && LinkEnd(Contents(fs, dp), k) <= MAXFILE * BSIZE
    ensures |FreeSet(gs)| < Lacking(gs, dp, k * DIRENT, DIRENT) <==>
              |FreeSet(fs)| < Lacking(fs, dp, 0, LinkEnd(Contents(fs, dp), k))
  {
    hide Files, Lacking, FreeSet, Allocated, Kept, Inum, Dense;
    var size := fs.inodes[dp].size;
    LookedContents(fs, gs, dp, 0, size);
    if k * DIRENT == size {
      LackingSplit(fs, gs, dp, 0, size, size + DIRENT);
    } else {
      LookedDense(fs, gs, dp);
      DenseLacksNone(gs, dp, k * DIRENT, DIRENT);
    }
  }

  /** gs is fs with file i end bytes long, on all the blocks that takes, and nothing else of its inode or in another changed. */
  ghost predicate Extended(fs: Fs, gs: Fs, i: nat, end: nat) {
    && Allocated(fs, gs, i, 0, end) && end <= MAXFILE * BSIZE && SameButFile(fs, gs, i, end)
    && |FreeSet(gs)| == |FreeSet(fs)| - Lacking(fs, i, 0, end)
  }

  /** dirlink: `k` is where the entry goes, or where the name is already. */
  method Dirlink(f: FileSys, dp: nat, name: seq<byte>, inum: uint) returns (r: Link, ghost k: nat)
    requires DirReady(f, dp) && Readable(name, DIRSIZ)
    modifies f
    ensures old(f.fs).inodes[dp].typ != T_DIR ==> r == LinkPanic
    ensures var fs, c := old(f.fs), Contents(old(f.fs), dp);
            fs.inodes[dp].typ == T_DIR && |c| % DIRENT == 0 && |FreeSet(fs)| >= Lacking(fs, dp, 0, |c|) ==>
              && (r == Exists <==> exists j :: Names(c, j, Canon(name, DIRSIZ)))
              && (r != Exists ==>
                    && FirstFree(c, k)
                    && (r == LinkPanic <==>
                          || LinkEnd(c, k) > MAXFILE * BSIZE
                          || |FreeSet(fs)| < Lacking(fs, dp, 0, LinkEnd(c, k))))
    ensures r == Exists ==>
              && Names(Contents(old(f.fs), dp), k, Canon(name, DIRSIZ)) && f.dinodes == old(f.dinodes)
              && (forall j :: 0 <= j < k ==> !Names(Contents(old(f.fs), dp), j, Canon(name, DIRSIZ)))
              && (old(f.dinodes) == old(f.fs).inodes ==>
                    (f.dinodes == f.fs.inodes <==> !LacksPointer(old(f.fs), dp, 0, k * DIRENT + DIRENT)))
    ensures r == Exists && Dense(old(f.fs), dp) ==> f.fs == old(f.fs)
    ensures r == Exists ==> Shaped(f.fs) && Files(f.fs) == Files(old(f.fs))
    ensures r == Linked ==>
              && DirReady(f, dp)
              && (forall j :: !Names(Contents(old(f.fs), dp), j, Canon(name, DIRSIZ)))
              && LinkedInto(old(f.fs), f.fs, dp, k, inum % 0x1_0000, Canon(name, DIRSIZ))
              && FirstFree(Contents(old(f.fs), dp), k) && Extended(old(f.fs), f.fs, dp, LinkEnd(Contents(old(f.fs), dp), k))
              && f.dinodes == (if k * DIRENT == |Contents(old(f.fs), dp)| then old(f.dinodes)[dp := f.fs.inodes[dp]] else old(f.dinodes))
              && (old(f.dinodes) == old(f.fs).inodes ==>
                    (f.dinodes == f.fs.inodes <==>
                     k * DIRENT == |Contents(old(f.fs), dp)| || !LacksPointer(old(f.fs), dp, 0, |Contents(old(f.fs), dp)|)))
              && (Unique(Contents(old(f.fs), dp)) ==>
                    && Unique(Contents(f.fs, dp))
                    && DirMap(Contents(f.fs, dp)) == Entered(Contents(old(f.fs), dp), Canon(name, DIRSIZ), inum % 0x1_0000))
  {
    hide Exact, Dense, Files, Contents, Inum, EntryName, LinkedInto, WriteFile, Looked, FreeSet, Lacking, FirstFree, Allocated, WriteLog, DirentOf, Wrote, LacksPointer, SameButFile, WrittenBack, Extended;
    k := 0;
    ghost var fs, size := f.fs, f.fs.inodes[dp].size;
    var l := Dirlookup(f, dp, name);
    if l.LookupPanic? { return LinkPanic, k; }
    if l.Found? {
      LookedSame(fs, f.fs, dp, 0, l.off + DIRENT);
      LookedPointers(fs, f.fs, dp, 0, l.off + DIRENT);
      return Exists, l.off / DIRENT;
    }
    ghost var gs := f.fs;
    LookedContents(fs, gs, dp, 0, size);
    LookedDense(fs, gs, dp);
    DenseLacksNone(gs, dp, 0, size);
    var free := FindFree(f, dp);
    k := free.value;
    var padded := CopyName(name);
    var de := DirentOf(inum, padded);
    FreeEnd(Contents(fs, dp), k);
    if k * DIRENT + DIRENT <= MAXFILE * BSIZE { LinkRoom(fs, gs, dp, k); }
    var w := f.Writei(dp, de, free.value * DIRENT, DIRENT);
    if w != Count(DIRENT) { return LinkPanic, k; }
    LinkStep(gs, f.fs, dp, k, inum, padded);
    LinkedInode(fs, gs, f.fs, old(f.dinodes), dp, k);
    LinkedSince(fs, gs, f.fs, dp, size, k, inum % 0x1_0000, Canon(name, DIRSIZ));
    LinkedMap(fs, f.fs, dp, k, inum % 0x1_0000, Canon(name, DIRSIZ));
    r := Linked;
  }

  /** A directory's map once a name is entered; an inode number of 0 enters nothing. */
  ghost function Entered(c: seq<byte>, name: Name, inum: nat): map<Name, nat>
    requires Unique(c)
  {
    if inum != 0 then DirMap(c)[name := inum] else DirMap(c)
  }

  lemma FreeEnd(c: seq<byte>, k: nat)
    requires FirstFree(c, k) && |c| % DIRENT == 0
    ensures k <= Entries(c) && (k < Entries(c) ==> Inum(c, k) == 0) && k * DIRENT <= |c|
    ensures LinkEnd(c, k) == if k * DIRENT + DIRENT > |c| then k * DIRENT + DIRENT else |c|
  {
  }

  lemma LinkedInode(fs: Fs, gs: Fs, hs: Fs, d: seq<Inode>, dp: nat, k: nat)
    requires Sized(fs, dp) && Looked(fs, gs, dp, 0, fs.inodes[dp].size) && fs.inodes[dp].size % DIRENT == 0 && |d| == |fs.inodes|
    requires k * DIRENT <= fs.inodes[dp].size && k * DIRENT + DIRENT <= MAXFILE * BSIZE && Allocated(gs, hs, dp, k * DIRENT, DIRENT)
    requires SameButFile(gs, hs, dp, NewSize(fs.inodes[dp].size, k * DIRENT, DIRENT))
    requires |FreeSet(hs)| == |FreeSet(gs)| - Lacking(gs, dp, k * DIRENT, DIRENT)
    ensures Extended(fs, hs, dp, NewSize(fs.inodes[dp].size, k * DIRENT, DIRENT))
    ensures WrittenBack(d, gs, hs, dp, k * DIRENT, DIRENT) == if k * DIRENT == fs.inodes[dp].size then d[dp := hs.inodes[dp]] else d
    ensures d == fs.inodes ==>
              (WrittenBack(d, gs, hs, dp, k * DIRENT, DIRENT) == hs.inodes <==>
               k * DIRENT == fs.inodes[dp].size || !LacksPointer(fs, dp, 0, fs.inodes[dp].size))
  {
    hide Looked, Lacking, FreeSet, LacksPointer, SameButFile;
    LinkedOnDisk(fs, gs, hs, d, dp, k);
    LinkedFree(fs, gs, dp, k);
  }

  /** The entry goes to a block the directory has by then, so the lookup alone decides whether the inode changed. */
  lemma LinkedOnDisk(fs: Fs, gs: Fs, hs: Fs, d: seq<Inode>, dp: nat, k: nat)
    requires Sized(fs, dp) && Looked(fs, gs, dp, 0, fs.inodes[dp].size) && fs.inodes[dp].size % DIRENT == 0 && |d| == |fs.inodes|
    requires k * DIRENT <= fs.inodes[dp].size && k * DIRENT + DIRENT <= MAXFILE * BSIZE && Allocated(gs, hs, dp, k * DIRENT, DIRENT)
    requires SameButFile(gs, hs, dp, NewSize(fs.inodes[dp].size, k * DIRENT, DIRENT))
    ensures WrittenBack(d, gs, hs, dp, k * DIRENT, DIRENT) == if k * DIRENT == fs.inodes[dp].size then d[dp := hs.inodes[dp]] else d
    ensures d == fs.inodes ==>
              (WrittenBack(d, gs, hs, dp, k * DIRENT, DIRENT) == hs.inodes <==>
               k * DIRENT == fs.inodes[dp].size || !LacksPointer(fs, dp, 0, fs.inodes[dp].size))
    ensures var end := NewSize(fs.inodes[dp].size, k * DIRENT, DIRENT);
            Allocated(fs, hs, dp, 0, end) && SameButFile(fs, hs, dp, end)
  {
    hide Files, LacksPointer;
    var size := fs.inodes[dp].size;
    LookedThen(fs, gs, hs, dp, k * DIRENT, size);
    LookedSame(fs, gs, dp, 0, size);
    LookedPointers(fs, gs, dp, 0, size);
    if k * DIRENT < size {
      LookedHasPointers(fs, gs, dp, k * DIRENT, size);
      PointersKept(gs, hs, dp, k * DIRENT, DIRENT);
      assert forall e :: 0 <= e < |gs.inodes| ==> hs.inodes[e] == gs.inodes[e];
      assert hs.inodes == gs.inodes;
    } else {
      assert forall e :: 0 <= e < |gs.inodes| && e != dp ==> hs.inodes[e] == fs.inodes[e];
      assert fs.inodes[dp := hs.inodes[dp]] == hs.inodes;
    }
  }

  lemma LinkedFree(fs: Fs, gs: Fs, dp: nat, k: nat)
    requires Sized(fs, dp) && Looked(fs, gs, dp, 0, fs.inodes[dp].size) && fs.inodes[dp].size % DIRENT == 0
    requires k * DIRENT <= fs.inodes[dp].size && k * DIRENT + DIRENT <= MAXFILE * BSIZE
    ensures Shaped(gs) && dp < |gs.inodes|
    ensures |FreeSet(gs)| - Lacking(gs, dp, k * DIRENT, DIRENT) ==
            |FreeSet(fs)| - Lacking(fs, dp, 0, NewSize(fs.inodes[dp].size, k * DIRENT, DIRENT))
  {
    hide Files, FreeSet, Lacking, Allocated;
    var size := fs.inodes[dp].size;
    if k * DIRENT == size {
      LackingSplit(fs, gs, dp, 0, size, size + DIRENT);
    } else {
      LookedDense(fs, gs, dp);
      DenseLacksNone(gs, dp, k * DIRENT, DIRENT);
    }
  }

  lemma LookedThen(fs: Fs, gs: Fs, hs: Fs, dp: nat, off: nat, size: nat)
    requires Looked(fs, gs, dp, 0, size) && Allocated(gs, hs, dp, off, DIRENT) && (off == size || off + DIRENT <= size)
    ensures Allocated(fs, hs, dp, 0, if off == size then size + DIRENT else size)
  {
    if off == size {
      AllocatedTrans(fs, gs, hs, dp, 0, size, size + DIRENT);
    } else {
      forall s | ValidSlot(fs, s) && Addr(fs, s) != 0 ensures Addr(hs, s) == Addr(fs, s) {
        assert ValidSlot(gs, s);
      }
      forall bn | 0 <= bn < MAXFILE
        ensures Touched(0, size, bn) ==> Addr(hs, SlotOf(dp, bn)) != 0
        ensures !Touched(0, size, bn) ==> Addr(hs, SlotOf(dp, bn)) == Addr(fs, SlotOf(dp, bn))
      {
        assert Touched(off, DIRENT, bn) ==> Touched(0, size, bn);
        assert ValidSlot(gs, SlotOf(dp, bn));
      }
    }
  }

  lemma LookedHasPointers(fs: Fs, gs: Fs, dp: nat, off: nat, size: nat)
    requires Looked(fs, gs, dp, 0, size) && off + DIRENT <= size <= MAXFILE * BSIZE
    ensures !LacksPointer(gs, dp, off, DIRENT)
  {
    forall bn | 0 <= bn < MAXFILE && Touched(off, DIRENT, bn) ensures gs.inodes[dp].addrs[PointerOf(bn)] != 0 {
      assert Touched(0, size, bn);
      assert Addr(gs, SlotOf(dp, bn)) != 0;
    }
  }

  lemma LinkedSince(fs: Fs, gs: Fs, hs: Fs, dp: nat, n: nat, k: nat, inum: nat, name: Name)
    requires Sized(fs, dp) && Sized(gs, dp) && Sized(hs, dp) && Looked(fs, gs, dp, 0, n)
    ensures LinkedInto(gs, hs, dp, k, inum, name) ==> LinkedInto(fs, hs, dp, k, inum, name)
  {
    hide Files, EntryPut, Inum, Allocated;
    LookedContents(fs, gs, dp, 0, n);
  }

  lemma LinkedMap(fs: Fs, gs: Fs, dp: nat, k: nat, inum: nat, name: Name)
    requires Sized(fs, dp) && Sized(gs, dp) && LinkedInto(fs, gs, dp, k, inum, name)
    requires forall j :: !Names(Contents(fs, dp), j, name)
    ensures Unique(Contents(fs, dp)) ==>
              && Unique(Contents(gs, dp)) && DirMap(Contents(gs, dp)) == Entered(Contents(fs, dp), name, inum)
  {
    hide EntryPut, Unique, DirMap, Inum, Files;
    if Unique(Contents(fs, dp)) { EntryPutMap(Contents(fs, dp), Contents(gs, dp), k, inum, name); }
  }
}
