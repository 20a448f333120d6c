/** Linking a new file into the root directory that mkfs leaves (mkfs.c: main; fs.c: dirlink, bmap, writei). */
module RootHole {
  import opened Base
  import opened FsModel
  import opened FileSystem
  import opened Directory
  import Mkfs

  /** The root directory fills its last block, so rounding up its length adds a block it does not have. */
  predicate Full(names: seq<seq<byte>>) {
    (|names| + 2) % 32 == 0
  }

  /** The name in entry j of the root directory. */
  function RootName(names: seq<seq<byte>>, j: nat): Name
    requires j < |names| + 2
  {
    if j == 0 then ['.' as int] else if j == 1 then ['.' as int, '.' as int] else names[j - 2]
  }

  function RootInum(j: nat): nat {
    if j < 2 then ROOTINO else j
  }

  // ---------------------------------------------------------------- the entries mkfs writes

  lemma SliceLeft(a: seq<byte>, b: seq<byte>, i: nat, j: nat)
    requires i <= j <= |a|
    ensures (a + b)[i..j] == a[i..j]
  {
  }

  lemma SliceRight(a: seq<byte>, b: seq<byte>)
    ensures (a + b)[|a|..|a| + |b|] == b
  {
  }

  lemma {:induction false} RootEntry(names: seq<seq<byte>>, j: nat)
    requires j < |names| + 2
    ensures Mkfs.Root(names)[j * DIRENT..j * DIRENT + DIRENT] == Mkfs.Dirent(RootInum(j), RootName(names, j))
    decreases |names|
  {
    hide Mkfs.Dirent;
    if |names| > 0 {
      var most := names[..|names| - 1];
      var last := Mkfs.Dirent(|names| + 1, names[|names| - 1]);
      assert Mkfs.Root(names) == Mkfs.Root(most) + last;
      if j < |names| + 1 {
        RootEntry(most, j);
        SliceLeft(Mkfs.Root(most), last, j * DIRENT, j * DIRENT + DIRENT);
      } else {
        SliceRight(Mkfs.Root(most), last);
      }
    } else if j == 0 {
      SliceLeft(Mkfs.Dirent(ROOTINO, ['.' as int]), Mkfs.Dirent(ROOTINO, ['.' as int, '.' as int]), 0, DIRENT);
    } else {
      SliceRight(Mkfs.Dirent(ROOTINO, ['.' as int]), Mkfs.Dirent(ROOTINO, ['.' as int, '.' as int]));
    }
  }

  lemma {:induction false} CanonZeroes(s: seq<byte>, pad: seq<byte>, n: nat)
    requires forall x :: 0 <= x < |pad| ==> pad[x] == 0
    ensures Canon(s + pad, n) == Canon(s, n)
  {
    if s == [] {
      assert s + pad == pad;
    } else if n > 0 && s[0] != 0 {
      assert (s + pad)[1..] == s[1..] + pad;
      CanonZeroes(s[1..], pad, n - 1);
    }
  }

  lemma {:induction false} CanonCut(s: seq<byte>, n: nat)
    requires n <= |s|
    ensures Canon(s[..n], n) == Canon(s, n)
  {
    if n > 0 && s[0] != 0 {
      assert s[..n][1..] == s[1..][..n - 1];
      CanonCut(s[1..], n - 1);
    }
  }

  lemma DirentName(inum: nat, name: seq<byte>)
    ensures Canon(Mkfs.Dirent(inum, name)[2..], DIRSIZ) == Canon(name, DIRSIZ)
  {
    if |name| < DIRSIZ {
      var pad: seq<byte> := seq(14 - |name|, _ => 0);
      assert Mkfs.Dirent(inum, name)[2..] == name + pad;
      CanonZeroes(name, pad, DIRSIZ);
    } else {
      assert Mkfs.Dirent(inum, name)[2..] == name[..14];
      CanonCut(name, DIRSIZ);
    }
  }

  /** A directory that starts as the root does has its first entries. */
  lemma EntryIs(names: seq<seq<byte>>, c: seq<byte>, j: nat)
    requires Mkfs.Root(names) <= c && j < |names| + 2 <= Mkfs.NSLOTS
    ensures Inum(c, j) == RootInum(j) != 0 && EntryName(c, j) == Canon(RootName(names, j), DIRSIZ)
  {
    hide Mkfs.Root, Mkfs.Dirent, Canon;
    var root, de := Mkfs.Root(names), Mkfs.Dirent(RootInum(j), RootName(names, j));
    RootEntry(names, j);
    SliceLeft(root, c[|root|..], j * DIRENT, j * DIRENT + DIRENT);
    assert c == root + c[|root|..];
    DirentAt(c, j, de);
    DirentInum(RootInum(j), RootName(names, j));
    DirentName(RootInum(j), RootName(names, j));
  }

  lemma DirentAt(c: seq<byte>, j: nat, de: seq<byte>)
    requires (j + 1) * DIRENT <= |c| && |de| == DIRENT && c[j * DIRENT..j * DIRENT + DIRENT] == de
    ensures Inum(c, j) == de[0] as int + 0x100 * de[1] as int && EntryName(c, j) == Canon(de[2..], DIRSIZ)
  {
    hide Canon;
    var s := c[j * DIRENT..j * DIRENT + DIRENT];
    assert s[0] == c[j * DIRENT] && s[1] == c[j * DIRENT + 1];
    assert s[2..] == c[j * DIRENT + 2..(j + 1) * DIRENT];
  }

  lemma DirentInum(inum: nat, name: seq<byte>)
    ensures inum < 0x1_0000 ==> Mkfs.Dirent(inum, name)[0] as int + 0x100 * Mkfs.Dirent(inum, name)[1] as int == inum
  {
  }

  // ---------------------------------------------------------------- the root directory as it is read

  /** c is the root directory of the named files, and zeroes for at least one more entry. */
  ghost predicate RootBytes(names: seq<seq<byte>>, c: seq<byte>) {
    && |c| % DIRENT == 0 && |Mkfs.Root(names)| + DIRENT <= |c| && Mkfs.Padded(c, Mkfs.Root(names))
  }

  lemma RootContents(fs: Fs, names: seq<seq<byte>>)
    requires Shaped(fs) && ROOTINO < |fs.inodes| && Mkfs.RootMade(fs, names) && |names| + 2 <= Mkfs.NSLOTS
    ensures Sized(fs, ROOTINO) && |Contents(fs, ROOTINO)| == fs.inodes[ROOTINO].size && RootBytes(names, Contents(fs, ROOTINO))
    ensures fs.inodes[ROOTINO].size + DIRENT <= NDIRECT * BSIZE
  {
    hide Files, Mkfs.Root;
    var n := |names| + 2;
    var root := Mkfs.Root(names);
    assert |root| == 16 * n;
    var c := Contents(fs, ROOTINO);
    assert c[..|root|] == Files(fs)[ROOTINO][..|root|];
  }

  lemma RootPlaces(names: seq<seq<byte>>, c: seq<byte>)
    requires RootBytes(names, c) && |names| + 2 <= Mkfs.NSLOTS
    ensures forall k: nat :: FirstFree(c, k) ==> k == |names| + 2
    ensures forall j: nat, name :: Names(c, j, name) <==> j < |names| + 2 && Canon(RootName(names, j), DIRSIZ) == name
  {
    hide Mkfs.Root, Canon;
    var n := |names| + 2;
    assert Mkfs.Root(names) <= c;
    forall j | 0 <= j < n ensures Inum(c, j) != 0 && EntryName(c, j) == Canon(RootName(names, j), DIRSIZ) {
      EntryIs(names, c, j);
    }
    forall j | n <= j && (j + 1) * DIRENT <= |c| ensures Inum(c, j) == 0 {
      assert c[j * DIRENT] == 0 && c[j * DIRENT + 1] == 0;
    }
    assert Inum(c, n) == 0;
  }

  lemma RootLacks(fs: Fs, names: seq<seq<byte>>)
    requires Shaped(fs) && ROOTINO < |fs.inodes| && Mkfs.RootMade(fs, names) && |names| + 2 <= Mkfs.NSLOTS
    ensures fs.inodes[ROOTINO].size <= MAXFILE * BSIZE
    ensures Lacking(fs, ROOTINO, 0, fs.inodes[ROOTINO].size) == if Full(names) then 1 else 0
    ensures LacksPointer(fs, ROOTINO, 0, fs.inodes[ROOTINO].size) <==> Full(names)
  {
    hide Files, Mkfs.Root, Mkfs.Padded;
    var n, size := |names| + 2, fs.inodes[ROOTINO].size;
    var last := size / BSIZE - 1;
    assert |Mkfs.Root(names)| == 16 * n;
    assert size == (last + 1) * BSIZE && last == 16 * n / BSIZE && last < NDIRECT;
    assert Full(names) <==> last * BSIZE == 16 * n;
    forall bn | 0 <= bn <= last ensures fs.inodes[ROOTINO].addrs[bn] == 0 <==> bn == last && Full(names) {
      assert Addr(fs, SlotOf(ROOTINO, bn)) == fs.inodes[ROOTINO].addrs[bn];
    }
    forall bn | 0 <= bn < MAXFILE ensures Touched(0, size, bn) <==> bn <= last {}
    assert Touched(0, size, last) && PointerOf(last) == last;
    AbsentSplit(fs, ROOTINO, 0, last, last + 1);
    NoneAbsent(fs, ROOTINO, 0, last);
    assert Absent(fs, ROOTINO, last + 1, last + 1) == 0;
  }

  // ---------------------------------------------------------------- what the next read of the inode finds

  /** The file system as it would be read back: the inodes from disk. */
  function OnDisk(fs: Fs, dinodes: seq<Inode>): Fs {
    fs.(inodes := dinodes)
  }

  /** The block with the new entry is not in the inode on disk: there the directory ends in zeroes. */
  lemma DiskRoot(fs: Fs, gs: Fs, names: seq<seq<byte>>)
    requires Shaped(fs) && ROOTINO < |fs.inodes| && Mkfs.RootMade(fs, names) && |names| + 2 <= Mkfs.NSLOTS && Full(names)
    requires Allocated(fs, gs, ROOTINO, 0, fs.inodes[ROOTINO].size) && SameButFile(fs, gs, ROOTINO, fs.inodes[ROOTINO].size)
    requires |gs.blocks| == |fs.blocks|
    ensures var ds := OnDisk(gs, fs.inodes);
            && Sized(ds, ROOTINO) && Sized(gs, ROOTINO)
            && |Contents(ds, ROOTINO)| == |Contents(gs, ROOTINO)| == fs.inodes[ROOTINO].size
            && (forall p :: 0 <= p < |Mkfs.Root(names)| ==> Contents(ds, ROOTINO)[p] == Contents(gs, ROOTINO)[p])
            && (forall p :: |Mkfs.Root(names)| <= p < fs.inodes[ROOTINO].size ==> Contents(ds, ROOTINO)[p] == 0)
  {
    hide Mkfs.Root, Mkfs.Padded;
    RootContents(fs, names);
    var ds, size, n := OnDisk(gs, fs.inodes), fs.inodes[ROOTINO].size, 16 * (|names| + 2);
    assert |Mkfs.Root(names)| == n;
    forall p | 0 <= p < size
      ensures p < n ==> Contents(ds, ROOTINO)[p] == Contents(gs, ROOTINO)[p]
      ensures n <= p ==> Contents(ds, ROOTINO)[p] == 0
    {
      var bn := p / BSIZE;
      assert bn * BSIZE < n <==> p < n;
      assert Addr(fs, SlotOf(ROOTINO, bn)) == Addr(ds, SlotOf(ROOTINO, bn)) == fs.inodes[ROOTINO].addrs[bn];
      assert ValidSlot(fs, SlotOf(ROOTINO, bn));
      assert Contents(ds, ROOTINO)[p] == FileBlock(ds, ROOTINO, bn)[p % BSIZE];
      assert Contents(gs, ROOTINO)[p] == FileBlock(gs, ROOTINO, bn)[p % BSIZE];
    }
  }

  /** The new entry is not among those read back. */
  lemma EntryLost(fs: Fs, gs: Fs, names: seq<seq<byte>>, name: Name, inum: nat)
    requires Shaped(fs) && ROOTINO < |fs.inodes| && Mkfs.RootMade(fs, names) && |names| + 2 <= Mkfs.NSLOTS && Full(names)
    requires Allocated(fs, gs, ROOTINO, 0, fs.inodes[ROOTINO].size) && SameButFile(fs, gs, ROOTINO, fs.inodes[ROOTINO].size)
    requires |gs.blocks| == |fs.blocks| && Sized(fs, ROOTINO) && Sized(gs, ROOTINO)
    requires LinkedInto(fs, gs, ROOTINO, |names| + 2, inum, name) && forall j :: !Names(Contents(fs, ROOTINO), j, name)
    ensures Sized(OnDisk(gs, fs.inodes), ROOTINO) && forall j :: !Names(Contents(OnDisk(gs, fs.inodes), ROOTINO), j, name)
  {
    hide Files, Allocated, Canon, Mkfs.Root, Mkfs.Padded, Mkfs.RootMade, Contents;
    RootContents(fs, names);
    DiskRoot(fs, gs, names);
    var n, size := |names| + 2, fs.inodes[ROOTINO].size;
    var c, c', d := Contents(fs, ROOTINO), Contents(gs, ROOTINO), Contents(OnDisk(gs, fs.inodes), ROOTINO);
    assert |Mkfs.Root(names)| == n * DIRENT;
    forall j: nat ensures !Names(d, j, name) {
      if (j + 1) * DIRENT <= |d| {
        if j < n {
          SameEntry(c', d, j);
          assert !Names(c, j, name);
        } else {
          assert d[j * DIRENT] == 0 && d[j * DIRENT + 1] == 0;
        }
      }
    }
  }

  /** Data block b is marked in use, and no inode or indirect block refers to it. */
  ghost predicate Stray(meta: nat, fs: Fs, b: nat)
    requires Shaped(fs)
  {
    meta <= b < |fs.bitmap| && fs.bitmap[b] && forall s :: ValidSlot(fs, s) ==> Addr(fs, s) != b
  }

  /** A block that only the inode in memory names is stray on disk. */
  lemma StrayBlock(meta: nat, fs: Fs, gs: Fs, owner: map<uint, Slot>, i: nat, off: nat, n: nat, bn: nat)
    requires Exact(meta, gs, owner) && Allocated(fs, gs, i, off, n) && SameButFile(fs, gs, i, fs.inodes[i].size)
    requires bn < NDIRECT && fs.inodes[i].addrs[bn] == 0 != gs.inodes[i].addrs[bn]
    ensures Shaped(OnDisk(gs, fs.inodes)) && Stray(meta, OnDisk(gs, fs.inodes), gs.inodes[i].addrs[bn])
  {
    var ds, b := OnDisk(gs, fs.inodes), gs.inodes[i].addrs[bn];
    assert Addr(gs, Ptr(i, bn)) == b;
    forall s | ValidSlot(ds, s) ensures Addr(ds, s) != b {
      assert ValidSlot(gs, s) && ValidSlot(fs, Ptr(s.i, NDIRECT)) && ValidSlot(fs, s);
      assert Addr(ds, s) != 0 ==> Addr(gs, s) == Addr(ds, s);
    }
  }

  lemma NoneStray(meta: nat, fs: Fs, owner: map<uint, Slot>, b: nat)
    requires Exact(meta, fs, owner)
    ensures !Stray(meta, fs, b)
  {
    if meta <= b < |fs.bitmap| && fs.bitmap[b] {
      assert ValidSlot(fs, owner[b]) && Addr(fs, owner[b]) == b;
    }
  }

  lemma StrayIff(meta: nat, fs: Fs, gs: Fs, owner: map<uint, Slot>, names: seq<seq<byte>>)
    requires Exact(meta, gs, owner) && Shaped(fs) && ROOTINO < |fs.inodes| && Mkfs.RootMade(fs, names) && |names| + 2 <= Mkfs.NSLOTS
    requires Allocated(fs, gs, ROOTINO, 0, fs.inodes[ROOTINO].size) && SameButFile(fs, gs, ROOTINO, fs.inodes[ROOTINO].size)
    requires fs.inodes == gs.inodes <==> !Full(names)
    ensures Shaped(OnDisk(gs, fs.inodes)) && ((exists b: nat :: Stray(meta, OnDisk(gs, fs.inodes), b)) <==> Full(names))
  {
    hide Exact, Stray, Mkfs.RootMade;
    RootLacks(fs, names);
    if Full(names) {
      var size := fs.inodes[ROOTINO].size;
      var bn :| 0 <= bn < MAXFILE && Touched(0, size, bn) && fs.inodes[ROOTINO].addrs[PointerOf(bn)] == 0;
      RootContents(fs, names);
      assert bn < NDIRECT && Addr(gs, SlotOf(ROOTINO, bn)) != 0;
      StrayBlock(meta, fs, gs, owner, ROOTINO, 0, size, bn);
    } else {
      assert OnDisk(gs, fs.inodes) == gs;
      forall b: nat ensures !Stray(meta, gs, b) { NoneStray(meta, gs, owner, b); }
    }
  }

  lemma SameEntry(c: seq<byte>, d: seq<byte>, j: nat)
    requires (j + 1) * DIRENT <= |c| && (j + 1) * DIRENT <= |d| && forall p :: j * DIRENT <= p < (j + 1) * DIRENT ==> d[p] == c[p]
    ensures Inum(d, j) == Inum(c, j) && EntryName(d, j) == EntryName(c, j)
  {
    hide Canon;
    assert d[j * DIRENT + 2..(j + 1) * DIRENT] == c[j * DIRENT + 2..(j + 1) * DIRENT];
  }

  /** What dirlink finds in the root directory. */
  lemma BeforeLink(fs: Fs, names: seq<seq<byte>>, name: Name)
    requires Shaped(fs) && ROOTINO < |fs.inodes| && Mkfs.RootMade(fs, names) && |names| + 2 <= Mkfs.NSLOTS
    requires forall j :: 0 <= j < |names| + 2 ==> Canon(RootName(names, j), DIRSIZ) != name
    ensures Sized(fs, ROOTINO)
    ensures var c := Contents(fs, ROOTINO);
            && fs.inodes[ROOTINO].typ == T_DIR && |c| % DIRENT == 0 && |c| == fs.inodes[ROOTINO].size
            && (forall j :: !Names(c, j, name)) && (forall k: nat :: FirstFree(c, k) ==> k == |names| + 2)
            && LinkEnd(c, |names| + 2) == |c| && (|names| + 2) * DIRENT != |c|
            && Lacking(fs, ROOTINO, 0, |c|) == (if Full(names) then 1 else 0)
            && (LacksPointer(fs, ROOTINO, 0, |c|) <==> Full(names))
  {
    hide Files, Canon, Mkfs.Root, Mkfs.Padded, Contents, Lacking, LacksPointer, FirstFree, Names;
    RootContents(fs, names);
    RootPlaces(names, Contents(fs, ROOTINO));
    RootLacks(fs, names);
  }

  /** What linking the name has made of the directory in memory and on disk. */
  lemma AfterLink(fs: Fs, gs: Fs, d: seq<Inode>, names: seq<seq<byte>>, name: Name, inum: nat)
    requires Shaped(fs) && ROOTINO < |fs.inodes| && Mkfs.RootMade(fs, names) && |names| + 2 <= Mkfs.NSLOTS
    requires Sized(fs, ROOTINO) && Sized(gs, ROOTINO)
    requires Allocated(fs, gs, ROOTINO, 0, fs.inodes[ROOTINO].size) && SameButFile(fs, gs, ROOTINO, fs.inodes[ROOTINO].size)
    requires LinkedInto(fs, gs, ROOTINO, |names| + 2, inum, name) && forall j :: !Names(Contents(fs, ROOTINO), j, name)
    requires d == fs.inodes && (d == gs.inodes <==> !Full(names))
    ensures Sized(OnDisk(gs, d), ROOTINO)
    ensures inum != 0 ==>
              && Names(Contents(gs, ROOTINO), |names| + 2, name)
              && ((exists j :: Names(Contents(OnDisk(gs, d), ROOTINO), j, name)) <==> !Full(names))
  {
    hide Files, Canon, Mkfs.RootMade, Contents, Inum, EntryName, SameButFile;
    assert |gs.blocks| == |fs.blocks|;
    hide Allocated;
    EntryPutNames(Contents(fs, ROOTINO), Contents(gs, ROOTINO), |names| + 2, inum, name, |names| + 2, name);
    if Full(names) {
      EntryLost(fs, gs, names, name, inum);
    } else {
      assert OnDisk(gs, d) == gs;
    }
  }

  lemma FreeAfter(used: nat, bitmap: seq<bool>, fs: Fs)
    requires bitmap == Mkfs.Used(used, 8 * BSIZE) && fs.bitmap == bitmap[..Mkfs.FSSIZE]
    ensures |FreeSet(fs)| >= 1 <==> used < Mkfs.FSSIZE
  {
    if used < Mkfs.FSSIZE {
      assert used in FreeSet(fs);
    } else {
      assert FreeSet(fs) == {};
    }
  }

  /**
   mkfs, and then dirlink of one new name into the root directory.  The directory on disk has the name
   exactly if mkfs did not leave the directory with a block it does not have.
   */
  method LinkInRoot(names: seq<seq<byte>>, data: seq<seq<byte>>, name: seq<byte>, inum: uint) returns (r: Link, f: FileSys)
    requires |names| == |data| && |names| + 2 <= Mkfs.NSLOTS && Mkfs.Fits(data) && Readable(name, DIRSIZ)
    requires forall j :: 0 <= j < |names| + 2 ==> Canon(RootName(names, j), DIRSIZ) != Canon(name, DIRSIZ)
    ensures fresh(f) && r != Exists
    ensures r == Linked <==>
              !Full(names) || Mkfs.NMETA + Mkfs.Need(Mkfs.RootBytes(|names|)) + Mkfs.NeedAll(data) < Mkfs.FSSIZE
    ensures r == Linked ==>
              && Sized(f.fs, ROOTINO) && Sized(OnDisk(f.fs, f.dinodes), ROOTINO)
              && (f.dinodes == f.fs.inodes <==> !Full(names))
              && ((exists b: nat :: Stray(Mkfs.NMETA, OnDisk(f.fs, f.dinodes), b)) <==> Full(names))
              && (inum % 0x1_0000 != 0 ==>
                    && Names(Contents(f.fs, ROOTINO), |names| + 2, Canon(name, DIRSIZ))
                    && ((exists j :: Names(Contents(OnDisk(f.fs, f.dinodes), ROOTINO), j, Canon(name, DIRSIZ))) <==> !Full(names)))
  {
    hide Exact, Dense, Files, Canon, Mkfs.RootMade, Mkfs.Holds, Mkfs.Need, Mkfs.NeedAll, Mkfs.Fits, Mkfs.Used, FreeSet, Lacking, LacksPointer;
    hide Allocated, SameButFile, LinkedInto, Contents, Inum, EntryName, FirstFree, Names, LinkEnd, Full, RootName, Stray;
    var image := new Mkfs.Image();
    var made := image.Build(names, data);
    ghost var fs := Fs(image.inodes, image.blocks, image.bitmap[..Mkfs.FSSIZE]);
    f := new FileSys(Mkfs.NMETA, Mkfs.BMAPSTART, Mkfs.INODESTART, Fs(image.inodes, image.blocks, image.bitmap[..Mkfs.FSSIZE]), image.owner);
    BeforeLink(fs, names, Canon(name, DIRSIZ));
    FreeAfter(Mkfs.NMETA + Mkfs.Need(Mkfs.RootBytes(|names|)) + Mkfs.NeedAll(data), image.bitmap, fs);
    ghost var k;
    r, k := Dirlink(f, ROOTINO, name, inum);
    if r == Linked {
      AfterLink(fs, f.fs, f.dinodes, names, Canon(name, DIRSIZ), inum % 0x1_0000);
      StrayIff(Mkfs.NMETA, fs, f.fs, f.owner, names);
    }
  }

  // ---------------------------------------------------------------- thirty files

  lemma {:induction false} EmptyNeedNone(data: seq<seq<byte>>)
    requires forall k :: 0 <= k < |data| ==> data[k] == []
    ensures Mkfs.NeedAll(data) == 0
  {
    if data != [] { EmptyNeedNone(data[..|data| - 1]); }
  }

  lemma CanonFirst(s: seq<byte>, t: seq<byte>, n: nat)
    requires 0 < n && s != [] && t != [] && s[0] != 0 && s[0] != t[0]
    ensures Canon(s, n) != Canon(t, n)
  {
    assert Canon(s, n)[0] == s[0];
  }

  /** The name b. */
  const NEWFILE: seq<byte> := ['b' as int, 0]

  /** Thirty empty files fill the first block of the root directory, and a file made after that is lost. */
  method ThirtyFiles() returns (f: FileSys)
    ensures fresh(f) && Sized(f.fs, ROOTINO) && Sized(OnDisk(f.fs, f.dinodes), ROOTINO)
    ensures Names(Contents(f.fs, ROOTINO), 32, Canon(NEWFILE, DIRSIZ))
    ensures f.dinodes != f.fs.inodes && forall j :: !Names(Contents(OnDisk(f.fs, f.dinodes), ROOTINO), j, Canon(NEWFILE, DIRSIZ))
  {
    hide Files, Contents, Names, Stray, Canon;
    var names, data := seq(30, _ => ['a' as int]), seq(30, _ => []);
    EmptyNeedNone(data);
    forall j | 0 <= j < 32 ensures Canon(RootName(names, j), DIRSIZ) != Canon(NEWFILE, DIRSIZ) {
      CanonFirst(RootName(names, j), NEWFILE, DIRSIZ);
    }
    assert |names| + 2 == 32 && Full(names);
    var r;
    r, f := LinkInRoot(names, data, NEWFILE, 32);
  }
}
