/** The ten blocks filewrite allows a chunk are sometimes needed. */
module WriteBound {
  import opened Base
  import opened FsModel
  import opened FileSystem

  /** Where the inodes and the bitmap lie: inode blocks, then bitmap blocks, then data. */
  predicate LaidOut(meta: nat, fs: Fs, bmapstart: nat, inodestart: nat) {
    && (forall i :: 0 <= i < |fs.inodes| ==> i / IPB + inodestart < bmapstart)
    && (forall b :: 0 <= b < |fs.bitmap| ==> b / BPB + bmapstart < meta)
  }

  /** The free blocks are far apart: no two in one bitmap block. */
  predicate Scattered(fs: Fs) {
    forall a, b :: 0 <= a < b < |fs.bitmap| && !fs.bitmap[a] && !fs.bitmap[b] ==> a / BPB != b / BPB
  }

  /** The file ends inside its last direct block, and has no indirect block. */
  predicate AtTheEdge(fs: Fs, i: nat, off: nat)
    requires Shaped(fs) && i < |fs.inodes|
  {
    && off / BSIZE == NDIRECT - 1 && off % BSIZE != 0 && fs.inodes[i].size == off
    && fs.inodes[i].addrs[NDIRECT - 1] != 0 && fs.inodes[i].addrs[NDIRECT] == 0
  }

  /** A slot that was empty and is now filled holds a block that was free. */
  lemma FilledWasFree(meta: nat, fs: Fs, gs: Fs, owner0: map<uint, Slot>, owner: map<uint, Slot>, i: nat, off: nat, n: nat, s: Slot)
    requires Exact(meta, fs, owner0) && Exact(meta, gs, owner) && Allocated(fs, gs, i, off, n)
    requires ValidSlot(fs, s) && ValidSlot(gs, s) && Addr(fs, s) == 0 && Addr(gs, s) != 0
    ensures Addr(gs, s) in NewBits(fs, gs) && Addr(gs, s) >= meta
  {
    var a := Addr(gs, s);
    assert a in owner && owner[a] == s;
    forall b | b in owner0 ensures owner0[b] != s || b != a {
      assert Addr(fs, owner0[b]) == b;
    }
    forall b | b in owner0 ensures b in owner && owner[b] == owner0[b] {
      assert ValidSlot(gs, owner0[b]) && Addr(gs, owner0[b]) == b;
    }
  }

  /** The slots such a write goes through: a direct block it finds, three entries and the indirect block it fills. */
  function Slots(i: nat): seq<Slot> {
    [Ptr(i, NDIRECT - 1), Entry(i, 0), Entry(i, 1), Entry(i, 2), Ptr(i, NDIRECT)]
  }

  function SlotBlock(gs: Fs, i: nat, k: nat): nat
    requires Shaped(gs) && i < |gs.inodes| && k < 5
  {
    Addr(gs, Slots(i)[k])
  }

  lemma SlotFacts(meta: nat, fs: Fs, gs: Fs, owner0: map<uint, Slot>, owner: map<uint, Slot>, i: nat, off: nat, k: nat)
    requires Shaped(fs) && Shaped(gs) && i < |fs.inodes| == |gs.inodes|
    requires Exact(meta, fs, owner0) && Exact(meta, gs, owner) && Allocated(fs, gs, i, off, CHUNK)
    requires AtTheEdge(fs, i, off) && k < 5
    ensures SlotBlock(gs, i, k) != 0 && SlotBlock(gs, i, k) in owner && owner[SlotBlock(gs, i, k)] == Slots(i)[k]
    ensures meta <= SlotBlock(gs, i, k) < |fs.bitmap|
    ensures k > 0 ==> SlotBlock(gs, i, k) in NewBits(fs, gs)
    ensures k < 4 ==> Touched(off, CHUNK, NDIRECT - 1 + k) && SlotOf(i, NDIRECT - 1 + k) == Slots(i)[k]
  {
    var s := Slots(i)[k];
    assert ValidSlot(fs, s) && ValidSlot(gs, s);
    assert Touched(off, CHUNK, NDIRECT) && Addr(gs, SlotOf(i, NDIRECT)) != 0;
    if k < 4 {
      assert SlotOf(i, NDIRECT - 1 + k) == s;
    }
    if k > 0 { FilledWasFree(meta, fs, gs, owner0, owner, i, off, CHUNK, s); }
  }

  lemma BitBlockIn(bs: set<nat>, b: nat, start: nat)
    requires b in bs
    ensures b / BPB + start in BitBlocks(bs, start)
  {
  }

  lemma DataIn(gs: Fs, i: nat, off: nat, n: nat, bn: nat)
    requires Shaped(gs) && i < |gs.inodes| && bn < MAXFILE && Touched(off, n, bn)
    ensures Addr(gs, SlotOf(i, bn)) as nat in DataBlocks(gs, i, off, n)
  {
  }

  lemma {:induction false} AtLeast(t: seq<nat>, w: set<nat>)
    requires (forall k, l :: 0 <= k < l < |t| ==> t[k] != t[l]) && forall k :: 0 <= k < |t| ==> t[k] in w
    ensures |w| >= |t|
    decreases |t|
  {
    if t != [] {
      AtLeast(t[..|t| - 1], w - {t[|t| - 1]});
    }
  }

  /** The k-th of the ten: the five blocks, the four bitmap blocks of the new ones, the inode's block. */
  function TheTen(gs: Fs, i: nat, bmapstart: nat, inodestart: nat, k: nat): nat
    requires Shaped(gs) && i < |gs.inodes| && k < 10
  {
    if k < 5 then SlotBlock(gs, i, k)
    else if k < 9 then SlotBlock(gs, i, k - 4) / BPB + bmapstart
    else i / IPB + inodestart
  }

  lemma TenApart(meta: nat, fs: Fs, gs: Fs, owner0: map<uint, Slot>, owner: map<uint, Slot>, i: nat, off: nat,
                 bmapstart: nat, inodestart: nat, k: nat, l: nat)
    requires Shaped(fs) && Shaped(gs) && i < |fs.inodes| == |gs.inodes|
    requires Exact(meta, fs, owner0) && Exact(meta, gs, owner) && Allocated(fs, gs, i, off, CHUNK)
    requires AtTheEdge(fs, i, off) && Scattered(fs) && LaidOut(meta, fs, bmapstart, inodestart) && k < l < 10
    ensures TheTen(gs, i, bmapstart, inodestart, k) != TheTen(gs, i, bmapstart, inodestart, l)
  {
    hide Exact, Allocated, Addr, SlotBlock;
    var a := if k < 5 then k else if k < 9 then k - 4 else 0;
    var b := if l < 5 then l else if l < 9 then l - 4 else 0;
    SlotFacts(meta, fs, gs, owner0, owner, i, off, a);
    SlotFacts(meta, fs, gs, owner0, owner, i, off, b);
  }

  lemma TenIn(meta: nat, fs: Fs, gs: Fs, owner0: map<uint, Slot>, owner: map<uint, Slot>, i: nat, off: nat,
              bmapstart: nat, inodestart: nat, k: nat)
    requires Shaped(fs) && Shaped(gs) && i < |fs.inodes| == |gs.inodes|
    requires Exact(meta, fs, owner0) && Exact(meta, gs, owner) && Allocated(fs, gs, i, off, CHUNK)
    requires AtTheEdge(fs, i, off) && k < 10
    ensures TheTen(gs, i, bmapstart, inodestart, k) in WriteLog(fs, gs, i, off, CHUNK, bmapstart, inodestart)
  {
    hide Exact, Allocated, NewBits, BitBlocks, DataBlocks;
    var a := if k < 5 then k else if k < 9 then k - 4 else 0;
    SlotFacts(meta, fs, gs, owner0, owner, i, off, a);
    if k < 4 { DataIn(gs, i, off, CHUNK, NDIRECT - 1 + k); }
    if 5 <= k < 9 { BitBlockIn(NewBits(fs, gs), SlotBlock(gs, i, a), bmapstart); }
  }

  /** A chunk at the edge of the direct blocks, on a disk with scattered free blocks, logs ten blocks. */
  lemma TenBlocks(meta: nat, fs: Fs, gs: Fs, owner0: map<uint, Slot>, owner: map<uint, Slot>, i: nat, off: nat,
                  bmapstart: nat, inodestart: nat)
    requires Shaped(fs) && Shaped(gs) && i < |fs.inodes| == |gs.inodes|
    requires Exact(meta, fs, owner0) && Exact(meta, gs, owner) && Allocated(fs, gs, i, off, CHUNK)
    requires AtTheEdge(fs, i, off) && Scattered(fs) && LaidOut(meta, fs, bmapstart, inodestart)
    ensures |WriteLog(fs, gs, i, off, CHUNK, bmapstart, inodestart)| >= MAXOPBLOCKS
  {
    hide Exact, Allocated, WriteLog, TheTen, LaidOut, Scattered, AtTheEdge;
    SlotFacts(meta, fs, gs, owner0, owner, i, off, 0);
    var t := seq(10, k requires 0 <= k < 10 => TheTen(gs, i, bmapstart, inodestart, k));
    forall k, l | 0 <= k < l < 10 ensures t[k] != t[l] {
      TenApart(meta, fs, gs, owner0, owner, i, off, bmapstart, inodestart, k, l);
    }
    forall k | 0 <= k < 10 ensures t[k] in WriteLog(fs, gs, i, off, CHUNK, bmapstart, inodestart) {
      TenIn(meta, fs, gs, owner0, owner, i, off, bmapstart, inodestart, k);
    }
    AtLeast(t, WriteLog(fs, gs, i, off, CHUNK, bmapstart, inodestart));
  }

  // ---------------------------------------------------------------- such a disk

  const CROWDED := 4 * BPB                      // blocks
  const CROWDED_INODES := 1470
  const CROWDED_INODESTART := 2 + LOGSIZE       // laid out as mkfs would
  const CROWDED_BMAPSTART := CROWDED_INODESTART + CROWDED_INODES / IPB + 1
  const CROWDED_META := CROWDED_BMAPSTART + CROWDED / BPB + 1

  const EDGE := (NDIRECT - 1) * BSIZE + 100     // a size that ends in the eleventh block

  /** One block free per bitmap block. */
  predicate FreeHere(b: nat) { b % BPB == BPB - 1 }

  /** Inode k holds eleven blocks in a row, but for the free ones. */
  function CrowdedAddr(k: nat, j: nat): uint {
    var b := CROWDED_META + NDIRECT * k + j;
    if j < NDIRECT && b < CROWDED && !FreeHere(b) then b else 0
  }

  function CrowdedInode(k: nat): Inode {
    Inode(T_FILE, 1, if k == 1 then EDGE else 0, seq(NDIRECT + 1, j requires 0 <= j <= NDIRECT => CrowdedAddr(k, j)))
  }

  function Crowded(): Fs {
    Fs(seq(CROWDED_INODES, k requires 0 <= k < CROWDED_INODES => CrowdedInode(k)),
       seq(CROWDED, _ => ZeroBlock()),
       seq(CROWDED, b requires 0 <= b < CROWDED => b < CROWDED_META || !FreeHere(b)))
  }

  function CrowdedOwner(): map<uint, Slot> {
    map b: uint | CROWDED_META <= b < CROWDED && !FreeHere(b) :: Ptr((b - CROWDED_META) / NDIRECT, (b - CROWDED_META) % NDIRECT)
  }

  lemma RowPlace(k: nat, j: nat)
    requires j < NDIRECT
    ensures (NDIRECT * k + j) / NDIRECT == k && (NDIRECT * k + j) % NDIRECT == j
  {
  }

  lemma CrowdedExact()
    ensures Exact(CROWDED_META, Crowded(), CrowdedOwner())
  {
    var fs, owner := Crowded(), CrowdedOwner();
    assert Shaped(fs);
    forall s | ValidSlot(fs, s) && Addr(fs, s) != 0 ensures Addr(fs, s) in owner && owner[Addr(fs, s)] == s {
      assert s.Ptr?;
      RowPlace(s.i, s.k);
    }
    forall b | b in owner ensures ValidSlot(fs, owner[b]) && Addr(fs, owner[b]) == b {
      var k, j := (b - CROWDED_META) / NDIRECT, (b - CROWDED_META) % NDIRECT;
      assert b == CROWDED_META + NDIRECT * k + j;
    }
  }

  lemma CrowdedEdge()
    ensures AtTheEdge(Crowded(), 1, EDGE) && Dense(Crowded(), 1)
    ensures Scattered(Crowded()) && LaidOut(CROWDED_META, Crowded(), CROWDED_BMAPSTART, CROWDED_INODESTART)
  {
    var fs := Crowded();
    forall bn | 0 <= bn < MAXFILE && bn * BSIZE < EDGE ensures Addr(fs, SlotOf(1, bn)) != 0 {
      assert bn < NDIRECT && CrowdedAddr(1, bn) == CROWDED_META + NDIRECT + bn;
    }
    assert CrowdedAddr(1, NDIRECT - 1) != 0;
  }

  lemma CrowdedFree()
    ensures |FreeSet(Crowded())| == 4
  {
    assert FreeSet(Crowded()) == {BPB - 1, 2 * BPB - 1, 3 * BPB - 1, 4 * BPB - 1};
  }

  /** The chunk lacks as many blocks as are free. */
  lemma CrowdedLacks()
    ensures Lacking(Crowded(), 1, EDGE, CHUNK) == 4
  {
    var fs := Crowded();
    assert CrowdedAddr(1, NDIRECT - 1) != 0 && Addr(fs, SlotOf(1, 10)) != 0;
    assert Addr(fs, SlotOf(1, 11)) == 0 && Addr(fs, SlotOf(1, 12)) == 0 && Addr(fs, SlotOf(1, 13)) == 0;
    assert Absent(fs, 1, 14, 14) == 0;
    assert Absent(fs, 1, 13, 14) == 1;
    assert Absent(fs, 1, 12, 14) == 2;
    assert Absent(fs, 1, 11, 14) == 3;
  }

  /** On that disk filewrite's chunk logs all ten blocks that begin_op allows it. */
  method TightChunk(src: seq<byte>) returns (f: FileSys, r: IoResult)
    requires |src| == CHUNK
    ensures fresh(f) && r == Count(CHUNK) && Shaped(f.fs) && |f.fs.inodes| == CROWDED_INODES
    ensures f.logged == WriteLog(Crowded(), f.fs, 1, EDGE, CHUNK, CROWDED_BMAPSTART, CROWDED_INODESTART)
    ensures |f.logged| == MAXOPBLOCKS
  {
    hide Exact, Dense, Files, WriteLog, FreeSet, Lacking, Allocated, AtTheEdge, Scattered, LaidOut, WriteFile;
    CrowdedExact();
    CrowdedEdge();
    CrowdedFree();
    CrowdedLacks();
    f := new FileSys(CROWDED_META, CROWDED_BMAPSTART, CROWDED_INODESTART, Crowded(), CrowdedOwner());
    r := f.WriteChunk(1, src, EDGE);
    TenBlocks(CROWDED_META, Crowded(), f.fs, CrowdedOwner(), f.owner, 1, EDGE, CROWDED_BMAPSTART, CROWDED_INODESTART);
  }
}
