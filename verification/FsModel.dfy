/**
 The file system's data as values: inodes, block contents and the free bitmap, who owns which
 block, and what a file contains.  The operations of fs.c are proved against these.
 */
module FsModel {
  import opened Base

  const BSIZE := 512
  const NDIRECT := 11
  const NINDIRECT := 128
  const MAXFILE := 139            // NDIRECT + NINDIRECT

  type Block = b: seq<byte> | |b| == BSIZE witness seq(BSIZE, _ => 0)

  function ZeroBlock(): Block {
    seq(BSIZE, _ => 0)
  }

  /** ((uint*)data)[j], little-endian. */
  function Word(b: Block, j: nat): uint
    requires j < NINDIRECT
  {
    b[4 * j] as int + 0x100 * (b[4 * j + 1] as int) + 0x1_0000 * (b[4 * j + 2] as int)
    + 0x100_0000 * (b[4 * j + 3] as int)
  }

  /** The fields of struct dinode that the block map uses; addrs has NDIRECT+1 entries. */
  datatype Inode = Inode(typ: int, nlink: int, size: uint, addrs: seq<uint>)

  /** bitmap[b] is bit b % BPB of bitmap block b / BPB. */
  datatype Fs = Fs(inodes: seq<Inode>, blocks: seq<Block>, bitmap: seq<bool>)

  /** A place that can hold a block number: addrs[k] of inode i, or entry j of its indirect block. */
  datatype Slot = Ptr(i: nat, k: nat) | Entry(i: nat, j: nat)

  predicate ValidSlot(fs: Fs, s: Slot) {
    s.i < |fs.inodes| && match s { case Ptr(_, k) => k <= NDIRECT case Entry(_, j) => j < NINDIRECT }
  }

  predicate Shaped(fs: Fs) {
    && |fs.bitmap| == |fs.blocks| <= TWO32
    && forall i :: 0 <= i < |fs.inodes| ==> |fs.inodes[i].addrs| == NDIRECT + 1
  }

  /** The block number stored in a slot; 0 means none. */
  function Addr(fs: Fs, s: Slot): uint
    requires Shaped(fs) && ValidSlot(fs, s)
  {
    match s
    case Ptr(i, k) => fs.inodes[i].addrs[k]
    case Entry(i, j) =>
      var a := fs.inodes[i].addrs[NDIRECT];
      if 0 < a < |fs.blocks| then Word(fs.blocks[a], j) else 0
  }

  /**
   Exact block ownership.  `owner` names the one slot that refers to a data block; a bitmap bit is
   set exactly for metadata blocks (below `meta`) and owned blocks.
   */
  ghost predicate Exact(meta: nat, fs: Fs, owner: map<uint, Slot>) {
    && Shaped(fs) && 0 < meta
    && (forall s :: ValidSlot(fs, s) && Addr(fs, s) != 0 ==> Addr(fs, s) in owner && owner[Addr(fs, s)] == s)
    && (forall b :: b in owner ==> meta <= b < |fs.blocks| && ValidSlot(fs, owner[b]) && Addr(fs, owner[b]) == b)
    && (forall b :: 0 <= b < |fs.bitmap| ==> (fs.bitmap[b] <==> b < meta || b in owner))
  }

  // ---------------------------------------------------------------- file contents

  function SlotOf(i: nat, bn: nat): Slot {
    if bn < NDIRECT then Ptr(i, bn) else Entry(i, bn - NDIRECT)
  }

  /** Contents of block bn of file i; a block that is not there reads as zeroes. */
  function FileBlock(fs: Fs, i: nat, bn: nat): Block
    requires Shaped(fs) && i < |fs.inodes| && bn < MAXFILE
  {
    var a := Addr(fs, SlotOf(i, bn));
    if 0 < a < |fs.blocks| then fs.blocks[a] else ZeroBlock()
  }

  ghost predicate SameFileBlocks(fs: Fs, gs: Fs)
    requires Shaped(fs) && Shaped(gs)
  {
    && |fs.inodes| == |gs.inodes|
    && forall i, bn :: 0 <= i < |fs.inodes| && 0 <= bn < MAXFILE ==> FileBlock(fs, i, bn) == FileBlock(gs, i, bn)
  }

  // ---------------------------------------------------------------- allocation of one slot

  lemma ZeroWord(j: nat)
    requires j < NINDIRECT
    ensures Word(ZeroBlock(), j) == 0
  {
  }

  /** fs after balloc has returned b and b was stored in addrs[k] of inode i. */
  function PutPtr(fs: Fs, i: nat, k: nat, b: uint): Fs
    requires Shaped(fs) && i < |fs.inodes| && k <= NDIRECT && b < |fs.blocks|
  {
    Fs(fs.inodes[i := fs.inodes[i].(addrs := fs.inodes[i].addrs[k := b])],
       fs.blocks[b := ZeroBlock()], fs.bitmap[b := true])
  }

  lemma PutPtrAddr(meta: nat, fs: Fs, owner: map<uint, Slot>, i: nat, k: nat, b: uint, s: Slot)
    requires Exact(meta, fs, owner) && i < |fs.inodes| && k <= NDIRECT
    requires 0 < b < |fs.blocks| && !fs.bitmap[b] && Addr(fs, Ptr(i, k)) == 0
    requires ValidSlot(fs, s)
    ensures Addr(PutPtr(fs, i, k, b), s) == if s == Ptr(i, k) then b else Addr(fs, s)
  {
    if s.Entry? {
      var a := fs.inodes[s.i].addrs[NDIRECT];
      if s.i == i && k == NDIRECT {
        ZeroWord(s.j);
      } else if a != 0 {
        assert Addr(fs, Ptr(s.i, NDIRECT)) == a;
      }
    }
  }

  lemma PutPtrExact(meta: nat, fs: Fs, owner: map<uint, Slot>, i: nat, k: nat, b: uint)
    requires Exact(meta, fs, owner) && i < |fs.inodes| && k <= NDIRECT
    requires b < |fs.blocks| && !fs.bitmap[b] && Addr(fs, Ptr(i, k)) == 0
    ensures Exact(meta, PutPtr(fs, i, k, b), owner[b := Ptr(i, k)])
  {
    var gs := PutPtr(fs, i, k, b);
    forall s | ValidSlot(fs, s) ensures Addr(gs, s) == if s == Ptr(i, k) then b else Addr(fs, s) {
      PutPtrAddr(meta, fs, owner, i, k, b, s);
    }
    assert forall s :: ValidSlot(gs, s) <==> ValidSlot(fs, s);
  }

  lemma PutPtrBlocks(meta: nat, fs: Fs, owner: map<uint, Slot>, i: nat, k: nat, b: uint)
    requires Exact(meta, fs, owner) && i < |fs.inodes| && k <= NDIRECT
    requires b < |fs.blocks| && !fs.bitmap[b] && Addr(fs, Ptr(i, k)) == 0
    ensures SameFileBlocks(fs, PutPtr(fs, i, k, b))
  {
    var gs := PutPtr(fs, i, k, b);
    forall i', bn | 0 <= i' < |fs.inodes| && 0 <= bn < MAXFILE
      ensures FileBlock(fs, i', bn) == FileBlock(gs, i', bn)
    {
      var s := SlotOf(i', bn);
      assert ValidSlot(fs, s);
      PutPtrAddr(meta, fs, owner, i, k, b, s);
    }
  }

  /** r is indirect block a with entry j set to v. */
  predicate IsSetWord(a: Block, j: nat, v: uint, r: Block) {
    && j < NINDIRECT && Word(r, j) == v
    && forall l :: 0 <= l < NINDIRECT && l != j ==> Word(r, l) == Word(a, l)
  }

  /** fs after balloc has returned b and b was stored in inode i's indirect block, now ind. */
  function PutEntry(fs: Fs, i: nat, b: uint, ind: Block): Fs
    requires Shaped(fs) && i < |fs.inodes| && b < |fs.blocks| && fs.inodes[i].addrs[NDIRECT] < |fs.blocks|
  {
    fs.(blocks := fs.blocks[b := ZeroBlock()][fs.inodes[i].addrs[NDIRECT] := ind], bitmap := fs.bitmap[b := true])
  }

  /** b is free, and entry j of i's indirect block is to hold it. */
  ghost predicate CanPutEntry(meta: nat, fs: Fs, owner: map<uint, Slot>, i: nat, j: nat, b: uint, ind: Block) {
    && Exact(meta, fs, owner) && i < |fs.inodes| && j < NINDIRECT
    && b < |fs.blocks| && !fs.bitmap[b]
    && Addr(fs, Ptr(i, NDIRECT)) != 0 && Addr(fs, Entry(i, j)) == 0
    && fs.inodes[i].addrs[NDIRECT] < |fs.blocks|
    && IsSetWord(fs.blocks[fs.inodes[i].addrs[NDIRECT]], j, b, ind)
  }

  lemma PutEntryAddr(meta: nat, fs: Fs, owner: map<uint, Slot>, i: nat, j: nat, b: uint, ind: Block, s: Slot)
    requires CanPutEntry(meta, fs, owner, i, j, b, ind) && ValidSlot(fs, s)
    ensures Addr(PutEntry(fs, i, b, ind), s) == if s == Entry(i, j) then b else Addr(fs, s)
  {
    assert Addr(fs, Ptr(i, NDIRECT)) in owner;
    if s.Entry? && s.i != i && fs.inodes[s.i].addrs[NDIRECT] != 0 {
      assert Addr(fs, Ptr(s.i, NDIRECT)) in owner;
    }
  }

  lemma PutEntryExact(meta: nat, fs: Fs, owner: map<uint, Slot>, i: nat, j: nat, b: uint, ind: Block)
    requires CanPutEntry(meta, fs, owner, i, j, b, ind)
    ensures Exact(meta, PutEntry(fs, i, b, ind), owner[b := Entry(i, j)])
  {
    var gs := PutEntry(fs, i, b, ind);
    forall s | ValidSlot(fs, s) ensures Addr(gs, s) == if s == Entry(i, j) then b else Addr(fs, s) {
      PutEntryAddr(meta, fs, owner, i, j, b, ind, s);
    }
    assert forall s :: ValidSlot(gs, s) <==> ValidSlot(fs, s);
  }

  lemma PutEntryBlocks(meta: nat, fs: Fs, owner: map<uint, Slot>, i: nat, j: nat, b: uint, ind: Block)
    requires CanPutEntry(meta, fs, owner, i, j, b, ind)
    ensures SameFileBlocks(fs, PutEntry(fs, i, b, ind))
  {
    var gs := PutEntry(fs, i, b, ind);
    assert Addr(fs, Ptr(i, NDIRECT)) in owner;
    forall i', bn | 0 <= i' < |fs.inodes| && 0 <= bn < MAXFILE
      ensures FileBlock(fs, i', bn) == FileBlock(gs, i', bn)
    {
      var s := SlotOf(i', bn);
      assert ValidSlot(fs, s);
      PutEntryAddr(meta, fs, owner, i, j, b, ind, s);
      if Addr(fs, s) != 0 { assert owner[Addr(fs, s)] == s; }
    }
  }

  // ---------------------------------------------------------------- writing file data

  /** Writing data block a of file i changes no slot, and only that block of that file. */
  lemma PutDataExact(meta: nat, fs: Fs, owner: map<uint, Slot>, i: nat, bn: nat, data: Block)
    requires Exact(meta, fs, owner) && i < |fs.inodes| && bn < MAXFILE
    requires Addr(fs, SlotOf(i, bn)) != 0
    ensures Addr(fs, SlotOf(i, bn)) < |fs.blocks|
    ensures Exact(meta, fs.(blocks := fs.blocks[Addr(fs, SlotOf(i, bn)) := data]), owner)
    ensures forall s :: ValidSlot(fs, s) ==>
              Addr(fs.(blocks := fs.blocks[Addr(fs, SlotOf(i, bn)) := data]), s) == Addr(fs, s)
  {
    var a := Addr(fs, SlotOf(i, bn));
    assert ValidSlot(fs, SlotOf(i, bn)) && owner[a] == SlotOf(i, bn);
    var gs := fs.(blocks := fs.blocks[a := data]);
    forall s | ValidSlot(fs, s) ensures Addr(gs, s) == Addr(fs, s) {
      if s.Entry? && Addr(fs, Ptr(s.i, NDIRECT)) != 0 {
        assert owner[Addr(fs, Ptr(s.i, NDIRECT))] == Ptr(s.i, NDIRECT);
      }
    }
    assert forall s :: ValidSlot(gs, s) <==> ValidSlot(fs, s);
  }

  lemma PutDataBlocks(meta: nat, fs: Fs, owner: map<uint, Slot>, i: nat, bn: nat, data: Block, i': nat, bn': nat)
    requires Exact(meta, fs, owner) && i < |fs.inodes| && bn < MAXFILE
    requires Addr(fs, SlotOf(i, bn)) != 0 && Addr(fs, SlotOf(i, bn)) < |fs.blocks|
    requires i' < |fs.inodes| && bn' < MAXFILE
    ensures FileBlock(fs.(blocks := fs.blocks[Addr(fs, SlotOf(i, bn)) := data]), i', bn')
         == if i' == i && bn' == bn then data else FileBlock(fs, i', bn')
  {
    PutDataExact(meta, fs, owner, i, bn, data);
    var s, t := SlotOf(i, bn), SlotOf(i', bn');
    assert ValidSlot(fs, s) && ValidSlot(fs, t);
    assert owner[Addr(fs, s)] == s;
    if Addr(fs, t) != 0 { assert owner[Addr(fs, t)] == t; }
  }

  /** An inode's indirect block is a data block of the file system. */
  lemma IndirectInRange(meta: nat, fs: Fs, owner: map<uint, Slot>, i: nat)
    requires Exact(meta, fs, owner) && i < |fs.inodes| && |fs.inodes[i].addrs| == NDIRECT + 1 && fs.inodes[i].addrs[NDIRECT] != 0
    ensures Shaped(fs) && meta <= fs.inodes[i].addrs[NDIRECT] < |fs.blocks|
    ensures forall j :: 0 <= j < NINDIRECT ==> Addr(fs, Entry(i, j)) == Word(fs.blocks[fs.inodes[i].addrs[NDIRECT]], j)
    ensures fs.bitmap[fs.inodes[i].addrs[NDIRECT]]
  {
    assert ValidSlot(fs, Ptr(i, NDIRECT)) && Addr(fs, Ptr(i, NDIRECT)) != 0;
  }

  lemma FreeBlock(meta: nat, fs: Fs, owner: map<uint, Slot>, b: uint)
    requires Exact(meta, fs, owner) && b < |fs.bitmap| && !fs.bitmap[b]
    ensures b != 0 && b >= meta && b !in owner
  {
  }

  // ---------------------------------------------------------------- sequences of bmap calls

  /** Inode i may gain blocks, and nothing else about the inodes changes. */
  ghost predicate Kept(fs: Fs, gs: Fs, i: nat) {
    && Shaped(fs) && Shaped(gs) && i < |fs.inodes| == |gs.inodes|
    && |gs.blocks| == |fs.blocks|
    && (forall s :: ValidSlot(fs, s) && Addr(fs, s) != 0 ==> Addr(gs, s) == Addr(fs, s))
    && (forall i' :: 0 <= i' < |fs.inodes| && i' != i ==> gs.inodes[i'] == fs.inodes[i'])
    && gs.inodes[i] == fs.inodes[i].(addrs := gs.inodes[i].addrs)
  }

  lemma KeptTrans(fs: Fs, gs: Fs, hs: Fs, i: nat)
    requires Kept(fs, gs, i) && Kept(gs, hs, i)
    ensures Kept(fs, hs, i)
  {
    forall s | ValidSlot(fs, s) && Addr(fs, s) != 0 ensures Addr(hs, s) == Addr(fs, s) {
      assert ValidSlot(gs, s) && Addr(gs, s) == Addr(fs, s);
    }
  }

  /** What a sequence of bmap calls on inode i may do: add zeroed blocks to holes. */
  ghost predicate Grown(fs: Fs, gs: Fs, i: nat) {
    Kept(fs, gs, i) && SameFileBlocks(fs, gs)
  }

  lemma GrownRefl(fs: Fs, i: nat)
    requires Shaped(fs) && i < |fs.inodes|
    ensures Grown(fs, fs, i)
  {
  }

  lemma GrownTrans(fs: Fs, gs: Fs, hs: Fs, i: nat)
    requires Grown(fs, gs, i) && Grown(gs, hs, i)
    ensures Grown(fs, hs, i)
  {
    KeptTrans(fs, gs, hs, i);
  }

  lemma PutPtrGrown(meta: nat, fs: Fs, owner: map<uint, Slot>, i: nat, k: nat, b: uint)
    requires Exact(meta, fs, owner) && i < |fs.inodes| && k <= NDIRECT
    requires b < |fs.blocks| && !fs.bitmap[b] && Addr(fs, Ptr(i, k)) == 0
    ensures Grown(fs, PutPtr(fs, i, k, b), i)
    ensures forall s :: ValidSlot(fs, s) ==> Addr(PutPtr(fs, i, k, b), s) == if s == Ptr(i, k) then b else Addr(fs, s)
  {
    PutPtrBlocks(meta, fs, owner, i, k, b);
    forall s | ValidSlot(fs, s) ensures Addr(PutPtr(fs, i, k, b), s) == if s == Ptr(i, k) then b else Addr(fs, s) {
      PutPtrAddr(meta, fs, owner, i, k, b, s);
    }
  }

  lemma PutEntryGrown(meta: nat, fs: Fs, owner: map<uint, Slot>, i: nat, j: nat, b: uint, ind: Block)
    requires CanPutEntry(meta, fs, owner, i, j, b, ind)
    ensures Grown(fs, PutEntry(fs, i, b, ind), i)
    ensures forall s :: ValidSlot(fs, s) ==> Addr(PutEntry(fs, i, b, ind), s) == if s == Entry(i, j) then b else Addr(fs, s)
  {
    PutEntryBlocks(meta, fs, owner, i, j, b, ind);
    forall s | ValidSlot(fs, s) ensures Addr(PutEntry(fs, i, b, ind), s) == if s == Entry(i, j) then b else Addr(fs, s) {
      PutEntryAddr(meta, fs, owner, i, j, b, ind, s);
    }
  }

  // ---------------------------------------------------------------- free blocks and missing ones

  ghost function FreeSet(fs: Fs): set<nat> {
    set b | 0 <= b < |fs.bitmap| && !fs.bitmap[b]
  }

  /** Slots that must be filled before file i has a block bn. */
  ghost function Missing(fs: Fs, i: nat, bn: nat): nat
    requires Shaped(fs) && i < |fs.inodes| && bn < MAXFILE
  {
    (if Addr(fs, SlotOf(i, bn)) == 0 then 1 else 0) + if bn >= NDIRECT && fs.inodes[i].addrs[NDIRECT] == 0 then 1 else 0
  }

  /** How many of the blocks from bn up to end file i does not have. */
  ghost function Absent(fs: Fs, i: nat, bn: nat, end: nat): nat
    requires Shaped(fs) && i < |fs.inodes| && end <= MAXFILE
    decreases end - bn
  {
    if bn >= end then 0 else (if Addr(fs, SlotOf(i, bn)) == 0 then 1 else 0) + Absent(fs, i, bn + 1, end)
  }

  /** Slots to fill for the blocks from bn up to end, the indirect block among them. */
  ghost function Lack(fs: Fs, i: nat, bn: nat, end: nat): nat
    requires Shaped(fs) && i < |fs.inodes| && end <= MAXFILE
  {
    Absent(fs, i, bn, end) + if end > NDIRECT && fs.inodes[i].addrs[NDIRECT] == 0 then 1 else 0
  }

  /** Slots that must be filled before file i has all of the blocks that n bytes from off on lie in. */
  ghost function Lacking(fs: Fs, i: nat, off: nat, n: nat): nat
    requires Shaped(fs) && i < |fs.inodes| && (n == 0 || off + n <= MAXFILE * BSIZE)
  {
    if n == 0 then 0
    else Lack(fs, i, off / BSIZE, (off + n - 1) / BSIZE + 1)
  }

  lemma {:induction false} AbsentSame(gs: Fs, hs: Fs, i: nat, bn: nat, end: nat)
    requires Shaped(gs) && Shaped(hs) && i < |gs.inodes| && i < |hs.inodes| && end <= MAXFILE
    requires forall c :: bn <= c < end ==> Addr(hs, SlotOf(i, c)) == Addr(gs, SlotOf(i, c))
    ensures Absent(hs, i, bn, end) == Absent(gs, i, bn, end)
    decreases end - bn
  {
    if bn < end { AbsentSame(gs, hs, i, bn + 1, end); }
  }

  lemma {:induction false} AbsentSplit(fs: Fs, i: nat, bn: nat, mid: nat, end: nat)
    requires Shaped(fs) && i < |fs.inodes| && bn <= mid <= end <= MAXFILE
    ensures Absent(fs, i, bn, end) == Absent(fs, i, bn, mid) + Absent(fs, i, mid, end)
    decreases mid - bn
  {
    if bn < mid { AbsentSplit(fs, i, bn + 1, mid, end); }
  }

  lemma LackingMono(fs: Fs, i: nat, off: nat, a: nat, n: nat)
    requires Shaped(fs) && i < |fs.inodes| && a <= n && (n == 0 || off + n <= MAXFILE * BSIZE)
    ensures Lacking(fs, i, off, a) <= Lacking(fs, i, off, n)
  {
    if a > 0 {
      AbsentSplit(fs, i, off / BSIZE, (off + a - 1) / BSIZE + 1, (off + n - 1) / BSIZE + 1);
    }
  }

  /** The block that the first byte lies in may be lacking its share. */
  lemma MissingFirst(fs: Fs, i: nat, off: nat, n: nat)
    requires Shaped(fs) && i < |fs.inodes| && 0 < n && off + n <= MAXFILE * BSIZE
    ensures Missing(fs, i, off / BSIZE) <= Lacking(fs, i, off, n)
  {
  }

  /** Once block bn is there, what is lacking is what was lacking less its share. */
  lemma LackingStep(gs: Fs, hs: Fs, i: nat, off: nat, tot: nat, n: nat)
    requires Shaped(gs) && Shaped(hs) && i < |gs.inodes| && i < |hs.inodes| && tot < n && off + n <= MAXFILE * BSIZE
    requires var bn := (off + tot) / BSIZE;
             && Addr(hs, SlotOf(i, bn)) != 0
             && (forall c :: 0 <= c < MAXFILE && c != bn ==> Addr(hs, SlotOf(i, c)) == Addr(gs, SlotOf(i, c)))
             && (bn < NDIRECT ==> hs.inodes[i].addrs[NDIRECT] == gs.inodes[i].addrs[NDIRECT])
    ensures var m := Part(off, tot, n);
            Lacking(gs, i, off + tot, n - tot) == Missing(gs, i, (off + tot) / BSIZE) + Lacking(hs, i, off + (tot + m), n - (tot + m))
  {
    var bn, m, end := (off + tot) / BSIZE, Part(off, tot, n), (off + n - 1) / BSIZE + 1;
    assert bn < end <= MAXFILE;
    AbsentSame(gs, hs, i, bn + 1, end);
    if tot + m == n {
      assert end == bn + 1;
    } else {
      assert (off + (tot + m)) / BSIZE == bn + 1;
    }
  }

  // ---------------------------------------------------------------- byte ranges

  /** The address of the block that holds byte p of file i. */
  function AddrAt(fs: Fs, i: nat, p: nat): uint
    requires Shaped(fs) && i < |fs.inodes| && p < MAXFILE * BSIZE
  {
    Addr(fs, SlotOf(i, p / BSIZE))
  }

  /** How much of n bytes, tot of them done, goes into the block that holds off + tot. */
  function Part(off: nat, tot: nat, n: nat): (m: nat)
    requires tot < n
    ensures 0 < m <= n - tot
  {
    if n - tot < BSIZE - (off + tot) % BSIZE then n - tot else BSIZE - (off + tot) % BSIZE
  }

  /** File i as bytes, up to the largest size a file can have. */
  ghost function Bytes(fs: Fs, i: nat): (s: seq<byte>)
    requires Shaped(fs) && i < |fs.inodes|
    ensures |s| == MAXFILE * BSIZE
  {
    seq(MAXFILE * BSIZE, p requires 0 <= p < MAXFILE * BSIZE => FileBlock(fs, i, p / BSIZE)[p % BSIZE])
  }

  /** src in place of the bytes of s from off on. */
  function Splice(s: seq<byte>, off: nat, src: seq<byte>): (r: seq<byte>)
    requires off + |src| <= |s|
    ensures |r| == |s|
  {
    s[..off] + src + s[off + |src|..]
  }

  /** Every block below the size of file i is allocated. */
  ghost predicate Dense(fs: Fs, i: nat)
    requires Shaped(fs) && i < |fs.inodes|
  {
    forall bn :: 0 <= bn < MAXFILE && bn * BSIZE < fs.inodes[i].size ==> Addr(fs, SlotOf(i, bn)) != 0
  }

  /** The abstract file system: every file as a byte sequence. */
  ghost function Files(fs: Fs): (files: seq<seq<byte>>)
    requires Shaped(fs)
    ensures |files| == |fs.inodes|
    ensures forall i :: 0 <= i < |files| ==> |files[i]| == MAXFILE * BSIZE
  {
    seq(|fs.inodes|, i requires 0 <= i < |fs.inodes| => Bytes(fs, i))
  }

  /** files with src put at offset off of file i. */
  ghost function WriteFile(files: seq<seq<byte>>, i: nat, off: nat, src: seq<byte>): (r: seq<seq<byte>>)
    requires i < |files| && (src == [] || off + |src| <= |files[i]|)
    ensures |r| == |files|
  {
    if src == [] then files else files[i := Splice(files[i], off, src)]
  }

  lemma WriteNone(files: seq<seq<byte>>, i: nat, off: nat, src: seq<byte>)
    requires i < |files|
    ensures WriteFile(files, i, off, src[..0]) == files
  {
  }

  /** Two writes that meet are one write. */
  lemma WriteMore(files: seq<seq<byte>>, i: nat, off: nat, src: seq<byte>, tot: nat, m: nat)
    requires i < |files| && tot + m <= |src| && off + tot + m <= |files[i]|
    ensures WriteFile(WriteFile(files, i, off, src[..tot]), i, off + tot, src[tot..tot + m])
         == WriteFile(files, i, off, src[..tot + m])
  {
    if tot == 0 {
      assert src[0..m] == src[..m];
    } else if m == 0 {
      assert src[..tot + m] == src[..tot];
    } else {
      assert src[..tot] + src[tot..tot + m] == src[..tot + m];
      assert Splice(Splice(files[i], off, src[..tot]), off + tot, src[tot..tot + m])
          == Splice(files[i], off, src[..tot + m]);
    }
  }

  lemma SameFiles(fs: Fs, gs: Fs)
    requires Shaped(fs) && Shaped(gs) && SameFileBlocks(fs, gs)
    ensures Files(fs) == Files(gs)
  {
    forall i | 0 <= i < |fs.inodes| ensures Bytes(fs, i) == Bytes(gs, i) {
      forall p | 0 <= p < MAXFILE * BSIZE ensures Bytes(fs, i)[p] == Bytes(gs, i)[p] {
        assert FileBlock(fs, i, p / BSIZE) == FileBlock(gs, i, p / BSIZE);
      }
    }
  }

  /** Replacing one block of file i, as seen in the bytes of every file. */
  lemma PutDataBytes(meta: nat, fs: Fs, owner: map<uint, Slot>, i: nat, bn: nat, data: Block, i': nat, p: nat)
    requires Exact(meta, fs, owner) && i < |fs.inodes| && bn < MAXFILE
    requires Addr(fs, SlotOf(i, bn)) != 0 && Addr(fs, SlotOf(i, bn)) < |fs.blocks|
    requires i' < |fs.inodes| && p < MAXFILE * BSIZE
    ensures Bytes(fs.(blocks := fs.blocks[Addr(fs, SlotOf(i, bn)) := data]), i')[p]
         == if i' == i && p / BSIZE == bn then data[p % BSIZE] else Bytes(fs, i')[p]
  {
    PutDataBlocks(meta, fs, owner, i, bn, data, i', p / BSIZE);
  }

  /** Byte p when the block that holds offset off has part put at off. */
  lemma PutPart(b: Block, off: nat, part: seq<byte>, p: nat)
    requires off % BSIZE + |part| <= BSIZE && p / BSIZE == off / BSIZE
    ensures Splice(b, off % BSIZE, part)[p % BSIZE] == if off <= p < off + |part| then part[p - off] else b[p % BSIZE]
  {
  }

  lemma PutDataByte(meta: nat, fs: Fs, owner: map<uint, Slot>, i: nat, off: nat, part: seq<byte>, i': nat, p: nat)
    requires Shaped(fs) && Exact(meta, fs, owner) && i < |fs.inodes| && i' < |fs.inodes| && p < MAXFILE * BSIZE
    requires off < MAXFILE * BSIZE && off % BSIZE + |part| <= BSIZE
    requires AddrAt(fs, i, off) != 0 && AddrAt(fs, i, off) < |fs.blocks|
    ensures var a := AddrAt(fs, i, off);
            var gs := fs.(blocks := fs.blocks[a := Splice(fs.blocks[a], off % BSIZE, part)]);
            Bytes(gs, i')[p] == if i' == i && off <= p < off + |part| then part[p - off] else Bytes(fs, i')[p]
  {
    var a := AddrAt(fs, i, off);
    PutDataBytes(meta, fs, owner, i, off / BSIZE, Splice(fs.blocks[a], off % BSIZE, part), i', p);
    if p / BSIZE == off / BSIZE {
      PutPart(fs.blocks[a], off, part, p);
    }
  }

  /** One round of writei's loop: part goes into the block that holds offset off. */
  lemma PutDataFiles(meta: nat, fs: Fs, owner: map<uint, Slot>, i: nat, off: nat, part: seq<byte>)
    requires Shaped(fs) && Exact(meta, fs, owner) && i < |fs.inodes|
    requires off < MAXFILE * BSIZE && off % BSIZE + |part| <= BSIZE
    requires AddrAt(fs, i, off) != 0 && AddrAt(fs, i, off) < |fs.blocks|
    ensures var a := AddrAt(fs, i, off);
            var gs := fs.(blocks := fs.blocks[a := Splice(fs.blocks[a], off % BSIZE, part)]);
            Files(gs) == WriteFile(Files(fs), i, off, part)
  {
    hide Bytes, Exact, AddrAt;
    var a := AddrAt(fs, i, off);
    var gs := fs.(blocks := fs.blocks[a := Splice(fs.blocks[a], off % BSIZE, part)]);
    forall i' | 0 <= i' < |fs.inodes| ensures Files(gs)[i'] == WriteFile(Files(fs), i, off, part)[i'] {
      forall p | 0 <= p < MAXFILE * BSIZE ensures Bytes(gs, i')[p] == WriteFile(Files(fs), i, off, part)[i'][p] {
        PutDataByte(meta, fs, owner, i, off, part, i', p);
      }
    }
  }

  /** A round that finds or makes the block of offset off, then puts part into it. */
  lemma PutDataStep(meta: nat, fs: Fs, gs: Fs, owner: map<uint, Slot>, i: nat, off: nat, part: seq<byte>)
    requires Exact(meta, gs, owner) && Shaped(fs) && Grown(fs, gs, i)
    requires off < MAXFILE * BSIZE && off % BSIZE + |part| <= BSIZE && Addr(gs, SlotOf(i, off / BSIZE)) != 0
    ensures var a := Addr(gs, SlotOf(i, off / BSIZE));
            && a < |gs.blocks| && gs.bitmap[a]
            && var hs := gs.(blocks := gs.blocks[a := Splice(gs.blocks[a], off % BSIZE, part)]);
            && Shaped(hs) && Exact(meta, hs, owner) && Files(hs) == WriteFile(Files(fs), i, off, part)
            && Kept(fs, hs, i) && AddrAt(hs, i, off) != 0
            && forall s :: ValidSlot(gs, s) ==> Addr(hs, s) == Addr(gs, s)
  {
    hide Files, WriteFile;
    var bn := off / BSIZE;
    var a := Addr(gs, SlotOf(i, bn));
    assert ValidSlot(gs, SlotOf(i, bn)) && a in owner;
    SameFiles(fs, gs);
    var data := Splice(gs.blocks[a], off % BSIZE, part);
    PutDataExact(meta, gs, owner, i, bn, data);
    PutDataFiles(meta, gs, owner, i, off, part);
    var hs := gs.(blocks := gs.blocks[a := data]);
    assert Kept(gs, hs, i);
    KeptTrans(fs, gs, hs, i);
  }

  /** An inode may change in everything but its addresses. */
  lemma SetFields(meta: nat, fs: Fs, owner: map<uint, Slot>, i: nat, ino: Inode)
    requires Exact(meta, fs, owner) && i < |fs.inodes| && ino.addrs == fs.inodes[i].addrs
    ensures var gs := fs.(inodes := fs.inodes[i := ino]);
            && Exact(meta, gs, owner)
            && SameFileBlocks(fs, gs)
            && forall s :: ValidSlot(fs, s) ==> Addr(gs, s) == Addr(fs, s)
  {
    var gs := fs.(inodes := fs.inodes[i := ino]);
    assert forall s :: ValidSlot(gs, s) <==> ValidSlot(fs, s);
    assert forall s :: ValidSlot(fs, s) ==> Addr(gs, s) == Addr(fs, s);
    assert forall i', bn :: 0 <= i' < |fs.inodes| && 0 <= bn < MAXFILE ==>
             ValidSlot(fs, SlotOf(i', bn)) && FileBlock(fs, i', bn) == FileBlock(gs, i', bn);
  }

  /** Only the size of inode i changes. */
  lemma SetSize(meta: nat, fs: Fs, owner: map<uint, Slot>, i: nat, size: uint)
    requires Exact(meta, fs, owner) && i < |fs.inodes|
    ensures var gs := fs.(inodes := fs.inodes[i := fs.inodes[i].(size := size)]);
            && Exact(meta, gs, owner)
            && SameFileBlocks(fs, gs)
            && forall s :: ValidSlot(fs, s) ==> Addr(gs, s) == Addr(fs, s)
  {
    hide Exact;
    SetFields(meta, fs, owner, i, fs.inodes[i].(size := size));
  }

  /** A range within one allocated block, as file bytes. */
  lemma ReadPart(meta: nat, fs: Fs, owner: map<uint, Slot>, i: nat, p: nat, m: nat)
    requires Exact(meta, fs, owner) && i < |fs.inodes| && p < MAXFILE * BSIZE && p % BSIZE + m <= BSIZE
    requires AddrAt(fs, i, p) != 0
    ensures AddrAt(fs, i, p) < |fs.blocks| && p + m <= MAXFILE * BSIZE
    ensures fs.blocks[AddrAt(fs, i, p)][p % BSIZE..p % BSIZE + m] == Files(fs)[i][p..p + m]
  {
    assert ValidSlot(fs, SlotOf(i, p / BSIZE));
    var part := fs.blocks[AddrAt(fs, i, p)][p % BSIZE..p % BSIZE + m];
    forall x | 0 <= x < m ensures part[x] == Files(fs)[i][p..p + m][x] {
      SameBlock(p, x);
      assert Files(fs)[i][p + x] == FileBlock(fs, i, p / BSIZE)[p % BSIZE + x];
    }
  }

  lemma SameBlock(p: nat, x: nat)
    requires p % BSIZE + x < BSIZE
    ensures (p + x) / BSIZE == p / BSIZE && (p + x) % BSIZE == p % BSIZE + x
  {
  }

  // ---------------------------------------------------------------- freeing

  /** fs after itrunc has freed addrs[k] of inode i. */
  function FreePtr(fs: Fs, i: nat, k: nat): Fs
    requires Shaped(fs) && i < |fs.inodes| && k < NDIRECT && fs.inodes[i].addrs[k] < |fs.bitmap|
  {
    fs.(inodes := fs.inodes[i := fs.inodes[i].(addrs := fs.inodes[i].addrs[k := 0])],
        bitmap := fs.bitmap[fs.inodes[i].addrs[k] := false])
  }

  lemma FreePtrExact(meta: nat, fs: Fs, owner: map<uint, Slot>, i: nat, k: nat)
    requires Exact(meta, fs, owner) && i < |fs.inodes| && k < NDIRECT && Addr(fs, Ptr(i, k)) != 0
    ensures Addr(fs, Ptr(i, k)) in owner && owner[Addr(fs, Ptr(i, k))] == Ptr(i, k)
    ensures Addr(fs, Ptr(i, k)) < |fs.bitmap| && fs.bitmap[Addr(fs, Ptr(i, k))]
    ensures Exact(meta, FreePtr(fs, i, k), owner - {Addr(fs, Ptr(i, k))})
  {
    assert ValidSlot(fs, Ptr(i, k));
    var gs := FreePtr(fs, i, k);
    forall s | ValidSlot(fs, s) ensures Addr(gs, s) == if s == Ptr(i, k) then 0 else Addr(fs, s) {
    }
    assert forall s :: ValidSlot(gs, s) <==> ValidSlot(fs, s);
  }

  /** s is the indirect block of inode i or one of its entries. */
  predicate UnderIndirect(s: Slot, i: nat) {
    s.i == i && (s.Ptr? ==> s.k == NDIRECT)
  }

  /** bitmap after itrunc has cleared the bits of everything under inode i's indirect block. */
  ghost predicate ClearedIndirect(fs: Fs, owner: map<uint, Slot>, i: nat, bitmap: seq<bool>) {
    && |bitmap| == |fs.bitmap|
    && forall b :: 0 <= b < |bitmap| ==> (bitmap[b] <==> fs.bitmap[b] && !(b in owner && UnderIndirect(owner[b], i)))
  }

  /** bitmap after itrunc's second loop has freed the entries below j. */
  ghost predicate EntriesFreed(fs: Fs, owner: map<uint, Slot>, i: nat, j: nat, bitmap: seq<bool>) {
    && |bitmap| == |fs.bitmap|
    && forall b :: 0 <= b < |bitmap| ==>
         (bitmap[b] <==> fs.bitmap[b] && !(b in owner && owner[b].Entry? && owner[b].i == i && owner[b].j < j))
  }

  lemma EntriesNoneFreed(fs: Fs, owner: map<uint, Slot>, i: nat)
    ensures EntriesFreed(fs, owner, i, 0, fs.bitmap)
  {
  }

  lemma EntriesFreedStep(meta: nat, fs: Fs, owner: map<uint, Slot>, i: nat, j: nat, bitmap: seq<bool>)
    requires Exact(meta, fs, owner) && i < |fs.inodes| && j < NINDIRECT && EntriesFreed(fs, owner, i, j, bitmap)
    ensures var e := Addr(fs, Entry(i, j));
            if e == 0 then EntriesFreed(fs, owner, i, j + 1, bitmap)
            else e < |bitmap| && bitmap[e] && EntriesFreed(fs, owner, i, j + 1, bitmap[e := false])
  {
    assert ValidSlot(fs, Entry(i, j));
    forall b | b in owner && owner[b] == Entry(i, j) ensures b == Addr(fs, Entry(i, j)) {
      assert Addr(fs, owner[b]) == b;
    }
  }

  lemma EntriesAllFreed(meta: nat, fs: Fs, owner: map<uint, Slot>, i: nat, bitmap: seq<bool>)
    requires Exact(meta, fs, owner) && i < |fs.inodes| && EntriesFreed(fs, owner, i, NINDIRECT, bitmap)
    requires Addr(fs, Ptr(i, NDIRECT)) != 0
    ensures var a := Addr(fs, Ptr(i, NDIRECT));
            a < |bitmap| && bitmap[a] && ClearedIndirect(fs, owner, i, bitmap[a := false])
  {
    assert ValidSlot(fs, Ptr(i, NDIRECT));
    forall b | b in owner && owner[b] == Ptr(i, NDIRECT) ensures b == Addr(fs, Ptr(i, NDIRECT)) {
      assert Addr(fs, owner[b]) == b;
    }
    forall b | b in owner ensures ValidSlot(fs, owner[b]) && Addr(fs, owner[b]) == b {
    }
  }

  function WithoutIndirect(owner: map<uint, Slot>, i: nat): map<uint, Slot> {
    map b | b in owner && !UnderIndirect(owner[b], i) :: owner[b]
  }

  lemma FreeIndirectExact(meta: nat, fs: Fs, owner: map<uint, Slot>, i: nat, bitmap: seq<bool>)
    requires Exact(meta, fs, owner) && i < |fs.inodes| && ClearedIndirect(fs, owner, i, bitmap)
    ensures var inode := fs.inodes[i].(addrs := fs.inodes[i].addrs[NDIRECT := 0]);
            Exact(meta, Fs(fs.inodes[i := inode], fs.blocks, bitmap), WithoutIndirect(owner, i))
  {
    var inode := fs.inodes[i].(addrs := fs.inodes[i].addrs[NDIRECT := 0]);
    var gs := Fs(fs.inodes[i := inode], fs.blocks, bitmap);
    forall s | ValidSlot(fs, s) ensures Addr(gs, s) == if UnderIndirect(s, i) then 0 else Addr(fs, s) {
    }
    assert forall s :: ValidSlot(gs, s) <==> ValidSlot(fs, s);
  }

  /** Files whose inode and blocks are untouched read the same. */
  lemma SameFile(fs: Fs, gs: Fs, i: nat)
    requires Shaped(fs) && Shaped(gs) && i < |fs.inodes| == |gs.inodes|
    requires gs.inodes[i] == fs.inodes[i] && gs.blocks == fs.blocks
    ensures Files(gs)[i] == Files(fs)[i]
  {
    assert forall bn :: 0 <= bn < MAXFILE ==> FileBlock(gs, i, bn) == FileBlock(fs, i, bn);
    assert Bytes(gs, i) == Bytes(fs, i);
  }

  /** No slot of inode i is owner of anything. */
  ghost predicate Disowned(owner: map<uint, Slot>, owner': map<uint, Slot>, i: nat) {
    forall b :: (b in owner' <==> b in owner && owner[b].i != i) && (b in owner' ==> owner'[b] == owner[b])
  }

  /** Inode i after itrunc's first loop has done the direct blocks below k. */
  ghost predicate DirectFreed(fs: Fs, gs: Fs, owner: map<uint, Slot>, owner': map<uint, Slot>, i: nat, k: nat) {
    && Shaped(fs) && Shaped(gs) && i < |fs.inodes| && k <= NDIRECT
    && gs.blocks == fs.blocks && |gs.inodes| == |fs.inodes|
    && (forall i' :: 0 <= i' < |fs.inodes| && i' != i ==> gs.inodes[i'] == fs.inodes[i'])
    && gs.inodes[i] == fs.inodes[i].(addrs := gs.inodes[i].addrs)
    && (forall l :: 0 <= l <= NDIRECT ==> gs.inodes[i].addrs[l] == if l < k then 0 else fs.inodes[i].addrs[l])
    && (forall b :: b in owner' <==> b in owner && !(owner[b].i == i && owner[b].Ptr? && owner[b].k < k))
    && (forall b :: b in owner' ==> owner'[b] == owner[b])
  }

  lemma DirectNoneFreed(fs: Fs, owner: map<uint, Slot>, i: nat)
    requires Shaped(fs) && i < |fs.inodes|
    ensures DirectFreed(fs, fs, owner, owner, i, 0)
  {
  }

  lemma DirectFreedStep(meta: nat, fs: Fs, gs: Fs, owner: map<uint, Slot>, owner': map<uint, Slot>, i: nat, k: nat)
    requires DirectFreed(fs, gs, owner, owner', i, k) && Exact(meta, gs, owner') && Exact(meta, fs, owner) && k < NDIRECT
    ensures Shaped(gs) && i < |gs.inodes|
    ensures var a := gs.inodes[i].addrs[k];
            if a == 0 then DirectFreed(fs, gs, owner, owner', i, k + 1)
            else a < |gs.bitmap| && gs.bitmap[a] && DirectFreed(fs, FreePtr(gs, i, k), owner, owner' - {a}, i, k + 1)
  {
    var a := gs.inodes[i].addrs[k];
    assert Addr(gs, Ptr(i, k)) == a == Addr(fs, Ptr(i, k)) && ValidSlot(gs, Ptr(i, k)) && ValidSlot(fs, Ptr(i, k));
    forall b | b in owner && owner[b] == Ptr(i, k) ensures b == a {
      assert Addr(fs, owner[b]) == b;
    }
  }

  /** After the direct blocks, what is left of inode i lies under its indirect block. */
  lemma AllFreed(meta: nat, fs: Fs, gs: Fs, owner: map<uint, Slot>, owner': map<uint, Slot>, i: nat)
    requires DirectFreed(fs, gs, owner, owner', i, NDIRECT) && Exact(meta, fs, owner)
    ensures Disowned(owner, WithoutIndirect(owner', i), i)
    ensures gs.inodes[i].addrs[NDIRECT] == 0 && Exact(meta, gs, owner') ==> Disowned(owner, owner', i)
  {
    if gs.inodes[i].addrs[NDIRECT] == 0 && Exact(meta, gs, owner') {
      forall b | b in owner' ensures owner'[b].i != i {
        assert Addr(gs, owner'[b]) == b;
      }
    }
  }
}
