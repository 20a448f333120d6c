/** The block and inode layers of fs.c, and filewrite() of file.c. */
module FileSystem {
  import opened Base
  import opened FsModel

  const BPB := 4096               // bitmap bits per block, BSIZE * 8
  const IPB := 8                  // inodes per block

  /** Return value of readi and writei; `Panic` is balloc's "out of blocks". */
  datatype IoResult = Count(n: nat) | Error | Panic

  lemma WordBytes(v: uint)
    ensures v % 0x100 + 0x100 * (v / 0x100 % 0x100) + 0x1_0000 * (v / 0x1_0000 % 0x100)
            + 0x100_0000 * (v / 0x100_0000) == v
  {
    assert v / 0x1_0000 == v / 0x100 / 0x100 && v / 0x100_0000 == v / 0x1_0000 / 0x100;
  }

  /** Return value of filewrite: n, -1, or the panic below it. */
  datatype WriteResult = Written | Failed | Panicked

  lemma SubsetSize(a: set<nat>, b: set<nat>)
    requires a <= b
    ensures |a| <= |b|
  {
    assert b == a + (b - a);
  }

  /** Store a word in a block. */
  method PutWord(b: Block, j: nat, v: uint) returns (r: Block)
    requires j < NINDIRECT
    ensures IsSetWord(b, j, v, r)
  {
    var b0: byte, b1: byte, b2: byte, b3: byte :=
      v % 0x100, v / 0x100 % 0x100, v / 0x1_0000 % 0x100, v / 0x100_0000;
    WordBytes(v);
    r := b[4 * j := b0][4 * j + 1 := b1][4 * j + 2 := b2][4 * j + 3 := b3];
  }

  /** The indirect block of inode i, as a set of at most one block number. */
  function Indirect(fs: Fs, i: nat): set<nat>
    requires Shaped(fs) && i < |fs.inodes|
  {
    var a := fs.inodes[i].addrs[NDIRECT];
    if a == 0 then {} else {a}
  }

  /** 1 if the indirect block was allocated between fs and gs. */
  function NewIndirect(fs: Fs, gs: Fs, i: nat): nat
    requires Shaped(fs) && Shaped(gs) && i < |fs.inodes| && i < |gs.inodes|
  {
    if fs.inodes[i].addrs[NDIRECT] == 0 && gs.inodes[i].addrs[NDIRECT] != 0 then 1 else 0
  }

  /** filewrite's limit on what one transaction writes. */
  const CHUNK := ((MAXOPBLOCKS - 1 - 1 - 2) / 2) * 512

  /** 1 if the first round went to a block that off does not begin, which Dense makes an existing one. */
  function Existing(off: nat, rounds: nat): nat {
    if rounds > 0 && off % BSIZE != 0 then 1 else 0
  }

  /** Inode i after writei has come to off + tot: what it wrote to is allocated. */
  ghost predicate Reached(fs: Fs, gs: Fs, i: nat, off: nat, tot: nat) {
    && Kept(fs, gs, i)
    && (tot > 0 ==> forall bn :: off / BSIZE <= bn < MAXFILE && bn * BSIZE < off + tot ==> Addr(gs, SlotOf(i, bn)) != 0)
    && (Dense(fs, i) ==> gs.inodes == fs.inodes || off + tot > fs.inodes[i].size)
  }

  lemma ReachedStep(fs: Fs, gs: Fs, hs: Fs, i: nat, off: nat, tot: nat, m: nat)
    requires Reached(fs, gs, i, off, tot) && Kept(gs, hs, i)
    requires 0 < m && off + tot < MAXFILE * BSIZE && (off + tot) / BSIZE == (off + (tot + m) - 1) / BSIZE
    requires 0 < tot ==> (off + tot) % BSIZE == 0
    requires AddrAt(hs, i, off + tot) != 0
    requires AddrAt(gs, i, off + tot) != 0 ==> hs.inodes == gs.inodes
    ensures Reached(fs, hs, i, off, tot + m)
  {
    KeptTrans(fs, gs, hs, i);
    forall bn | off / BSIZE <= bn < MAXFILE && bn * BSIZE < off + tot + m ensures Addr(hs, SlotOf(i, bn)) != 0 {
      if bn != (off + tot) / BSIZE {
        assert ValidSlot(gs, SlotOf(i, bn)) && Addr(gs, SlotOf(i, bn)) != 0;
      }
    }
    if Dense(fs, i) && (off + tot) / BSIZE * BSIZE < fs.inodes[i].size {
      assert ValidSlot(fs, SlotOf(i, (off + tot) / BSIZE));
    }
  }

  // ---------------------------------------------------------------- what is logged

  /** Blocks taken from the free ones between fs and gs. */
  ghost function NewBits(fs: Fs, gs: Fs): set<nat> {
    set b | 0 <= b < |fs.bitmap| && b < |gs.bitmap| && gs.bitmap[b] && !fs.bitmap[b]
  }

  /** The bitmap blocks that hold the bits of bs. */
  function BitBlocks(bs: set<nat>, start: nat): set<nat> {
    set b | b in bs :: b / BPB + start
  }

  ghost predicate BitsKept(fs: Fs, gs: Fs) {
    |gs.bitmap| == |fs.bitmap| && forall b :: 0 <= b < |fs.bitmap| && fs.bitmap[b] ==> gs.bitmap[b]
  }

  /** What one bmap of block bn passes to log_write: new blocks, their bitmap blocks, the indirect block it wrote to. */
  ghost function BmapLog(fs: Fs, gs: Fs, i: nat, bn: nat, start: nat): set<nat>
    requires Shaped(fs) && Shaped(gs) && i < |fs.inodes| && i < |gs.inodes| && bn < MAXFILE
  {
    NewBits(fs, gs) + BitBlocks(NewBits(fs, gs), start)
    + if bn >= NDIRECT && Addr(fs, SlotOf(i, bn)) == 0 then Indirect(gs, i) else {}
  }

  /** Block bn of a file is among those that n bytes from off on touch. */
  predicate Touched(off: nat, n: nat, bn: nat) {
    off / BSIZE <= bn < MAXFILE && bn * BSIZE < off + n && n > 0
  }

  /** The data blocks a write of n bytes at off goes to. */
  ghost function DataBlocks(gs: Fs, i: nat, off: nat, n: nat): set<nat>
    requires Shaped(gs) && i < |gs.inodes|
  {
    set bn | 0 <= bn < MAXFILE && Touched(off, n, bn) :: Addr(gs, SlotOf(i, bn))
  }

  /** The write filled an entry of the indirect block. */
  ghost predicate FilledEntry(fs: Fs, i: nat, off: nat, n: nat)
    requires Shaped(fs) && i < |fs.inodes|
  {
    exists bn :: NDIRECT <= bn < MAXFILE && Touched(off, n, bn) && Addr(fs, SlotOf(i, bn)) == 0
  }

  /** What the bmaps of the blocks that n bytes from off on lie in pass to log_write when they take fs to gs. */
  ghost function MapLog(fs: Fs, gs: Fs, i: nat, off: nat, n: nat, start: nat): set<nat>
    requires Shaped(fs) && Shaped(gs) && i < |fs.inodes| && i < |gs.inodes|
  {
    NewBits(fs, gs) + BitBlocks(NewBits(fs, gs), start) + if FilledEntry(fs, i, off, n) then Indirect(gs, i) else {}
  }

  /** Everything writei's loop passes to log_write when it takes fs to gs. */
  ghost function LoggedBy(fs: Fs, gs: Fs, i: nat, off: nat, n: nat, start: nat): set<nat>
    requires Shaped(fs) && Shaped(gs) && i < |fs.inodes| && i < |gs.inodes|
  {
    DataBlocks(gs, i, off, n) + MapLog(fs, gs, i, off, n, start)
  }

  /** Only blocks of file i that the write touches have new addresses, and the indirect block if it touches one under it. */
  ghost predicate OnlyTouched(fs: Fs, gs: Fs, i: nat, off: nat, n: nat)
    requires Shaped(fs) && Shaped(gs) && i < |fs.inodes| && i < |gs.inodes|
  {
    && (forall bn :: 0 <= bn < MAXFILE && !Touched(off, n, bn) ==> Addr(gs, SlotOf(i, bn)) == Addr(fs, SlotOf(i, bn)))
    && (n == 0 || off + n <= NDIRECT * BSIZE ==> gs.inodes[i].addrs[NDIRECT] == fs.inodes[i].addrs[NDIRECT])
  }

  /** Only block bn of file i has a new address, and the indirect block if bn lies under it. */
  ghost predicate OnlyBlock(fs: Fs, gs: Fs, i: nat, bn: nat)
    requires Shaped(fs) && Shaped(gs) && i < |fs.inodes| && i < |gs.inodes|
  {
    && (bn < NDIRECT ==> gs.inodes[i].addrs[NDIRECT] == fs.inodes[i].addrs[NDIRECT])
    && forall c :: 0 <= c < MAXFILE && c != bn ==> Addr(gs, SlotOf(i, c)) == Addr(fs, SlotOf(i, c))
  }

  lemma NewBitsTrans(fs: Fs, gs: Fs, hs: Fs)
    requires BitsKept(fs, gs) && BitsKept(gs, hs)
    ensures BitsKept(fs, hs) && NewBits(fs, hs) == NewBits(fs, gs) + NewBits(gs, hs)
    ensures NewBits(fs, gs) !! NewBits(gs, hs)
  {
  }

  lemma BitBlocksUnion(a: set<nat>, b: set<nat>, start: nat)
    ensures BitBlocks(a + b, start) == BitBlocks(a, start) + BitBlocks(b, start)
  {
  }

  lemma BitBlocksOne(b: nat, start: nat)
    ensures BitBlocks({b}, start) == {b / BPB + start} && BitBlocks({}, start) == {}
  {
  }

  lemma {:induction false} BitBlocksSize(a: set<nat>, start: nat)
    ensures |BitBlocks(a, start)| <= |a|
    decreases |a|
  {
    hide BitBlocks;
    BitBlocksOne(0, start);
    if a != {} {
      var b :| b in a;
      var rest := a - {b};
      BitBlocksSize(rest, start);
      BitBlocksOne(b, start);
      BitBlocksUnion(rest, {b}, start);
      assert a == rest + {b};
    }
  }

  /** After `rounds` blocks writei has come to off + tot of off + n: at a block boundary unless done. */
  ghost predicate AtRound(off: nat, tot: nat, n: nat, rounds: nat) {
    && (if tot == 0 then rounds == 0 else rounds == (off + tot - 1) / BSIZE - off / BSIZE + 1)
    && (0 < tot < n ==> (off + tot) % BSIZE == 0)
  }

  lemma NextRound(off: nat, tot: nat, m: nat, n: nat, rounds: nat)
    requires tot < n && m == Part(off, tot, n)
    requires AtRound(off, tot, n, rounds)
    ensures AtRound(off, tot + m, n, rounds + 1)
    ensures (off + tot) / BSIZE == (off + (tot + m) - 1) / BSIZE
  {
  }

  lemma RoundsBound(off: nat, tot: nat, n: nat, rounds: nat)
    requires AtRound(off, tot, n, rounds)
    ensures tot <= CHUNK ==> rounds <= 4 && rounds - Existing(off, rounds) <= 3
  {
  }

  /** How many blocks `rounds` rounds of writei have touched and taken. */
  ghost predicate Footprint(fs: Fs, gs: Fs, i: nat, off: nat, tot: nat, rounds: nat)
    requires Kept(fs, gs, i)
  {
    && BitsKept(fs, gs) && OnlyTouched(fs, gs, i, off, tot)
    && |DataBlocks(gs, i, off, tot)| <= rounds && NewBits(fs, gs) <= DataBlocks(gs, i, off, tot) + Indirect(gs, i)
    && (Dense(fs, i) ==> |NewBits(fs, gs)| <= rounds - Existing(off, rounds) + NewIndirect(fs, gs, i))
  }

  /** Everything writei's loop keeps about inode i besides the contents. */
  ghost predicate Writing(fs: Fs, gs: Fs, i: nat, off: nat, tot: nat, n: nat, rounds: nat) {
    && Reached(fs, gs, i, off, tot)
    && AtRound(off, tot, n, rounds)
    && Footprint(fs, gs, i, off, tot, rounds)
    && (tot == 0 ==> gs == fs && off <= fs.inodes[i].size)
  }

  /** A round touches one block more. */
  lemma TouchedMore(off: nat, tot: nat, m: nat, bn: nat)
    requires 0 < m && (off + tot) / BSIZE == (off + (tot + m) - 1) / BSIZE && (0 < tot ==> (off + tot) % BSIZE == 0)
    requires off + tot < MAXFILE * BSIZE
    ensures Touched(off, tot + m, bn) <==> Touched(off, tot, bn) || bn == (off + tot) / BSIZE
    ensures !Touched(off, tot, (off + tot) / BSIZE)
  {
  }

  lemma DataMore(fs: Fs, gs: Fs, hs: Fs, i: nat, off: nat, tot: nat, m: nat)
    requires Reached(fs, gs, i, off, tot) && Kept(gs, hs, i)
    requires 0 < m && (off + tot) / BSIZE == (off + (tot + m) - 1) / BSIZE && (0 < tot ==> (off + tot) % BSIZE == 0)
    requires off + tot < MAXFILE * BSIZE
    ensures DataBlocks(hs, i, off, tot + m) == DataBlocks(gs, i, off, tot) + {AddrAt(hs, i, off + tot)}
  {
    forall bn: nat ensures Touched(off, tot + m, bn) <==> Touched(off, tot, bn) || bn == (off + tot) / BSIZE {
      TouchedMore(off, tot, m, bn);
    }
    forall bn | 0 <= bn < MAXFILE && Touched(off, tot, bn) ensures Addr(hs, SlotOf(i, bn)) == Addr(gs, SlotOf(i, bn)) {
      assert ValidSlot(gs, SlotOf(i, bn)) && Addr(gs, SlotOf(i, bn)) != 0;
    }
    var a, d, e := AddrAt(hs, i, off + tot), DataBlocks(gs, i, off, tot), DataBlocks(hs, i, off, tot + m);
    forall x: nat ensures x in e <==> x in d + {a} {
      if x in e {
        var bn :| 0 <= bn < MAXFILE && Touched(off, tot + m, bn) && Addr(hs, SlotOf(i, bn)) == x;
        assert bn != (off + tot) / BSIZE ==> x in d;
      }
      if x in d {
        var bn :| 0 <= bn < MAXFILE && Touched(off, tot, bn) && Addr(gs, SlotOf(i, bn)) == x;
        assert Touched(off, tot + m, bn) && Addr(hs, SlotOf(i, bn)) == x;
      }
      if x == a { assert Touched(off, tot + m, (off + tot) / BSIZE); }
    }
  }

  lemma FootprintStep(fs: Fs, gs: Fs, hs: Fs, i: nat, off: nat, tot: nat, m: nat, rounds: nat)
    requires Reached(fs, gs, i, off, tot) && Kept(gs, hs, i) && Kept(fs, hs, i) && Footprint(fs, gs, i, off, tot, rounds)
    requires 0 < m && (off + tot) / BSIZE == (off + (tot + m) - 1) / BSIZE && (0 < tot ==> (off + tot) % BSIZE == 0)
    requires off + tot < MAXFILE * BSIZE && BitsKept(gs, hs) && OnlyBlock(gs, hs, i, (off + tot) / BSIZE)
    requires NewBits(gs, hs) <= {AddrAt(hs, i, off + tot)} + Indirect(hs, i) && |NewBits(gs, hs)| <= 1 + NewIndirect(gs, hs, i)
    requires AddrAt(gs, i, off + tot) != 0 ==> hs.inodes == gs.inodes && NewBits(gs, hs) == {}
    requires rounds == 0 ==> tot == 0 && gs == fs && off <= fs.inodes[i].size
    ensures Footprint(fs, hs, i, off, tot + m, rounds + 1)
  {
    hide DataBlocks, NewBits;
    IndirectMore(fs, gs, hs, i);
    DataMore(fs, gs, hs, i, off, tot, m);
    NewBitsTrans(fs, gs, hs);
    OnlyTouchedMore(fs, gs, hs, i, off, tot, m);
    FootprintSets(DataBlocks(gs, i, off, tot), AddrAt(hs, i, off + tot), NewBits(fs, gs), NewBits(gs, hs),
                  Indirect(gs, i), Indirect(hs, i));
    if rounds == 0 { FirstExists(fs, i, off); }
    hide Kept, Reached, OnlyTouched, OnlyBlock, BitsKept, Dense, Addr, NewIndirect, Indirect;
  }

  lemma FootprintSets(data: set<nat>, a: nat, bits: set<nat>, more: set<nat>, ind: set<nat>, ind': set<nat>)
    requires bits !! more && bits <= data + ind && more <= {a} + ind' && ind <= ind'
    ensures |data + {a}| <= |data| + 1 && bits + more <= data + {a} + ind' && |bits + more| == |bits| + |more|
  {
  }

  /** A byte inside a block of a file without holes, at most at its end, has its block. */
  lemma FirstExists(fs: Fs, i: nat, off: nat)
    requires Shaped(fs) && i < |fs.inodes| && off <= fs.inodes[i].size && off < MAXFILE * BSIZE
    ensures Dense(fs, i) && off % BSIZE != 0 ==> AddrAt(fs, i, off) != 0
  {
    assert off % BSIZE != 0 ==> off / BSIZE * BSIZE < fs.inodes[i].size;
  }

  lemma IndirectMore(fs: Fs, gs: Fs, hs: Fs, i: nat)
    requires Kept(fs, gs, i) && Kept(gs, hs, i)
    ensures NewIndirect(fs, hs, i) == NewIndirect(fs, gs, i) + NewIndirect(gs, hs, i) && Indirect(gs, i) <= Indirect(hs, i)
  {
    assert ValidSlot(fs, Ptr(i, NDIRECT)) && ValidSlot(gs, Ptr(i, NDIRECT));
    assert Addr(fs, Ptr(i, NDIRECT)) == fs.inodes[i].addrs[NDIRECT];
    assert Addr(gs, Ptr(i, NDIRECT)) == gs.inodes[i].addrs[NDIRECT];
  }

  lemma OnlyTouchedMore(fs: Fs, gs: Fs, hs: Fs, i: nat, off: nat, tot: nat, m: nat)
    requires Shaped(fs) && Shaped(gs) && Shaped(hs) && i < |fs.inodes| && i < |gs.inodes| && i < |hs.inodes|
    requires OnlyTouched(fs, gs, i, off, tot) && off + tot < MAXFILE * BSIZE && OnlyBlock(gs, hs, i, (off + tot) / BSIZE)
    requires 0 < m && (off + tot) / BSIZE == (off + (tot + m) - 1) / BSIZE && (0 < tot ==> (off + tot) % BSIZE == 0)
    ensures OnlyTouched(fs, hs, i, off, tot + m)
  {
    forall bn | 0 <= bn < MAXFILE && !Touched(off, tot + m, bn) ensures Addr(hs, SlotOf(i, bn)) == Addr(fs, SlotOf(i, bn)) {
      TouchedMore(off, tot, m, bn);
    }
  }

  lemma WritingStep(fs: Fs, gs: Fs, hs: Fs, i: nat, off: nat, tot: nat, m: nat, n: nat, rounds: nat)
    requires Writing(fs, gs, i, off, tot, n, rounds) && Kept(gs, hs, i)
    requires tot < n && m == Part(off, tot, n) && off + tot < MAXFILE * BSIZE
    requires AddrAt(hs, i, off + tot) != 0 && BitsKept(gs, hs) && OnlyBlock(gs, hs, i, (off + tot) / BSIZE)
    requires AddrAt(gs, i, off + tot) != 0 ==> hs.inodes == gs.inodes && NewBits(gs, hs) == {}
    requires NewBits(gs, hs) <= {AddrAt(hs, i, off + tot)} + Indirect(hs, i) && |NewBits(gs, hs)| <= 1 + NewIndirect(gs, hs, i)
    ensures Writing(fs, hs, i, off, tot + m, n, rounds + 1)
  {
    hide Footprint, Kept, Reached, OnlyBlock;
    KeptTrans(fs, gs, hs, i) by { ReachedKept(fs, gs, i, off, tot); }
    NextRound(off, tot, m, n, rounds);
    ReachedStep(fs, gs, hs, i, off, tot, m);
    FootprintStep(fs, gs, hs, i, off, tot, m, rounds);
  }

  lemma ReachedInodes(fs: Fs, gs: Fs, i: nat, off: nat, tot: nat)
    requires Reached(fs, gs, i, off, tot)
    ensures Shaped(fs) && Shaped(gs) && i < |fs.inodes| == |gs.inodes|
    ensures forall i' :: 0 <= i' < |fs.inodes| && i' != i ==> gs.inodes[i'] == fs.inodes[i']
    ensures gs.inodes[i] == fs.inodes[i].(addrs := gs.inodes[i].addrs)
    ensures Dense(fs, i) ==> gs.inodes == fs.inodes || off + tot > fs.inodes[i].size
  {
  }

  lemma ReachedKept(fs: Fs, gs: Fs, i: nat, off: nat, tot: nat)
    requires Reached(fs, gs, i, off, tot)
    ensures Kept(fs, gs, i)
  {
  }

  lemma WritingStart(fs: Fs, i: nat, off: nat, n: nat, start: nat)
    requires Shaped(fs) && i < |fs.inodes| && off <= fs.inodes[i].size
    ensures Writing(fs, fs, i, off, 0, n, 0) && LoggedBy(fs, fs, i, off, 0, start) == {}
  {
    assert NewBits(fs, fs) == {} && DataBlocks(fs, i, off, 0) == {};
    assert BitBlocks({}, start) == {};
  }

  lemma WritingKept(fs: Fs, gs: Fs, hs: Fs, i: nat, off: nat, tot: nat, n: nat, rounds: nat)
    requires Writing(fs, gs, i, off, tot, n, rounds) && Kept(gs, hs, i)
    ensures Kept(fs, hs, i)
  {
    KeptTrans(fs, gs, hs, i);
  }

  /** A round adds to the log exactly what LoggedBy grows by. */
  lemma LoggedStep(fs: Fs, gs: Fs, hs: Fs, i: nat, off: nat, tot: nat, m: nat, n: nat, rounds: nat, start: nat)
    requires Writing(fs, gs, i, off, tot, n, rounds) && Kept(gs, hs, i) && BitsKept(gs, hs)
    requires tot < n && m == Part(off, tot, n) && off + tot < MAXFILE * BSIZE && AddrAt(hs, i, off + tot) != 0
    ensures LoggedBy(fs, hs, i, off, tot + m, start)
         == LoggedBy(fs, gs, i, off, tot, start) + BmapLog(gs, hs, i, (off + tot) / BSIZE, start) + {AddrAt(hs, i, off + tot)}
  {
    NextRound(off, tot, m, n, rounds);
    DataMore(fs, gs, hs, i, off, tot, m);
    WritingAllocated(fs, gs, i, off, tot, n, rounds);
    hide DataBlocks, MapLog, BmapLog, Allocated, Reached, Footprint;
    MapLogStep(fs, gs, hs, i, off, tot, m, start);
  }

  lemma WritingAllocated(fs: Fs, gs: Fs, i: nat, off: nat, tot: nat, n: nat, rounds: nat)
    requires Writing(fs, gs, i, off, tot, n, rounds)
    ensures Allocated(fs, gs, i, off, tot) && BitsKept(fs, gs)
  {
  }

  /** A bmap adds to the log exactly what MapLog grows by. */
  lemma MapLogStep(fs: Fs, gs: Fs, hs: Fs, i: nat, off: nat, tot: nat, m: nat, start: nat)
    requires Allocated(fs, gs, i, off, tot) && BitsKept(fs, gs) && Kept(gs, hs, i) && BitsKept(gs, hs)
    requires 0 < m && (off + tot) / BSIZE == (off + (tot + m) - 1) / BSIZE && (0 < tot ==> (off + tot) % BSIZE == 0)
    requires off + tot < MAXFILE * BSIZE
    ensures MapLog(fs, hs, i, off, tot + m, start)
         == MapLog(fs, gs, i, off, tot, start) + BmapLog(gs, hs, i, (off + tot) / BSIZE, start)
  {
    hide NewBits, BitBlocks;
    var bn := (off + tot) / BSIZE;
    NewBitsTrans(fs, gs, hs);
    BitBlocksUnion(NewBits(fs, gs), NewBits(gs, hs), start);
    TouchedMore(off, tot, m, bn);
    assert Addr(gs, SlotOf(i, bn)) == Addr(fs, SlotOf(i, bn));
    FilledMore(fs, i, off, tot, m);
    if FilledEntry(fs, i, off, tot) { FilledHasBlock(fs, gs, hs, i, off, tot); }
  }

  lemma FilledMore(fs: Fs, i: nat, off: nat, tot: nat, m: nat)
    requires Shaped(fs) && i < |fs.inodes| && off + tot < MAXFILE * BSIZE
    requires 0 < m && (off + tot) / BSIZE == (off + (tot + m) - 1) / BSIZE && (0 < tot ==> (off + tot) % BSIZE == 0)
    ensures var bn := (off + tot) / BSIZE;
            FilledEntry(fs, i, off, tot + m) <==> FilledEntry(fs, i, off, tot) || (bn >= NDIRECT && Addr(fs, SlotOf(i, bn)) == 0)
  {
    forall bn: nat ensures Touched(off, tot + m, bn) <==> Touched(off, tot, bn) || bn == (off + tot) / BSIZE {
      TouchedMore(off, tot, m, bn);
    }
  }

  /** An entry that was filled lies in an indirect block, which later rounds keep. */
  lemma FilledHasBlock(fs: Fs, gs: Fs, hs: Fs, i: nat, off: nat, tot: nat)
    requires Allocated(fs, gs, i, off, tot) && Kept(gs, hs, i) && FilledEntry(fs, i, off, tot)
    ensures Indirect(gs, i) == Indirect(hs, i) != {}
  {
    var bn :| NDIRECT <= bn < MAXFILE && Touched(off, tot, bn) && Addr(fs, SlotOf(i, bn)) == 0;
    assert Addr(gs, SlotOf(i, bn)) != 0;
    assert ValidSlot(gs, Ptr(i, NDIRECT)) && Addr(gs, Ptr(i, NDIRECT)) == gs.inodes[i].addrs[NDIRECT];
    assert Addr(hs, Ptr(i, NDIRECT)) == hs.inodes[i].addrs[NDIRECT];
  }

  /** filewrite's chunk fits: at most nine blocks besides the inode's. */
  lemma WritingBound(fs: Fs, gs: Fs, i: nat, off: nat, n: nat, rounds: nat, start: nat)
    requires Writing(fs, gs, i, off, n, n, rounds)
    ensures Kept(fs, gs, i) && Reached(fs, gs, i, off, n) && OnlyTouched(fs, gs, i, off, n) && |gs.bitmap| == |fs.bitmap|
    ensures Dense(fs, i) && n <= CHUNK ==> |LoggedBy(fs, gs, i, off, n, start)| <= MAXOPBLOCKS - 1
  {
    RoundsBound(off, n, n, rounds);
    BitBlocksSize(NewBits(fs, gs), start);
    var d, bms, ind := DataBlocks(gs, i, off, n), BitBlocks(NewBits(fs, gs), start), Indirect(gs, i);
    SubsetSize(LoggedBy(fs, gs, i, off, n, start), d + bms + ind);
  }

  /** fs once writei has put the new end of the file into inode i. */
  function Resized(fs: Fs, i: nat, size: uint): Fs
    requires i < |fs.inodes|
  {
    fs.(inodes := fs.inodes[i := fs.inodes[i].(size := size)])
  }

  /** What writei refuses: a hole, a 32-bit overflow, a file that is too large. */
  predicate Refused(size: uint, off: uint, n: nat) {
    off > size || (off + n) % TWO32 < off || off + n > MAXFILE * BSIZE
  }

  function NextChunk(left: nat): nat {
    if left > CHUNK then CHUNK else left
  }

  function NewSize(size: uint, off: nat, n: nat): uint
    requires n == 0 || off + n < TWO32
  {
    if n > 0 && off + n > size then off + n else size
  }

  /** No address is lost between fs and gs, and every block that n bytes from off on touch has one. */
  ghost predicate Allocated(fs: Fs, gs: Fs, i: nat, off: nat, n: nat) {
    && Shaped(fs) && Shaped(gs) && i < |fs.inodes| == |gs.inodes| && |gs.bitmap| == |fs.bitmap|
    && (forall s :: ValidSlot(fs, s) && Addr(fs, s) != 0 ==> Addr(gs, s) == Addr(fs, s))
    && (forall bn :: 0 <= bn < MAXFILE && Touched(off, n, bn) ==> Addr(gs, SlotOf(i, bn)) != 0)
    && OnlyTouched(fs, gs, i, off, n)
  }

  /** The pointer of an inode through which block bn of the file is found. */
  function PointerOf(bn: nat): nat {
    if bn < NDIRECT then bn else NDIRECT
  }

  /** A block that n bytes from off on touch has no pointer in inode i, so that mapping it changes the inode. */
  ghost predicate LacksPointer(fs: Fs, i: nat, off: nat, n: nat)
    requires Shaped(fs) && i < |fs.inodes|
  {
    exists bn :: 0 <= bn < MAXFILE && Touched(off, n, bn) && fs.inodes[i].addrs[PointerOf(bn)] == 0
  }

  /** The write makes the file longer: the one case in which writei calls iupdate. */
  predicate Grows(size: nat, off: nat, n: nat) {
    n > 0 && off + n > size
  }

  /** Mapping the touched blocks leaves the inode as it was exactly if none of them lacked its pointer. */
  lemma PointersKept(fs: Fs, gs: Fs, i: nat, off: nat, n: nat)
    requires Allocated(fs, gs, i, off, n) && (n == 0 || off + n <= MAXFILE * BSIZE)
    ensures gs.inodes[i].addrs == fs.inodes[i].addrs <==> !LacksPointer(fs, i, off, n)
  {
    if LacksPointer(fs, i, off, n) {
      var bn :| 0 <= bn < MAXFILE && Touched(off, n, bn) && fs.inodes[i].addrs[PointerOf(bn)] == 0;
      assert Addr(gs, SlotOf(i, bn)) != 0;
      assert gs.inodes[i].addrs[PointerOf(bn)] != 0;
    } else {
      forall k | 0 <= k <= NDIRECT ensures gs.inodes[i].addrs[k] == fs.inodes[i].addrs[k] {
        PointerKept(fs, gs, i, off, n, k);
      }
    }
  }

  lemma PointerKept(fs: Fs, gs: Fs, i: nat, off: nat, n: nat, k: nat)
    requires Allocated(fs, gs, i, off, n) && (n == 0 || off + n <= MAXFILE * BSIZE) && k <= NDIRECT
    ensures gs.inodes[i].addrs[k] == fs.inodes[i].addrs[k] || LacksPointer(fs, i, off, n)
  {
    var s := Ptr(i, k);
    assert ValidSlot(fs, s) && Addr(fs, s) == fs.inodes[i].addrs[k];
    if fs.inodes[i].addrs[k] == 0 {
      assert k < NDIRECT ==> SlotOf(i, k) == s && PointerOf(k) == k;
      if k == NDIRECT && n > 0 && off + n > NDIRECT * BSIZE {
        var bn := if off / BSIZE < NDIRECT then NDIRECT else off / BSIZE;
        assert Touched(off, n, bn) && PointerOf(bn) == NDIRECT;
      }
    }
  }

  /** A file without a hole lacks no pointer within its length. */
  lemma DenseLacksNoPointer(fs: Fs, i: nat, off: nat, n: nat)
    requires Shaped(fs) && i < |fs.inodes| && Dense(fs, i) && !Grows(fs.inodes[i].size, off, n)
    ensures !LacksPointer(fs, i, off, n)
  {
    forall bn | 0 <= bn < MAXFILE && Touched(off, n, bn) ensures fs.inodes[i].addrs[PointerOf(bn)] != 0 {
      assert Addr(fs, SlotOf(i, bn)) != 0;
    }
  }

  /** Inode i differs between fs and gs at most in its addresses and in its length, and no other inode does. */
  ghost predicate SameButFile(fs: Fs, gs: Fs, i: nat, size: uint)
    requires i < |fs.inodes|
  {
    && |gs.inodes| == |fs.inodes| && gs.inodes[i] == fs.inodes[i].(size := size, addrs := gs.inodes[i].addrs)
    && forall e :: 0 <= e < |fs.inodes| && e != i ==> gs.inodes[e] == fs.inodes[e]
  }

  /** The inodes on disk after a write of n bytes at off that took fs to gs: d with inode i written if the file grew. */
  ghost function WrittenBack(d: seq<Inode>, fs: Fs, gs: Fs, i: nat, off: nat, n: nat): seq<Inode>
    requires i < |fs.inodes| == |gs.inodes| == |d|
  {
    if Grows(fs.inodes[i].size, off, n) then d[i := gs.inodes[i]] else d
  }

  /** When the inodes on disk are again those in memory. */
  lemma WrittenBackIff(fs: Fs, gs: Fs, i: nat, off: nat, n: nat)
    requires Allocated(fs, gs, i, off, n) && (n == 0 || off + n <= MAXFILE * BSIZE)
    requires SameButFile(fs, gs, i, NewSize(fs.inodes[i].size, off, n))
    ensures WrittenBack(fs.inodes, fs, gs, i, off, n) == gs.inodes <==>
            Grows(fs.inodes[i].size, off, n) || !LacksPointer(fs, i, off, n)
  {
    hide LacksPointer;
    PointersKept(fs, gs, i, off, n);
    var d := WrittenBack(fs.inodes, fs, gs, i, off, n);
    assert forall e :: 0 <= e < |d| && e != i ==> d[e] == gs.inodes[e];
    assert d == gs.inodes <==> d[i] == gs.inodes[i];
  }

  lemma ReachedAllocated(meta: nat, fs: Fs, gs: Fs, owner: map<uint, Slot>, i: nat, off: nat, n: nat, size: uint)
    requires Exact(meta, gs, owner) && Reached(fs, gs, i, off, n) && OnlyTouched(fs, gs, i, off, n)
    ensures Allocated(fs, Resized(gs, i, size), i, off, n)
  {
    SetSize(meta, gs, owner, i, size);
    assert forall s :: ValidSlot(fs, s) ==> ValidSlot(gs, s);
    assert forall bn :: 0 <= bn < MAXFILE ==> ValidSlot(gs, SlotOf(i, bn));
  }

  lemma AllocatedSelf(fs: Fs, i: nat, off: nat)
    requires Shaped(fs) && i < |fs.inodes|
    ensures Allocated(fs, fs, i, off, 0) && Lacking(fs, i, off, 0) == 0
  {
  }

  lemma AllocatedTrans(fs: Fs, gs: Fs, hs: Fs, i: nat, off: nat, a: nat, n: nat)
    requires a <= n && Allocated(fs, gs, i, off, a) && Allocated(gs, hs, i, off + a, n - a)
    ensures Allocated(fs, hs, i, off, n)
  {
    forall s | ValidSlot(fs, s) && Addr(fs, s) != 0 ensures Addr(hs, s) == Addr(fs, s) {
      assert ValidSlot(gs, s);
    }
    forall bn | 0 <= bn < MAXFILE
      ensures Touched(off, n, bn) ==> Addr(hs, SlotOf(i, bn)) != 0
      ensures !Touched(off, n, bn) ==> Addr(hs, SlotOf(i, bn)) == Addr(fs, SlotOf(i, bn))
    {
      assert Touched(off, n, bn) <==> Touched(off, a, bn) || Touched(off + a, n - a, bn);
      assert ValidSlot(gs, SlotOf(i, bn));
    }
  }

  lemma LackingOne(fs: Fs, i: nat, off: nat, n: nat)
    requires Shaped(fs) && i < |fs.inodes| && 0 < n && off + n <= MAXFILE * BSIZE && off / BSIZE == (off + n - 1) / BSIZE
    ensures Lacking(fs, i, off, n) == Missing(fs, i, off / BSIZE)
  {
    assert Absent(fs, i, off / BSIZE + 1, off / BSIZE + 1) == 0;
  }

  /** A bmap of the block that n bytes lie in. */
  lemma MappedAllocated(fs: Fs, gs: Fs, i: nat, off: nat, n: nat)
    requires Kept(fs, gs, i) && 0 < n && off + n <= MAXFILE * BSIZE && off / BSIZE == (off + n - 1) / BSIZE
    requires Mapped(fs, gs, i, off / BSIZE) && AddrAt(gs, i, off) != 0
    ensures Allocated(fs, gs, i, off, n) && BitsKept(fs, gs)
  {
    hide NewBits;
    forall bn | 0 <= bn < MAXFILE ensures Touched(off, n, bn) <==> bn == off / BSIZE {}
  }

  /** What a longer stretch lacks is what its first part lacks and what the rest lacks once that is allocated. */
  lemma LackingSplit(fs: Fs, gs: Fs, i: nat, off: nat, a: nat, n: nat)
    requires Allocated(fs, gs, i, off, a) && a <= n && (n == 0 || off + n <= MAXFILE * BSIZE)
    ensures Lacking(fs, i, off, n) == Lacking(fs, i, off, a) + Lacking(gs, i, off + a, n - a)
  {
    if 0 < a < n {
      LackingRest(fs, gs, i, off, a, n);
    } else if a == 0 < n {
      AbsentSame(fs, gs, i, off / BSIZE, (off + n - 1) / BSIZE + 1);
    }
  }

  /** Where the first part of a stretch ends and the rest begins, in blocks. */
  lemma SplitBlocks(off: nat, a: nat, n: nat)
    requires 0 < a < n && off + n <= MAXFILE * BSIZE
    ensures var mid, end := (off + a - 1) / BSIZE + 1, (off + n - 1) / BSIZE + 1;
            && off / BSIZE < mid <= end <= MAXFILE && mid - 1 <= (off + a) / BSIZE <= mid && (off + a) / BSIZE < end
            && (mid > NDIRECT <==> off + a > NDIRECT * BSIZE)
            && Touched(off, a, mid - 1) && forall c :: mid <= c < end ==> !Touched(off, a, c)
  {
  }

  lemma LackingRest(fs: Fs, gs: Fs, i: nat, off: nat, a: nat, n: nat)
    requires Allocated(fs, gs, i, off, a) && 0 < a < n && off + n <= MAXFILE * BSIZE
    ensures Lacking(fs, i, off, n) == Lacking(fs, i, off, a) + Lacking(gs, i, off + a, n - a)
  {
    SplitBlocks(off, a, n);
    hide Touched, Lack;
    LackingParts(fs, gs, i, off / BSIZE, (off + a - 1) / BSIZE + 1, (off + a) / BSIZE, (off + n - 1) / BSIZE + 1);
  }

  lemma LackingParts(fs: Fs, gs: Fs, i: nat, bn: nat, mid: nat, from: nat, end: nat)
    requires Shaped(fs) && Shaped(gs) && i < |fs.inodes| && i < |gs.inodes| && bn < mid <= end <= MAXFILE && mid - 1 <= from <= mid
    requires Addr(gs, SlotOf(i, mid - 1)) != 0 && forall c :: mid <= c < end ==> Addr(gs, SlotOf(i, c)) == Addr(fs, SlotOf(i, c))
    requires mid <= NDIRECT ==> gs.inodes[i].addrs[NDIRECT] == fs.inodes[i].addrs[NDIRECT]
    ensures Lack(fs, i, bn, end) == Lack(fs, i, bn, mid) + Lack(gs, i, from, end)
  {
    AbsentSplit(fs, i, bn, mid, end);
    AbsentSame(fs, gs, i, mid, end);
    AbsentHead(gs, i, from, mid, end);
    if mid > NDIRECT { IndirectThere(gs, i, mid - 1); }
  }

  lemma AbsentHead(fs: Fs, i: nat, bn: nat, mid: nat, end: nat)
    requires Shaped(fs) && i < |fs.inodes| && bn <= mid <= bn + 1 && mid <= end <= MAXFILE && (bn < mid ==> Addr(fs, SlotOf(i, bn)) != 0)
    ensures Absent(fs, i, bn, end) == Absent(fs, i, mid, end)
  {
  }

  /** A block under the indirect block is there only if that is. */
  lemma IndirectThere(fs: Fs, i: nat, bn: nat)
    requires Shaped(fs) && i < |fs.inodes| && NDIRECT <= bn < MAXFILE && Addr(fs, SlotOf(i, bn)) != 0
    ensures fs.inodes[i].addrs[NDIRECT] != 0
  {
  }

  lemma ResizedSound(meta: nat, fs: Fs, gs: Fs, owner: map<uint, Slot>, i: nat, off: nat, n: nat, size: uint)
    requires Exact(meta, gs, owner) && Reached(fs, gs, i, off, n)
    requires off <= fs.inodes[i].size && ((size == off + n && n > 0) || size == fs.inodes[i].size)
    ensures Exact(meta, Resized(gs, i, size), owner)
    ensures Files(Resized(gs, i, size)) == Files(gs)
    ensures Dense(fs, i) ==> Dense(Resized(gs, i, size), i)
  {
    var hs := Resized(gs, i, size);
    SetSize(meta, gs, owner, i, size);
    SameFiles(gs, hs);
    if Dense(fs, i) {
      forall bn | 0 <= bn < MAXFILE && bn * BSIZE < size ensures Addr(hs, SlotOf(i, bn)) != 0 {
        assert ValidSlot(fs, SlotOf(i, bn)) && ValidSlot(gs, SlotOf(i, bn));
      }
    }
  }

  predicate Full(fs: Fs) {
    forall c :: 0 <= c < |fs.bitmap| ==> fs.bitmap[c]
  }

  /** What bmap of block bn may change. */
  ghost predicate Mapped(fs: Fs, gs: Fs, i: nat, bn: nat)
    requires Shaped(fs) && Shaped(gs) && i < |fs.inodes| && i < |gs.inodes| && bn < MAXFILE
  {
    && BitsKept(fs, gs) && OnlyBlock(fs, gs, i, bn)
    && NewBits(fs, gs) <= {Addr(gs, SlotOf(i, bn)) as nat} + Indirect(gs, i)
    && |NewBits(fs, gs)| <= 1 + NewIndirect(fs, gs, i)
    && (Addr(fs, SlotOf(i, bn)) != 0 ==> NewBits(fs, gs) == {})
  }

  /** Every block taken leaves one free block less. */
  lemma FreeAfter(fs: Fs, gs: Fs)
    requires BitsKept(fs, gs)
    ensures |FreeSet(gs)| == |FreeSet(fs)| - |NewBits(fs, gs)|
  {
    assert FreeSet(gs) == FreeSet(fs) - NewBits(fs, gs);
    assert FreeSet(fs) == FreeSet(gs) + NewBits(fs, gs);
  }

  lemma FullIff(fs: Fs)
    ensures Full(fs) <==> |FreeSet(fs)| == 0
  {
    if !Full(fs) {
      var b :| 0 <= b < |fs.bitmap| && !fs.bitmap[b];
      assert b in FreeSet(fs);
    } else {
      assert FreeSet(fs) == {};
    }
  }

  lemma SameBits(fs: Fs, gs: Fs)
    requires gs.bitmap == fs.bitmap
    ensures FreeSet(gs) == FreeSet(fs)
  {
  }

  lemma NoNewBits(fs: Fs, start: nat)
    ensures BitsKept(fs, fs) && NewBits(fs, fs) == {} && BitBlocks({}, start) == {}
  {
  }

  lemma OneNewBit(fs: Fs, gs: Fs, b: uint, start: nat)
    requires b < |fs.bitmap| && !fs.bitmap[b] && gs.bitmap == fs.bitmap[b := true]
    ensures BitsKept(fs, gs) && NewBits(fs, gs) == {b as nat} && BitBlocks({b as nat}, start) == {b / BPB + start}
  {
  }

  /** What clearing bits passes to log_write: their bitmap blocks. */
  ghost function ClearLog(fs: Fs, gs: Fs, start: nat): set<nat> {
    BitBlocks(NewBits(gs, fs), start)
  }

  lemma ClearNone(fs: Fs, start: nat)
    ensures BitsKept(fs, fs) && ClearLog(fs, fs, start) == {}
  {
    NoNewBits(fs, start);
  }

  /** One bfree more. */
  lemma ClearMore(fs: Fs, gs: Fs, hs: Fs, a: uint, start: nat)
    requires BitsKept(gs, fs) && a < |gs.bitmap| && gs.bitmap[a] && hs.bitmap == gs.bitmap[a := false]
    ensures BitsKept(hs, fs) && ClearLog(fs, hs, start) == ClearLog(fs, gs, start) + {a / BPB + start}
  {
    assert gs.bitmap == hs.bitmap[a := true];
    OneNewBit(hs, gs, a, start);
    NewBitsTrans(hs, gs, fs);
    BitBlocksUnion(NewBits(hs, gs), NewBits(gs, fs), start);
  }

  lemma ClearSame(fs: Fs, gs: Fs, hs: Fs, start: nat)
    requires BitsKept(gs, fs) && hs.bitmap == gs.bitmap
    ensures BitsKept(hs, fs) && ClearLog(fs, hs, start) == ClearLog(fs, gs, start)
  {
    assert NewBits(hs, fs) == NewBits(gs, fs);
  }

  /** Two stretches of clearing. */
  lemma ClearTrans(fs: Fs, gs: Fs, hs: Fs, start: nat)
    requires BitsKept(gs, fs) && BitsKept(hs, gs)
    ensures BitsKept(hs, fs) && ClearLog(fs, hs, start) == ClearLog(fs, gs, start) + ClearLog(gs, hs, start)
  {
    NewBitsTrans(hs, gs, fs);
    BitBlocksUnion(NewBits(hs, gs), NewBits(gs, fs), start);
  }

  lemma GrownSizes(fs: Fs, gs: Fs, i: nat)
    requires Grown(fs, gs, i)
    ensures i < |fs.inodes| == |gs.inodes|
  {
  }

  lemma SlicesMeet(s: seq<byte>, a: nat, b: nat, c: nat)
    requires a <= b <= c <= |s|
    ensures s[a..b] + s[b..c] == s[a..c]
  {
  }

  lemma GrownFiles(fs: Fs, gs: Fs, i: nat)
    requires Grown(fs, gs, i)
    ensures Shaped(fs) && Shaped(gs) && i < |fs.inodes| == |gs.inodes|
    ensures gs.inodes[i].size == fs.inodes[i].size && Files(gs) == Files(fs)
  {
    SameFiles(fs, gs);
  }

  /** Bytes of n from off on that lie below the end of the file. */
  function Clipped(size: uint, off: nat, n: nat): nat
  {
    if off > size then 0 else if off + n > size then size - off else n
  }

  /** A file that was just written to: long enough, with every block it takes, and with the bytes. */
  lemma WrittenBytes(fs: Fs, gs: Fs, i: nat, off: nat, src: seq<byte>)
    requires Shaped(fs) && Shaped(gs) && i < |fs.inodes| && off <= fs.inodes[i].size <= MAXFILE * BSIZE && off + |src| <= MAXFILE * BSIZE
    requires SameButFile(fs, gs, i, NewSize(fs.inodes[i].size, off, |src|)) && Allocated(fs, gs, i, off, |src|)
    requires Files(gs) == WriteFile(Files(fs), i, off, src)
    ensures off + |src| <= gs.inodes[i].size <= MAXFILE * BSIZE && Clipped(gs.inodes[i].size, off, |src|) == |src|
    ensures Lacking(gs, i, off, |src|) == 0 && Files(gs)[i][off..off + |src|] == src
  {
    AllocatedLacksNone(fs, gs, i, off, |src|);
    hide Files, Lacking, Allocated;
  }

  lemma AllocatedLacksNone(fs: Fs, gs: Fs, i: nat, off: nat, n: nat)
    requires Allocated(fs, gs, i, off, n) && off + n <= MAXFILE * BSIZE
    ensures Lacking(gs, i, off, n) == 0
  {
    if n > 0 {
      var end := (off + n - 1) / BSIZE + 1;
      assert forall bn :: off / BSIZE <= bn < end ==> Touched(off, n, bn) && Addr(gs, SlotOf(i, bn)) != 0;
      NoneAbsent(gs, i, off / BSIZE, end);
      assert end > NDIRECT ==> Addr(gs, SlotOf(i, end - 1)) != 0;
    }
  }

  lemma KeptSelf(fs: Fs, i: nat)
    requires Shaped(fs) && i < |fs.inodes|
    ensures Kept(fs, fs, i)
  {
  }

  /**
   n bytes of file i have been read, from off on.  All that can change is that blocks missing there
   are allocated; every file keeps its bytes.
   */
  ghost predicate Looked(fs: Fs, gs: Fs, i: nat, off: nat, n: nat) {
    && Shaped(fs) && Shaped(gs) && i < |fs.inodes| == |gs.inodes|
    && Kept(fs, gs, i) && Files(gs) == Files(fs) && Allocated(fs, gs, i, off, n)
    && (n == 0 || off + n <= MAXFILE * BSIZE) && |FreeSet(gs)| == |FreeSet(fs)| - Lacking(fs, i, off, n) && BitsKept(fs, gs)
  }

  lemma LookedSelf(fs: Fs, i: nat, off: nat)
    requires Shaped(fs) && i < |fs.inodes|
    ensures Looked(fs, fs, i, off, 0)
  {
    hide Files;
    KeptSelf(fs, i);
    AllocatedSelf(fs, i, off);
  }

  lemma LookedMore(fs: Fs, gs: Fs, hs: Fs, i: nat, off: nat, a: nat, n: nat)
    requires a <= n && off + n <= MAXFILE * BSIZE && Looked(fs, gs, i, off, a) && Looked(gs, hs, i, off + a, n - a)
    ensures Looked(fs, hs, i, off, n)
  {
    hide Files, Lacking, FreeSet, Allocated, Kept;
    KeptTrans(fs, gs, hs, i);
    AllocatedTrans(fs, gs, hs, i, off, a, n);
    LackingSplit(fs, gs, i, off, a, n);
    NewBitsTrans(fs, gs, hs);
  }

  lemma LookedSame(fs: Fs, gs: Fs, i: nat, off: nat, n: nat)
    requires Looked(fs, gs, i, off, n)
    ensures Shaped(fs) && Shaped(gs) && i < |fs.inodes| == |gs.inodes| && Files(gs) == Files(fs)
    ensures gs.inodes[i].size == fs.inodes[i].size && gs.inodes[i].typ == fs.inodes[i].typ
  {
    hide Files;
  }

  /** Reading leaves the inodes as they were exactly if it met no block without a pointer. */
  lemma LookedPointers(fs: Fs, gs: Fs, i: nat, off: nat, n: nat)
    requires Looked(fs, gs, i, off, n)
    ensures Shaped(fs) && Shaped(gs) && i < |fs.inodes| == |gs.inodes|
    ensures gs.inodes == fs.inodes <==> !LacksPointer(fs, i, off, n)
    ensures gs.inodes[i].addrs == fs.inodes[i].addrs <==> !LacksPointer(fs, i, off, n)
  {
    hide Files, Allocated, LacksPointer, Lacking, FreeSet;
    PointersKept(fs, gs, i, off, n);
  }

  /** The bytes from off + a on lack no more than all of them do. */
  lemma LookedRoom(fs: Fs, gs: Fs, i: nat, off: nat, a: nat, n: nat, size: nat)
    requires Looked(fs, gs, i, off, a) && a <= n <= size && off + size <= MAXFILE * BSIZE
    ensures |FreeSet(gs)| < Lacking(gs, i, off + a, n - a) ==> |FreeSet(fs)| < Lacking(fs, i, off, size)
  {
    hide Files, Lacking, FreeSet, Allocated, Kept;
    LackingSplit(fs, gs, i, off, a, n);
    LackingMono(fs, i, off, n, size);
  }

  lemma MapLogNone(fs: Fs, i: nat, off: nat, start: nat)
    requires Shaped(fs) && i < |fs.inodes|
    ensures MapLog(fs, fs, i, off, 0, start) == {}
  {
    NoNewBits(fs, start);
  }

  /** What a round of readi adds to the log. */
  lemma LookedLog(fs: Fs, gs: Fs, hs: Fs, i: nat, off: nat, tot: nat, n: nat, start: nat)
    requires tot < n && off + n <= MAXFILE * BSIZE && (0 < tot ==> (off + tot) % BSIZE == 0)
    requires Looked(fs, gs, i, off, tot) && Looked(gs, hs, i, off + tot, Part(off, tot, n))
    ensures MapLog(fs, hs, i, off, tot + Part(off, tot, n), start)
         == MapLog(fs, gs, i, off, tot, start) + BmapLog(gs, hs, i, (off + tot) / BSIZE, start)
    ensures tot + Part(off, tot, n) < n ==> (off + (tot + Part(off, tot, n))) % BSIZE == 0
  {
    hide Files, Lacking, FreeSet, Allocated, Kept, MapLog, BmapLog, BitsKept;
    MapLogStep(fs, gs, hs, i, off, tot, Part(off, tot, n), start);
  }

  /** A file read to its end has no hole. */
  lemma LookedDense(fs: Fs, gs: Fs, i: nat)
    requires Shaped(fs) && i < |fs.inodes| && Looked(fs, gs, i, 0, fs.inodes[i].size)
    ensures Dense(gs, i)
  {
    hide Files;
    forall bn | 0 <= bn < MAXFILE && bn * BSIZE < gs.inodes[i].size ensures Addr(gs, SlotOf(i, bn)) != 0 {
      assert Touched(0, gs.inodes[i].size, bn);
    }
  }

  /** There were as many free blocks as were taken. */
  lemma LookedEnough(fs: Fs, gs: Fs, i: nat, off: nat, n: nat)
    requires Looked(fs, gs, i, off, n)
    ensures |FreeSet(fs)| >= Lacking(fs, i, off, n)
  {
  }

  /** A file without holes lacks nothing below its end. */
  lemma DenseLacksNone(fs: Fs, i: nat, off: nat, n: nat)
    requires Shaped(fs) && i < |fs.inodes| && off + n <= fs.inodes[i].size <= MAXFILE * BSIZE
    ensures Dense(fs, i) ==> Lacking(fs, i, off, n) == 0
  {
    if Dense(fs, i) && n > 0 {
      var end := (off + n - 1) / BSIZE + 1;
      assert Addr(fs, SlotOf(i, end - 1)) != 0;
      NoneAbsent(fs, i, off / BSIZE, end);
    }
  }

  lemma {:induction false} NoneAbsent(fs: Fs, i: nat, bn: nat, end: nat)
    requires Shaped(fs) && i < |fs.inodes| && end <= MAXFILE
    requires forall c :: bn <= c < end ==> Addr(fs, SlotOf(i, c)) != 0
    ensures Absent(fs, i, bn, end) == 0
    decreases end - bn
  {
    if bn < end { NoneAbsent(fs, i, bn + 1, end); }
  }

  lemma DenseAt(fs: Fs, i: nat, bn: nat)
    requires Shaped(fs) && i < |fs.inodes| && bn < MAXFILE && bn * BSIZE < fs.inodes[i].size
    ensures Dense(fs, i) ==> Addr(fs, SlotOf(i, bn)) != 0
  {
  }

  /** bmap of a direct block. */
  lemma MappedOnce(fs: Fs, gs: Fs, i: nat, bn: nat, start: nat)
    requires Shaped(fs) && Shaped(gs) && i < |fs.inodes| == |gs.inodes| && bn < NDIRECT && BitsKept(fs, gs)
    requires forall s :: ValidSlot(gs, s) && s != Ptr(i, bn) ==> Addr(gs, s) == Addr(fs, s)
    requires NewBits(fs, gs) == if fs.inodes[i].addrs[bn] == 0 then {gs.inodes[i].addrs[bn] as nat} else {}
    ensures Mapped(fs, gs, i, bn) && BmapLog(fs, gs, i, bn, start) == NewBits(fs, gs) + BitBlocks(NewBits(fs, gs), start)
  {
    hide NewBits, BitBlocks, BitsKept;
    forall c | 0 <= c < MAXFILE && c != bn ensures Addr(gs, SlotOf(i, c)) == Addr(fs, SlotOf(i, c)) {
      assert ValidSlot(gs, SlotOf(i, c));
    }
    assert ValidSlot(gs, Ptr(i, NDIRECT)) && Addr(gs, Ptr(i, NDIRECT)) == Addr(fs, Ptr(i, NDIRECT));
  }

  /** bmap beyond the direct blocks: the indirect block, then the entry. */
  lemma MappedTwice(meta: nat, fs: Fs, gs: Fs, hs: Fs, owner: map<uint, Slot>, i: nat, bn: nat, a: uint, start: nat)
    requires Shaped(fs) && Shaped(gs) && Shaped(hs) && i < |fs.inodes| == |gs.inodes| == |hs.inodes| && NDIRECT <= bn < MAXFILE
    requires BitsKept(fs, gs) && BitsKept(gs, hs) && a == Addr(hs, SlotOf(i, bn)) != 0
    requires forall s :: ValidSlot(gs, s) && s != Ptr(i, NDIRECT) ==> Addr(gs, s) == Addr(fs, s)
    requires forall s :: ValidSlot(hs, s) && s != SlotOf(i, bn) ==> Addr(hs, s) == Addr(gs, s)
    requires fs.inodes[i].addrs[NDIRECT] != 0 ==> gs == fs
    requires gs.inodes[i].addrs[NDIRECT] != 0
    requires NewBits(fs, gs) == if fs.inodes[i].addrs[NDIRECT] == 0 then {gs.inodes[i].addrs[NDIRECT] as nat} else {}
    requires NewBits(gs, hs) == if Addr(gs, SlotOf(i, bn)) == 0 then {a as nat} else {}
    requires Addr(gs, SlotOf(i, bn)) != 0 ==> hs == gs
    ensures Mapped(fs, hs, i, bn) && (Addr(fs, SlotOf(i, bn)) != 0 ==> hs == fs)
    ensures BmapLog(fs, hs, i, bn, start)
         == NewBits(fs, gs) + BitBlocks(NewBits(fs, gs), start) + NewBits(gs, hs) + BitBlocks(NewBits(gs, hs), start)
            + if Addr(gs, SlotOf(i, bn)) == 0 then Indirect(hs, i) else {}
  {
    MappedSlots(fs, gs, hs, i, bn);
    hide NewBits, BitBlocks, BitsKept, OnlyBlock, Addr, SlotOf, Shaped, ValidSlot;
    NewBitsTrans(fs, gs, hs);
    BitBlocksUnion(NewBits(fs, gs), NewBits(gs, hs), start);
    TwoBits(NewBits(fs, gs), NewBits(gs, hs), gs.inodes[i].addrs[NDIRECT], a);
    Shuffle(NewBits(fs, gs), NewBits(gs, hs), BitBlocks(NewBits(fs, gs), start), BitBlocks(NewBits(gs, hs), start));
  }

  lemma TwoBits(m: set<nat>, n: set<nat>, x: nat, a: nat)
    requires (m == {} || m == {x}) && (n == {} || n == {a})
    ensures m + n <= {a} + {x} && |m + n| <= |m| + |n| && |m| == (if m == {} then 0 else 1) && |n| == if n == {} then 0 else 1
  {
    assert |m + n| == |m| + |n| - |m * n|;
  }

  lemma Shuffle(m: set<nat>, n: set<nat>, x: set<nat>, y: set<nat>)
    ensures m + n + (x + y) == m + x + n + y
  {
  }

  lemma MappedSlots(fs: Fs, gs: Fs, hs: Fs, i: nat, bn: nat)
    requires Shaped(fs) && Shaped(gs) && Shaped(hs) && i < |fs.inodes| == |gs.inodes| == |hs.inodes| && NDIRECT <= bn < MAXFILE
    requires forall s :: ValidSlot(gs, s) && s != Ptr(i, NDIRECT) ==> Addr(gs, s) == Addr(fs, s)
    requires forall s :: ValidSlot(hs, s) && s != SlotOf(i, bn) ==> Addr(hs, s) == Addr(gs, s)
    ensures Addr(gs, SlotOf(i, bn)) == Addr(fs, SlotOf(i, bn)) && hs.inodes[i].addrs[NDIRECT] == gs.inodes[i].addrs[NDIRECT]
    ensures OnlyBlock(fs, hs, i, bn)
  {
    assert ValidSlot(gs, SlotOf(i, bn)) && ValidSlot(hs, Ptr(i, NDIRECT)) && SlotOf(i, bn) != Ptr(i, NDIRECT);
    assert Addr(hs, Ptr(i, NDIRECT)) == Addr(gs, Ptr(i, NDIRECT));
    assert Addr(hs, Ptr(i, NDIRECT)) == hs.inodes[i].addrs[NDIRECT] && Addr(gs, Ptr(i, NDIRECT)) == gs.inodes[i].addrs[NDIRECT];
    forall c | 0 <= c < MAXFILE && c != bn ensures Addr(hs, SlotOf(i, c)) == Addr(fs, SlotOf(i, c)) {
      assert ValidSlot(gs, SlotOf(i, c)) && ValidSlot(hs, SlotOf(i, c));
    }
  }

  lemma MappedLacking(gs: Fs, hs: Fs, i: nat, off: nat, tot: nat, n: nat)
    requires Shaped(gs) && Shaped(hs) && i < |gs.inodes| && i < |hs.inodes| && tot < n && off + n <= MAXFILE * BSIZE
    requires Mapped(gs, hs, i, (off + tot) / BSIZE) && AddrAt(hs, i, off + tot) != 0
    ensures var m := Part(off, tot, n);
            Lacking(gs, i, off + tot, n - tot) == Missing(gs, i, (off + tot) / BSIZE) + Lacking(hs, i, off + (tot + m), n - (tot + m))
  {
    hide Lacking, Missing;
    LackingStep(gs, hs, i, off, tot, n);
  }

  lemma LackingNone(fs: Fs, i: nat, off: nat)
    requires Shaped(fs) && i < |fs.inodes|
    ensures Lacking(fs, i, off, 0) == 0
  {
  }

  /** Data written to a block changes no address and no bit. */
  lemma MappedSame(fs: Fs, gs: Fs, hs: Fs, i: nat, bn: nat, start: nat)
    requires Shaped(fs) && Shaped(gs) && Shaped(hs) && i < |fs.inodes| && i < |gs.inodes| && bn < MAXFILE
    requires hs.inodes == gs.inodes && hs.bitmap == gs.bitmap && forall s :: ValidSlot(gs, s) ==> Addr(hs, s) == Addr(gs, s)
    requires Mapped(fs, gs, i, bn)
    ensures Mapped(fs, hs, i, bn) && BmapLog(fs, hs, i, bn, start) == BmapLog(fs, gs, i, bn, start)
  {
    assert NewBits(fs, hs) == NewBits(fs, gs) && BitsKept(fs, hs);
    hide NewBits, BitsKept, BitBlocks, Addr;
    forall c | 0 <= c < MAXFILE ensures Addr(hs, SlotOf(i, c)) == Addr(gs, SlotOf(i, c)) {
      assert ValidSlot(gs, SlotOf(i, c));
    }
  }

  lemma RoundDone(fs: Fs, gs: Fs, hs: Fs, i: nat, off: nat, tot: nat, m: nat, n: nat, rounds: nat, start: nat)
    requires Writing(fs, gs, i, off, tot, n, rounds) && Kept(gs, hs, i)
    requires tot < n && m == Part(off, tot, n) && off + n <= MAXFILE * BSIZE
    requires AddrAt(hs, i, off + tot) != 0 && Mapped(gs, hs, i, (off + tot) / BSIZE)
    requires AddrAt(gs, i, off + tot) != 0 ==> hs.inodes == gs.inodes
    ensures Writing(fs, hs, i, off, tot + m, n, rounds + 1)
    ensures LoggedBy(fs, hs, i, off, tot + m, start)
         == LoggedBy(fs, gs, i, off, tot, start) + BmapLog(gs, hs, i, (off + tot) / BSIZE, start) + {AddrAt(hs, i, off + tot)}
  {
    hide Writing, Kept, LoggedBy, BmapLog, OnlyBlock, BitsKept, NewBits;
    WritingStep(fs, gs, hs, i, off, tot, m, n, rounds);
    LoggedStep(fs, gs, hs, i, off, tot, m, n, rounds, start);
  }

  /** Everything writei passes to log_write; the inode's block only if the file grew. */
  ghost function WriteLog(fs: Fs, gs: Fs, i: nat, off: nat, n: nat, bmapstart: nat, inodestart: nat): set<nat>
    requires Shaped(fs) && Shaped(gs) && i < |fs.inodes| && i < |gs.inodes|
  {
    LoggedBy(fs, gs, i, off, n, bmapstart) + if n > 0 && off + n > fs.inodes[i].size then {i / IPB + inodestart} else {}
  }

  lemma WriteLogIs(fs: Fs, gs: Fs, i: nat, off: nat, n: nat, bmapstart: nat, inodestart: nat)
    requires Shaped(fs) && Shaped(gs) && i < |fs.inodes| && i < |gs.inodes|
    ensures WriteLog(fs, gs, i, off, n, bmapstart, inodestart)
         == LoggedBy(fs, gs, i, off, n, bmapstart) + if n > 0 && off + n > fs.inodes[i].size then {i / IPB + inodestart} else {}
    ensures |WriteLog(fs, gs, i, off, n, bmapstart, inodestart)| <= |LoggedBy(fs, gs, i, off, n, bmapstart)| + 1
  {
    hide LoggedBy;
  }

  lemma ResizedLog(fs: Fs, gs: Fs, i: nat, off: nat, n: nat, size: uint, start: nat)
    requires Shaped(fs) && Shaped(gs) && i < |fs.inodes| && i < |gs.inodes|
    ensures Shaped(Resized(gs, i, size)) && LoggedBy(fs, Resized(gs, i, size), i, off, n, start) == LoggedBy(fs, gs, i, off, n, start)
  {
    var hs := Resized(gs, i, size);
    assert NewBits(fs, hs) == NewBits(fs, gs);
    forall bn | 0 <= bn < MAXFILE ensures Addr(hs, SlotOf(i, bn)) == Addr(gs, SlotOf(i, bn)) {}
    assert DataBlocks(hs, i, off, n) == DataBlocks(gs, i, off, n);
  }

  /** hs is what writei makes of fs: its loop, and then the new size. */
  ghost predicate Wrote(fs: Fs, hs: Fs, i: nat, off: nat, n: nat) {
    Shaped(fs) && Shaped(hs) && i < |fs.inodes| && i < |hs.inodes| && exists gs, rounds :: WroteVia(fs, gs, hs, i, off, n, rounds)
  }

  ghost predicate WroteVia(fs: Fs, gs: Fs, hs: Fs, i: nat, off: nat, n: nat, rounds: nat)
    requires i < |hs.inodes|
  {
    Writing(fs, gs, i, off, n, n, rounds) && i < |gs.inodes| && hs == Resized(gs, i, hs.inodes[i].size)
  }

  /** A write of at most a chunk to a file without holes logs at most MAXOPBLOCKS blocks. */
  lemma WroteBound(fs: Fs, hs: Fs, i: nat, off: nat, n: nat, bmapstart: nat, inodestart: nat)
    requires Wrote(fs, hs, i, off, n)
    ensures Dense(fs, i) && n <= CHUNK ==> |WriteLog(fs, hs, i, off, n, bmapstart, inodestart)| <= MAXOPBLOCKS
  {
    hide LoggedBy, WriteLog, Writing, Dense;
    var gs, rounds :| WroteVia(fs, gs, hs, i, off, n, rounds);
    WritingBound(fs, gs, i, off, n, rounds, bmapstart);
    WriteLogIs(fs, hs, i, off, n, bmapstart, inodestart);
    ReachedKept(fs, gs, i, off, n);
    KeptShaped(fs, gs, i);
    ResizedLog(fs, gs, i, off, n, hs.inodes[i].size, bmapstart);
  }

  lemma KeptShaped(fs: Fs, gs: Fs, i: nat)
    requires Kept(fs, gs, i)
    ensures Shaped(fs) && Shaped(gs) && i < |fs.inodes| == |gs.inodes|
  {
  }

  /** What writei's loop and the new size amount to. */
  lemma WriteDone(meta: nat, fs: Fs, gs: Fs, owner: map<uint, Slot>, i: nat, off: nat, n: nat, bmapstart: nat, inodestart: nat)
    requires Shaped(fs) && Shaped(gs) && Exact(meta, gs, owner) && i < |fs.inodes| && off <= fs.inodes[i].size && off + n <= MAXFILE * BSIZE
    requires Reached(fs, gs, i, off, n) && OnlyTouched(fs, gs, i, off, n) && exists rounds :: Writing(fs, gs, i, off, n, n, rounds)
    ensures |gs.inodes| == |fs.inodes| && gs.inodes[i] == fs.inodes[i].(addrs := gs.inodes[i].addrs)
    ensures forall e :: 0 <= e < |fs.inodes| && e != i ==> gs.inodes[e] == fs.inodes[e]
    ensures var hs := Resized(gs, i, NewSize(fs.inodes[i].size, off, n));
            && Shaped(hs) && Exact(meta, hs, owner) && Files(hs) == Files(gs) && FreeSet(hs) == FreeSet(gs)
            && (Dense(fs, i) ==> Dense(hs, i)) && Allocated(fs, hs, i, off, n) && Wrote(fs, hs, i, off, n)
            && SameButFile(fs, hs, i, NewSize(fs.inodes[i].size, off, n))
            && (WrittenBack(fs.inodes, fs, hs, i, off, n) == hs.inodes <==>
                Grows(fs.inodes[i].size, off, n) || !LacksPointer(fs, i, off, n))
            && WriteLog(fs, hs, i, off, n, bmapstart, inodestart)
               == LoggedBy(fs, gs, i, off, n, bmapstart) + (if n > 0 && off + n > fs.inodes[i].size then {i / IPB + inodestart} else {})
            && (Dense(fs, i) && n <= CHUNK ==> |WriteLog(fs, hs, i, off, n, bmapstart, inodestart)| <= MAXOPBLOCKS)
  {
    hide Exact, Dense, Files, LoggedBy, Reached, OnlyTouched, WriteLog, Writing, Allocated;
    var size := NewSize(fs.inodes[i].size, off, n);
    ReachedInodes(fs, gs, i, off, n);
    var hs := Resized(gs, i, size);
    ResizedSound(meta, fs, gs, owner, i, off, n, size);
    ResizedLog(fs, gs, i, off, n, size, bmapstart);
    ReachedAllocated(meta, fs, gs, owner, i, off, n, size);
    WrittenBackIff(fs, hs, i, off, n);
    SameBits(gs, hs);
    var rounds :| Writing(fs, gs, i, off, n, n, rounds);
    assert WroteVia(fs, gs, hs, i, off, n, rounds);
    WriteLogIs(fs, hs, i, off, n, bmapstart, inodestart);
    WroteBound(fs, hs, i, off, n, bmapstart, inodestart);
  }

  class FileSys {
    const meta: nat                 // first block after the bitmap
    const bmapstart: nat
    const inodestart: nat
    var fs: Fs                      // in-memory inodes, block contents, bitmap
    var dinodes: seq<Inode>         // the same inodes on disk
    ghost var owner: map<uint, Slot>
    ghost var logged: set<nat>      // disk blocks passed to log_write in this transaction

    /** A file system on which nothing has been logged, with every inode as on disk. */
    constructor (meta: nat, bmapstart: nat, inodestart: nat, fs: Fs, ghost owner: map<uint, Slot>)
      ensures this.meta == meta && this.bmapstart == bmapstart && this.inodestart == inodestart
      ensures this.fs == fs && dinodes == fs.inodes && this.owner == owner && logged == {}
    {
      this.meta, this.bmapstart, this.inodestart := meta, bmapstart, inodestart;
      this.fs, dinodes, this.owner, logged := fs, fs.inodes, owner, {};
    }

    /** The first block whose bit is clear, now marked in use and filled with zeroes. */
    method Balloc() returns (r: Option<uint>)
      requires Shaped(fs)
      modifies `fs, `logged
      ensures r.None? ==> Full(fs) && fs == old(fs) && logged == old(logged)
      ensures r.Some? ==>
                var b := r.value;
                && b < |old(fs).bitmap| && !old(fs).bitmap[b]
                && (forall c :: 0 <= c < b ==> old(fs).bitmap[c])
                && fs == old(fs).(blocks := old(fs).blocks[b := ZeroBlock()], bitmap := old(fs).bitmap[b := true])
                && logged == old(logged) + {b / BPB + bmapstart, b}
    {
      var b := 0;
      while b < |fs.bitmap|
        invariant 0 <= b && b % BPB == 0
        invariant forall c :: 0 <= c < b && c < |fs.bitmap| ==> fs.bitmap[c]
      {
        var bi := 0;
        while bi < BPB && b + bi < |fs.bitmap|
          invariant 0 <= bi <= BPB
          invariant forall c :: 0 <= c < b + bi && c < |fs.bitmap| ==> fs.bitmap[c]
        {
          if !fs.bitmap[b + bi] {
            fs := fs.(bitmap := fs.bitmap[b + bi := true]);
            logged := logged + {b / BPB + bmapstart};
            fs := fs.(blocks := fs.blocks[b + bi := ZeroBlock()]);
            logged := logged + {b + bi};
            assert (b + bi) / BPB == b / BPB;
            return Some(b + bi);
          }
          bi := bi + 1;
        }
        b := b + BPB;
      }
      return None;
    }

    /** bmap for a direct block or for the indirect block itself: fill addrs[k] if it is empty. */
    method FillPtr(i: nat, k: nat) returns (r: Option<uint>)
      requires Shaped(fs) && Exact(meta, fs, owner) && i < |fs.inodes| && k <= NDIRECT
      modifies `fs, `logged, `owner
      ensures Shaped(fs) && Exact(meta, fs, owner) && Grown(old(fs), fs, i) && BitsKept(old(fs), fs)
      ensures r.None? <==> old(fs).inodes[i].addrs[k] == 0 && |FreeSet(old(fs))| == 0
      ensures r.None? ==> Full(fs) && fs == old(fs) && logged == old(logged)
      ensures r.Some? ==> |FreeSet(fs)| == |FreeSet(old(fs))| - if old(fs).inodes[i].addrs[k] == 0 then 1 else 0
      ensures r.Some? ==> r.value != 0 && fs.inodes[i].addrs[k] == r.value
      ensures forall s :: ValidSlot(fs, s) && s != Ptr(i, k) ==> Addr(fs, s) == Addr(old(fs), s)
      ensures old(fs).inodes[i].addrs[k] != 0 ==> r.Some? && fs == old(fs) && owner == old(owner)
      ensures r.Some? ==> NewBits(old(fs), fs) == if old(fs).inodes[i].addrs[k] == 0 then {r.value} else {}
      ensures logged == old(logged) + NewBits(old(fs), fs) + BitBlocks(NewBits(old(fs), fs), bmapstart)
    {
      hide Exact, FreeSet, NewBits, BitBlocks, BitsKept, Grown;
      var addr := fs.inodes[i].addrs[k];
      NoNewBits(fs, bmapstart);
      GrownRefl(fs, i);
      FullIff(fs);
      if addr == 0 {
        r := Balloc();
        if r.None? { return; }
        addr := r.value;
        FreeBlock(meta, old(fs), owner, addr);
        fs := fs.(inodes := fs.inodes[i := fs.inodes[i].(addrs := fs.inodes[i].addrs[k := addr])]);
        owner := owner[addr := Ptr(i, k)];
        assert fs == PutPtr(old(fs), i, k, addr);
        OneNewBit(old(fs), fs, addr, bmapstart);
        FreeAfter(old(fs), fs);
        PutPtrExact(meta, old(fs), old(owner), i, k, addr);
        PutPtrGrown(meta, old(fs), old(owner), i, k, addr);
      }
      r := Some(addr);
    }

    /** The tail of bmap: allocate a block for an empty entry of the indirect block. */
    method FillEntry(i: nat, j: nat) returns (r: Option<uint>)
      requires Shaped(fs) && Exact(meta, fs, owner) && i < |fs.inodes| && j < NINDIRECT
      requires Addr(fs, Ptr(i, NDIRECT)) != 0
      modifies `fs, `logged, `owner
      ensures Shaped(fs) && Exact(meta, fs, owner) && Grown(old(fs), fs, i) && BitsKept(old(fs), fs)
      ensures r.None? <==> Addr(old(fs), Entry(i, j)) == 0 && |FreeSet(old(fs))| == 0
      ensures r.None? ==> Full(fs) && fs == old(fs) && logged == old(logged)
      ensures r.Some? ==> |FreeSet(fs)| == |FreeSet(old(fs))| - if Addr(old(fs), Entry(i, j)) == 0 then 1 else 0
      ensures r.Some? ==> r.value != 0 && Addr(fs, Entry(i, j)) == r.value
      ensures forall s :: ValidSlot(fs, s) && s != Entry(i, j) ==> Addr(fs, s) == Addr(old(fs), s)
      ensures Addr(old(fs), Entry(i, j)) != 0 ==> r.Some? && fs == old(fs) && owner == old(owner)
      ensures r.Some? ==> NewBits(old(fs), fs) == if Addr(old(fs), Entry(i, j)) == 0 then {r.value} else {}
      ensures r.Some? ==>
                logged == old(logged) + NewBits(old(fs), fs) + BitBlocks(NewBits(old(fs), fs), bmapstart)
                          + if Addr(old(fs), Entry(i, j)) == 0 then Indirect(fs, i) else {}
    {
      hide Exact, Word, FreeSet, NewBits, BitBlocks, BitsKept, Grown;
      var ind := fs.inodes[i].addrs[NDIRECT];
      IndirectInRange(meta, fs, owner, i);
      NoNewBits(fs, bmapstart);
      GrownRefl(fs, i);
      FullIff(fs);
      var addr := Word(fs.blocks[ind], j);
      if addr == 0 {
        r := Balloc();
        if r.None? { return; }
        addr := r.value;
        FreeBlock(meta, old(fs), owner, addr);
        assert fs.blocks[ind] == old(fs).blocks[ind];
        var a := PutWord(fs.blocks[ind], j, addr);
        fs := fs.(blocks := fs.blocks[ind := a]);
        logged := logged + {ind};
        owner := owner[addr := Entry(i, j)];
        assert fs == PutEntry(old(fs), i, addr, a);
        OneNewBit(old(fs), fs, addr, bmapstart);
        FreeAfter(old(fs), fs);
        PutEntryExact(meta, old(fs), old(owner), i, j, addr, a);
        PutEntryGrown(meta, old(fs), old(owner), i, j, addr, a);
      }
      r := Some(addr);
    }

    /** Disk block address of block bn of inode i; allocates it, and the indirect block, if missing. */
    method Bmap(i: nat, bn: nat) returns (r: Option<uint>)
      requires Shaped(fs) && Exact(meta, fs, owner) && i < |fs.inodes| && bn < MAXFILE
      modifies `fs, `logged, `owner
      ensures Shaped(fs) && Exact(meta, fs, owner) && Grown(old(fs), fs, i)
      ensures r.None? <==> |FreeSet(old(fs))| < Missing(old(fs), i, bn)
      ensures r.Some? ==> |FreeSet(fs)| == |FreeSet(old(fs))| - Missing(old(fs), i, bn)
      ensures r.Some? ==> r.value != 0 && Addr(fs, SlotOf(i, bn)) == r.value
      ensures Addr(old(fs), SlotOf(i, bn)) != 0 ==> r.Some? && fs == old(fs) && owner == old(owner) && logged == old(logged)
      ensures r.Some? ==> Mapped(old(fs), fs, i, bn) && logged == old(logged) + BmapLog(old(fs), fs, i, bn, bmapstart)
    {
      hide Exact, Grown, Full, BitBlocks, NewBits, BitsKept, FreeSet;
      hide OnlyBlock, Mapped, BmapLog;
      ghost var gs := fs;
      NoNewBits(gs, bmapstart);
      if bn < NDIRECT {
        r := FillPtr(i, bn);
        GrownSizes(gs, fs, i);
        if r.Some? { MappedOnce(gs, fs, i, bn, bmapstart); }
        return;
      }
      r := FillPtr(i, NDIRECT);
      if r.None? { return; }
      GrownSizes(gs, fs, i);
      ghost var hs := fs;
      assert Addr(hs, Entry(i, bn - NDIRECT)) == Addr(gs, Entry(i, bn - NDIRECT));
      r := FillEntry(i, bn - NDIRECT);
      GrownTrans(gs, hs, fs, i);
      GrownSizes(hs, fs, i);
      if r.None? { return; }
      MappedTwice(meta, gs, hs, fs, owner, i, bn, r.value, bmapstart);
    }

    /** iupdate: inode i on disk becomes what it is in memory. */
    method Iupdate(i: nat)
      requires i < |fs.inodes| == |dinodes|
      modifies `dinodes, `logged
      ensures dinodes == old(dinodes)[i := fs.inodes[i]]
      ensures logged == old(logged) + {i / IPB + inodestart}
    {
      dinodes := dinodes[i := fs.inodes[i]];
      logged := logged + {i / IPB + inodestart};
    }

    /** One round of writei's loop: as much of src[tot..] as goes into one block. */
    method WriteBlock(i: nat, src: seq<byte>, off: uint, tot: nat) returns (r: Option<nat>)
      requires Shaped(fs) && Exact(meta, fs, owner) && i < |fs.inodes| && tot < |src| && off + |src| <= MAXFILE * BSIZE
      modifies `fs, `logged, `owner
      ensures Shaped(fs) && Exact(meta, fs, owner) && Kept(old(fs), fs, i)
      ensures |fs.inodes| == |old(fs).inodes|
      ensures r.None? <==> |FreeSet(old(fs))| < Missing(old(fs), i, (off + tot) / BSIZE)
      ensures r.Some? ==>
                && r.value == Part(off, tot, |src|)
                && |FreeSet(fs)| == |FreeSet(old(fs))| - Missing(old(fs), i, (off + tot) / BSIZE)
                && Files(fs) == WriteFile(Files(old(fs)), i, off + tot, src[tot..tot + r.value])
                && AddrAt(fs, i, off + tot) != 0
                && Mapped(old(fs), fs, i, (off + tot) / BSIZE)
                && (AddrAt(old(fs), i, off + tot) != 0 ==> fs.inodes == old(fs).inodes)
                && logged == old(logged) + BmapLog(old(fs), fs, i, (off + tot) / BSIZE, bmapstart) + {AddrAt(fs, i, off + tot)}
    {
      hide Files, WriteFile, SameFileBlocks, Exact, BitBlocks, NewBits, BitsKept, FreeSet, Missing, Mapped, Addr;
      var bn := (off + tot) / BSIZE;
      var addr := Bmap(i, bn);
      if addr.None? {
        return None;
      }
      ghost var gs := fs;
      var o := (off + tot) % BSIZE;
      var m := if |src| - tot < BSIZE - o then |src| - tot else BSIZE - o;
      PutDataStep(meta, old(fs), fs, owner, i, off + tot, src[tot..tot + m]);
      var data := Splice(fs.blocks[addr.value], o, src[tot..tot + m]);
      fs := fs.(blocks := fs.blocks[addr.value := data]);
      logged := logged + {addr.value};
      MappedSame(old(fs), gs, fs, i, bn, bmapstart);
      SameBits(gs, fs);
      r := Some(m);
    }

    /** The loop of writei. */
    method WriteBlocks(i: nat, src: seq<byte>, off: uint) returns (ok: bool)
      requires Shaped(fs) && Exact(meta, fs, owner)
      requires i < |fs.inodes| && off <= fs.inodes[i].size && off + |src| <= MAXFILE * BSIZE
      modifies `fs, `logged, `owner
      ensures Shaped(fs) && Exact(meta, fs, owner) && Kept(old(fs), fs, i)
      ensures ok <==> |FreeSet(old(fs))| >= Lacking(old(fs), i, off, |src|)
      ensures ok ==> |FreeSet(fs)| == |FreeSet(old(fs))| - Lacking(old(fs), i, off, |src|)
      ensures ok ==> Files(fs) == WriteFile(Files(old(fs)), i, off, src)
      ensures ok ==> Reached(old(fs), fs, i, off, |src|) && OnlyTouched(old(fs), fs, i, off, |src|)
      ensures ok ==> logged == old(logged) + LoggedBy(old(fs), fs, i, off, |src|, bmapstart)
      ensures ok ==> exists rounds :: Writing(old(fs), fs, i, off, |src|, |src|, rounds)
    {
      hide Exact, Kept, Reached, Dense, Writing, Files, AddrAt, Splice, LoggedBy, BmapLog, Mapped, OnlyTouched, FreeSet, Missing, Lacking;
      ghost var rounds := 0;
      var tot := 0;
      WritingStart(fs, i, off, |src|, bmapstart);
      while tot < |src|
        invariant 0 <= tot <= |src|
        invariant Shaped(fs) && |fs.inodes| == |old(fs).inodes|
        invariant Exact(meta, fs, owner) && Writing(old(fs), fs, i, off, tot, |src|, rounds)
        invariant Files(fs) == WriteFile(Files(old(fs)), i, off, src[..tot])
        invariant logged == old(logged) + LoggedBy(old(fs), fs, i, off, tot, bmapstart)
        invariant |FreeSet(fs)| + Lacking(old(fs), i, off, |src|) == |FreeSet(old(fs))| + Lacking(fs, i, off + tot, |src| - tot)
      {
        ghost var gs := fs;
        MissingFirst(fs, i, off + tot, |src| - tot);
        var m := WriteBlock(i, src, off, tot);
        if m.None? {
          WritingKept(old(fs), gs, fs, i, off, tot, |src|, rounds);
          return false;
        }
        WriteMore(Files(old(fs)), i, off, src, tot, m.value);
        RoundDone(old(fs), gs, fs, i, off, tot, m.value, |src|, rounds, bmapstart);
        MappedLacking(gs, fs, i, off, tot, |src|);
        tot, rounds := tot + m.value, rounds + 1;
      }
      assert src[..tot] == src;
      assert Lacking(fs, i, off + tot, 0) == 0 by { LackingNone(fs, i, off + tot); }
      WritingBound(old(fs), fs, i, off, |src|, rounds, bmapstart);
      ok := true;
    }

    /** Write the n bytes of src to file i at offset off. */
    method Writei(i: nat, src: seq<byte>, off: uint, n: uint) returns (r: IoResult)
      requires Shaped(fs) && Exact(meta, fs, owner) && |dinodes| == |fs.inodes| && i < |fs.inodes| && |src| == n
      modifies `fs, `dinodes, `logged, `owner
      ensures r == Error <==> Refused(old(fs).inodes[i].size, off, n)
      ensures r == Error ==> fs == old(fs) && owner == old(owner) && dinodes == old(dinodes) && logged == old(logged)
      ensures r == Panic <==> !Refused(old(fs).inodes[i].size, off, n) && |FreeSet(old(fs))| < Lacking(old(fs), i, off, n)
      ensures r.Count? ==>
                && r.n == n && Shaped(fs) && Exact(meta, fs, owner) && |fs.inodes| == |old(fs).inodes| == |dinodes|
                && Files(fs) == WriteFile(Files(old(fs)), i, off, src)
                && Allocated(old(fs), fs, i, off, n) && |FreeSet(fs)| == |FreeSet(old(fs))| - Lacking(old(fs), i, off, n)
                && SameButFile(old(fs), fs, i, NewSize(old(fs).inodes[i].size, off, n))
                && (Dense(old(fs), i) ==> Dense(fs, i))
                && dinodes == WrittenBack(old(dinodes), old(fs), fs, i, off, n)
                && (old(dinodes) == old(fs).inodes ==>
                      (dinodes == fs.inodes <==> Grows(old(fs).inodes[i].size, off, n) || !LacksPointer(old(fs), i, off, n)))
                && logged == old(logged) + WriteLog(old(fs), fs, i, off, n, bmapstart, inodestart)
                && Wrote(old(fs), fs, i, off, n)
                && (Dense(old(fs), i) && n <= CHUNK ==>
                      |WriteLog(old(fs), fs, i, off, n, bmapstart, inodestart)| <= MAXOPBLOCKS)
    {
      hide Exact, Dense, Files, WriteFile, LoggedBy, Reached, OnlyTouched, WriteLog, Kept, FreeSet, Lacking, Allocated, Writing, Wrote, LacksPointer;
      if off > fs.inodes[i].size || (off + n) % TWO32 < off {
        return Error;
      }
      if off + n > MAXFILE * BSIZE {
        return Error;
      }
      var ok := WriteBlocks(i, src, off);
      if !ok {
        return Panic;
      }
      ghost var gs := fs;
      WriteDone(meta, old(fs), gs, owner, i, off, n, bmapstart, inodestart);
      if n > 0 && off + n > fs.inodes[i].size {
        fs := fs.(inodes := fs.inodes[i := fs.inodes[i].(size := off + n)]);
        Iupdate(i);
      }
      assert fs == Resized(gs, i, NewSize(old(fs).inodes[i].size, off, n));
      r := Count(n);
    }

    /** Read up to n bytes of file i from offset off. */
    method Readi(i: nat, off: uint, n: uint) returns (r: IoResult, dst: seq<byte>)
      requires Shaped(fs) && Exact(meta, fs, owner) && i < |fs.inodes| && fs.inodes[i].size <= MAXFILE * BSIZE
      modifies `fs, `logged, `owner
      ensures r == Error <==> off > old(fs).inodes[i].size || (off + n) % TWO32 < off
      ensures r == Error ==> fs == old(fs) && owner == old(owner) && logged == old(logged)
      ensures r == Panic <==> r != Error && |FreeSet(old(fs))| < Lacking(old(fs), i, off, Clipped(old(fs).inodes[i].size, off, n))
      ensures r.Count? ==>
                && r.n == Clipped(old(fs).inodes[i].size, off, n) <= n && (r.n < n ==> off + r.n == old(fs).inodes[i].size)
                && dst == Files(old(fs))[i][off..off + r.n]
                && Shaped(fs) && Exact(meta, fs, owner) && Looked(old(fs), fs, i, off, r.n)
                && |fs.inodes| == |old(fs).inodes| && logged == old(logged) + MapLog(old(fs), fs, i, off, r.n, bmapstart)
                && (dinodes == old(fs).inodes ==> (dinodes == fs.inodes <==> !LacksPointer(old(fs), i, off, r.n)))
      ensures Dense(old(fs), i) ==> r != Panic && fs == old(fs) && owner == old(owner) && logged == old(logged)
    {
      hide Exact, Dense, Files, Looked, FreeSet, Lacking, MapLog, LacksPointer;
      if off > fs.inodes[i].size || (off + n) % TWO32 < off {
        return Error, [];
      }
      var count := if off + n > fs.inodes[i].size then fs.inodes[i].size - off else n;
      DenseLacksNone(fs, i, off, count);
      var ok;
      ok, dst := ReadBlocks(i, off, count);
      if ok { LookedPointers(old(fs), fs, i, off, count); }
      r := if ok then Count(count) else Panic;
    }

    /** What was written is what is read back, and nothing more has to be allocated for it. */
    method WriteRead(i: nat, src: seq<byte>, off: uint) returns (w: IoResult, r: IoResult, dst: seq<byte>)
      requires Shaped(fs) && Exact(meta, fs, owner) && |dinodes| == |fs.inodes| && i < |fs.inodes| && |src| < TWO32
      requires fs.inodes[i].size <= MAXFILE * BSIZE
      modifies `fs, `dinodes, `logged, `owner
      ensures w.Count? ==> r == Count(|src|) && dst == src
    {
      hide Exact, Dense, Files, WriteFile, WriteLog, FreeSet, Lacking, Allocated, Wrote, LacksPointer, SameButFile, WrittenBack, Looked, MapLog;
      w := Writei(i, src, off, |src|);
      r, dst := Error, [];
      if w.Count? {
        WrittenBytes(old(fs), fs, i, off, src);
        r, dst := Readi(i, off, |src|);
      }
    }

    /** The loop of readi. */
    method ReadBlocks(i: nat, off: uint, n: uint) returns (ok: bool, dst: seq<byte>)
      requires Shaped(fs) && Exact(meta, fs, owner) && i < |fs.inodes| && off + n <= fs.inodes[i].size <= MAXFILE * BSIZE
      modifies `fs, `logged, `owner
      ensures ok <==> |FreeSet(old(fs))| >= Lacking(old(fs), i, off, n)
      ensures ok ==>
                && Shaped(fs) && Exact(meta, fs, owner) && Looked(old(fs), fs, i, off, n) && |fs.inodes| == |old(fs).inodes|
                && dst == Files(old(fs))[i][off..off + n] && logged == old(logged) + MapLog(old(fs), fs, i, off, n, bmapstart)
      ensures Dense(old(fs), i) ==> fs == old(fs) && owner == old(owner) && logged == old(logged)
    {
      hide Exact, Dense, Files, Looked, FreeSet, Lacking, MapLog, BmapLog, Part;
      dst := [];
      var tot := 0;
      LookedSelf(fs, i, off);
      MapLogNone(fs, i, off, bmapstart);
      while tot < n
        invariant 0 <= tot <= n && |dst| == tot
        invariant Shaped(fs) && Exact(meta, fs, owner) && Looked(old(fs), fs, i, off, tot)
        invariant |fs.inodes| == |old(fs).inodes| && fs.inodes[i].size == old(fs).inodes[i].size && Files(fs) == Files(old(fs))
        invariant dst == Files(old(fs))[i][off..off + tot]
        invariant logged == old(logged) + MapLog(old(fs), fs, i, off, tot, bmapstart) && (0 < tot < n ==> (off + tot) % BSIZE == 0)
        invariant Dense(old(fs), i) ==> fs == old(fs) && owner == old(owner) && logged == old(logged)
      {
        ghost var gs, next := fs, tot + Part(off, tot, n);
        LookedRoom(old(fs), fs, i, off, tot, next, n);
        var m, part := ReadBlock(i, off, tot, n);
        if m.None? {
          return false, [];
        }
        LookedMore(old(fs), gs, fs, i, off, tot, next);
        LookedLog(old(fs), gs, fs, i, off, tot, n, bmapstart);
        LookedSame(gs, fs, i, off + tot, m.value);
        SlicesMeet(Files(old(fs))[i], off, off + tot, off + tot + m.value);
        dst := dst + part;
        tot := tot + m.value;
      }
      LookedEnough(old(fs), fs, i, off, n);
      ok := true;
    }

    /** One round of readi's loop. */
    method ReadBlock(i: nat, off: uint, tot: nat, n: uint) returns (r: Option<nat>, part: seq<byte>)
      requires Shaped(fs) && Exact(meta, fs, owner)
      requires i < |fs.inodes| && tot < n && off + n <= fs.inodes[i].size <= MAXFILE * BSIZE
      modifies `fs, `logged, `owner
      ensures Shaped(fs) && Exact(meta, fs, owner)
      ensures r.None? <==> |FreeSet(old(fs))| < Lacking(old(fs), i, off + tot, Part(off, tot, n))
      ensures r.Some? ==>
                && r.value == Part(off, tot, n) == |part| && Looked(old(fs), fs, i, off + tot, r.value)
                && |fs.inodes| == |old(fs).inodes| && logged == old(logged) + BmapLog(old(fs), fs, i, (off + tot) / BSIZE, bmapstart)
                && part == Files(old(fs))[i][off + tot..off + tot + r.value]
      ensures Dense(old(fs), i) ==> r.Some? && fs == old(fs) && owner == old(owner) && logged == old(logged)
    {
      hide Files, Exact, Mapped, BmapLog, Dense, FreeSet, Kept, Missing, Lacking, Allocated;
      var bn := (off + tot) / BSIZE;
      DenseAt(fs, i, bn);
      LackingOne(fs, i, off + tot, Part(off, tot, n));
      var addr := Bmap(i, bn);
      GrownFiles(old(fs), fs, i);
      if addr.None? {
        return None, [];
      }
      var o := (off + tot) % BSIZE;
      var m := if n - tot < BSIZE - o then n - tot else BSIZE - o;
      ReadPart(meta, fs, owner, i, off + tot, m);
      MappedAllocated(old(fs), fs, i, off + tot, m);
      part := fs.blocks[addr.value][o..o + m];
      r := Some(m);
    }

    /** Free a disk block; panics on a block that is already free. */
    method Bfree(b: uint) returns (panicked: bool)
      requires b < |fs.bitmap|
      modifies `fs, `logged
      ensures panicked <==> !old(fs).bitmap[b]
      ensures panicked ==> fs == old(fs)
      ensures !panicked ==> fs == old(fs).(bitmap := old(fs).bitmap[b := false])
      ensures logged == old(logged) + if panicked then {} else {b / BPB + bmapstart}
    {
      if !fs.bitmap[b] {
        return true;
      }
      fs := fs.(bitmap := fs.bitmap[b := false]);
      logged := logged + {b / BPB + bmapstart};
      panicked := false;
    }

    /** The first loop of itrunc: free the direct blocks. */
    method TruncDirect(i: nat)
      requires Shaped(fs) && Exact(meta, fs, owner) && i < |fs.inodes|
      modifies `fs, `owner, `logged
      ensures Shaped(fs) && Exact(meta, fs, owner) && DirectFreed(old(fs), fs, old(owner), owner, i, NDIRECT)
      ensures BitsKept(fs, old(fs)) && logged == old(logged) + ClearLog(old(fs), fs, bmapstart)
    {
      hide Exact, DirectFreed, ClearLog, BitsKept;
      DirectNoneFreed(fs, owner, i);
      ClearNone(fs, bmapstart);
      var k := 0;
      while k < NDIRECT
        invariant 0 <= k <= NDIRECT
        invariant Shaped(fs) && Exact(meta, fs, owner) && DirectFreed(old(fs), fs, old(owner), owner, i, k)
        invariant BitsKept(fs, old(fs)) && logged == old(logged) + ClearLog(old(fs), fs, bmapstart)
      {
        DirectFreedStep(meta, old(fs), fs, old(owner), owner, i, k);
        var a := fs.inodes[i].addrs[k];
        if a != 0 {
          ghost var gs := fs;
          FreePtrExact(meta, fs, owner, i, k);
          var panicked := Bfree(a);
          assert !panicked;
          fs := fs.(inodes := fs.inodes[i := fs.inodes[i].(addrs := fs.inodes[i].addrs[k := 0])]);
          owner := owner - {a};
          assert fs == FreePtr(gs, i, k);
          ClearMore(old(fs), gs, fs, a, bmapstart);
        }
        k := k + 1;
      }
    }

    /** The second half of itrunc: free everything under the indirect block. */
    method TruncIndirect(i: nat)
      requires Exact(meta, fs, owner) && i < |fs.inodes| && Addr(fs, Ptr(i, NDIRECT)) != 0
      modifies `fs, `owner, `logged
      ensures Shaped(fs) && Exact(meta, fs, owner) && owner == WithoutIndirect(old(owner), i)
      ensures BitsKept(fs, old(fs)) && logged == old(logged) + ClearLog(old(fs), fs, bmapstart)
      ensures fs.blocks == old(fs).blocks
      ensures fs.inodes == old(fs).inodes[i := old(fs).inodes[i].(addrs := old(fs).inodes[i].addrs[NDIRECT := 0])]
    {
      hide EntriesFreed, ClearedIndirect, ClearLog, BitsKept;
      ClearNone(fs, bmapstart);
      var ind := fs.inodes[i].addrs[NDIRECT];
      EntriesNoneFreed(fs, owner, i);
      assert ValidSlot(fs, Ptr(i, NDIRECT)) && Addr(fs, Ptr(i, NDIRECT)) == ind;
      var a := fs.blocks[ind];
      var j := 0;
      while j < NINDIRECT
        invariant 0 <= j <= NINDIRECT
        invariant owner == old(owner)
        invariant fs == old(fs).(bitmap := fs.bitmap) && EntriesFreed(old(fs), owner, i, j, fs.bitmap)
        invariant BitsKept(fs, old(fs)) && logged == old(logged) + ClearLog(old(fs), fs, bmapstart)
      {
        EntriesFreedStep(meta, old(fs), owner, i, j, fs.bitmap);
        assert Addr(old(fs), Entry(i, j)) == Word(a, j);
        if Word(a, j) != 0 {
          ghost var gs := fs;
          var panicked := Bfree(Word(a, j));
          assert !panicked;
          ClearMore(old(fs), gs, fs, Word(a, j), bmapstart);
        }
        j := j + 1;
      }
      EntriesAllFreed(meta, old(fs), owner, i, fs.bitmap);
      ghost var gs := fs;
      var panicked := Bfree(ind);
      assert !panicked;
      ClearMore(old(fs), gs, fs, ind, bmapstart);
      ghost var hs := fs;
      FreeIndirectExact(meta, old(fs), owner, i, fs.bitmap);
      fs := fs.(inodes := fs.inodes[i := fs.inodes[i].(addrs := fs.inodes[i].addrs[NDIRECT := 0])]);
      ClearSame(old(fs), hs, fs, bmapstart);
      owner := WithoutIndirect(owner, i);
    }

    /**
     Discard the contents of inode i.  Frees exactly the blocks its slots refer to, never one that
     is already free, and changes no other file.
     */
    method Itrunc(i: nat)
      requires Shaped(fs) && Exact(meta, fs, owner) && i < |fs.inodes| == |dinodes|
      modifies `fs, `dinodes, `owner, `logged
      ensures Shaped(fs) && Exact(meta, fs, owner) && Disowned(old(owner), owner, i)
      ensures |fs.inodes| == |old(fs).inodes|
      ensures forall l :: 0 <= l <= NDIRECT ==> fs.inodes[i].addrs[l] == 0
      ensures fs.inodes[i] == old(fs).inodes[i].(size := 0, addrs := fs.inodes[i].addrs)
      ensures forall i' :: 0 <= i' < |fs.inodes| && i' != i ==>
                fs.inodes[i'] == old(fs).inodes[i'] && Files(fs)[i'] == Files(old(fs))[i']
      ensures dinodes == old(dinodes)[i := fs.inodes[i]]
      ensures BitsKept(fs, old(fs)) && logged == old(logged) + ClearLog(old(fs), fs, bmapstart) + {i / IPB + inodestart}
    {
      hide Exact, Files, ClearLog, BitsKept;
      TruncDirect(i);
      ghost var gs := fs;
      AllFreed(meta, old(fs), fs, old(owner), owner, i);
      if fs.inodes[i].addrs[NDIRECT] != 0 {
        assert Addr(fs, Ptr(i, NDIRECT)) != 0;
        TruncIndirect(i);
        ClearTrans(old(fs), gs, fs, bmapstart);
      }
      ghost var hs := fs;
      SetSize(meta, fs, owner, i, 0);
      fs := fs.(inodes := fs.inodes[i := fs.inodes[i].(size := 0)]);
      ClearSame(old(fs), hs, fs, bmapstart);
      Iupdate(i);
      forall i' | 0 <= i' < |fs.inodes| && i' != i ensures Files(fs)[i'] == Files(old(fs))[i'] {
        SameFile(old(fs), fs, i');
      }
    }

    /** One transaction of filewrite: begin_op, writei of at most CHUNK bytes, end_op. */
    method WriteChunk(i: nat, src: seq<byte>, off: uint) returns (r: IoResult)
      requires Shaped(fs) && Exact(meta, fs, owner) && i < |fs.inodes| == |dinodes| && 0 < |src| <= CHUNK
      modifies `fs, `dinodes, `logged, `owner
      ensures r == Error <==> Refused(old(fs).inodes[i].size, off, |src|)
      ensures r == Error ==> fs == old(fs) && owner == old(owner) && dinodes == old(dinodes)
      ensures r == Panic <==>
                !Refused(old(fs).inodes[i].size, off, |src|) && |FreeSet(old(fs))| < Lacking(old(fs), i, off, |src|)
      ensures r.Count? ==>
                && r.n == |src| && Shaped(fs) && Exact(meta, fs, owner) && |fs.inodes| == |old(fs).inodes| == |dinodes|
                && Files(fs) == WriteFile(Files(old(fs)), i, off, src)
                && SameButFile(old(fs), fs, i, NewSize(old(fs).inodes[i].size, off, |src|))
                && (Dense(old(fs), i) ==> Dense(fs, i))
                && dinodes == WrittenBack(old(dinodes), old(fs), fs, i, off, |src|)
                && (old(dinodes) == old(fs).inodes ==>
                      (dinodes == fs.inodes <==> Grows(old(fs).inodes[i].size, off, |src|) || !LacksPointer(old(fs), i, off, |src|)))
                && logged == WriteLog(old(fs), fs, i, off, |src|, bmapstart, inodestart) && Wrote(old(fs), fs, i, off, |src|)
                && Allocated(old(fs), fs, i, off, |src|)
                && |FreeSet(fs)| == |FreeSet(old(fs))| - Lacking(old(fs), i, off, |src|)
                && (Dense(old(fs), i) ==> |logged| <= MAXOPBLOCKS)
    {
      hide Exact, Dense, Files, WriteFile, WriteLog, FreeSet, Lacking, Allocated, Wrote, LacksPointer, SameButFile, WrittenBack;
      logged := {};
      r := Writei(i, src, off, |src|);
    }

    /** filewrite on an open file: writes in chunks, each a transaction of its own. */
    method FileWrite(i: nat, addr: seq<byte>, off: uint, n: int) returns (r: WriteResult, off': uint)
      requires Shaped(fs) && Exact(meta, fs, owner) && i < |fs.inodes| == |dinodes| && n <= |addr|
      modifies `fs, `dinodes, `logged, `owner
      ensures var count := Accepted(old(fs).inodes[i].size, off, n);
              && (r == Panicked <==> |FreeSet(old(fs))| < Lacking(old(fs), i, off, count))
              && (r == Written <==> r != Panicked && count == n)
              && (r != Panicked ==>
                    && off' == off + count && Shaped(fs) && Exact(meta, fs, owner) && |fs.inodes| == |old(fs).inodes|
                    && Files(fs) == WriteFile(Files(old(fs)), i, off, addr[..count])
                    && SameButFile(old(fs), fs, i, NewSize(old(fs).inodes[i].size, off, count))
                    && (Dense(old(fs), i) ==> Dense(fs, i)) && |dinodes| == |fs.inodes|
                    && dinodes == WrittenBack(old(dinodes), old(fs), fs, i, off, count)
                    && (old(dinodes) == old(fs).inodes ==>
                          (dinodes == fs.inodes <==>
                           Grows(old(fs).inodes[i].size, off, count) || !LacksPointer(old(fs), i, off, count))))
    {
      hide Exact, Dense, Files, WriteFile, WriteLog, FreeSet, Lacking, Allocated, Refused, Accepted, NewSize, Wrote, Spent, LacksPointer, SameButFile, WrittenBack, Came, Grows;
      off' := off;
      var done := 0;
      ghost var count := Accepted(fs.inodes[i].size, off, n);
      WriteNone(Files(fs), i, off, addr);
      SpentNone(fs, i, off, count);
      CameNone(fs, dinodes, i, off);
      while done < n
        invariant 0 <= done <= count && off' == off + done
        invariant Shaped(fs) && Exact(meta, fs, owner) && |fs.inodes| == |old(fs).inodes| == |dinodes|
        invariant count == done + Accepted(fs.inodes[i].size, off', n - done) && (count == 0 || off + count <= MAXFILE * BSIZE)
        invariant Spent(old(fs), fs, i, off, count, done)
        invariant Files(fs) == WriteFile(Files(old(fs)), i, off, addr[..done])
        invariant Dense(old(fs), i) ==> Dense(fs, i)
        invariant Came(old(fs), old(dinodes), fs, dinodes, i, off, done)
      {
        var n1 := n - done;
        if n1 > CHUNK {
          n1 := CHUNK;
        }
        ghost var gs, d := fs, dinodes;
        AcceptedStep(fs.inodes[i].size, off', n - done);
        if !Refused(fs.inodes[i].size, off', n1) { SpentFail(old(fs), fs, i, off, count, done, n1); }
        var w := WriteChunk(i, addr[done..done + n1], off');
        if w == Panic {
          return Panicked, off';
        }
        if w == Error {
          break;
        }
        SpentMore(old(fs), gs, fs, i, off, count, done, n1);
        CameMore(old(fs), old(dinodes), gs, d, fs, dinodes, i, off, done, n1);
        WriteMore(Files(old(fs)), i, off, addr, done, n1);
        off' := off' + w.n;
        done := done + w.n;
      }
      SpentAll(old(fs), fs, i, off, count);
      CameAll(old(fs), old(dinodes), fs, dinodes, i, off, done);
      r := if done == n then Written else Failed;
    }
  }

  /** What done bytes of filewrite make of file i and of its inode on disk. */
  ghost predicate Came(fs: Fs, d: seq<Inode>, gs: Fs, e: seq<Inode>, i: nat, off: nat, done: nat) {
    && Shaped(fs) && Shaped(gs) && i < |fs.inodes| == |gs.inodes| == |d| == |e| && (done == 0 || off + done <= MAXFILE * BSIZE)
    && Allocated(fs, gs, i, off, done) && SameButFile(fs, gs, i, NewSize(fs.inodes[i].size, off, done))
    && e == WrittenBack(d, fs, gs, i, off, done)
  }

  lemma CameNone(fs: Fs, d: seq<Inode>, i: nat, off: nat)
    requires Shaped(fs) && i < |fs.inodes| == |d|
    ensures Came(fs, d, fs, d, i, off, 0)
  {
    AllocatedSelf(fs, i, off);
  }

  lemma CameMore(fs: Fs, d: seq<Inode>, gs: Fs, e: seq<Inode>, hs: Fs, e': seq<Inode>, i: nat, off: nat, done: nat, n: nat)
    requires Came(fs, d, gs, e, i, off, done) && 0 < n && off + done + n <= MAXFILE * BSIZE && Allocated(gs, hs, i, off + done, n)
    requires SameButFile(gs, hs, i, NewSize(gs.inodes[i].size, off + done, n)) && e' == WrittenBack(e, gs, hs, i, off + done, n)
    ensures Came(fs, d, hs, e', i, off, done + n) && hs.inodes[i].size == NewSize(gs.inodes[i].size, off + done, n)
  {
    AllocatedTrans(fs, gs, hs, i, off, done, done + n);
    assert d[i := gs.inodes[i]][i := hs.inodes[i]] == d[i := hs.inodes[i]];
    hide Allocated;
  }

  lemma CameAll(fs: Fs, d: seq<Inode>, gs: Fs, e: seq<Inode>, i: nat, off: nat, n: nat)
    requires Came(fs, d, gs, e, i, off, n)
    ensures SameButFile(fs, gs, i, NewSize(fs.inodes[i].size, off, n)) && e == WrittenBack(d, fs, gs, i, off, n)
    ensures d == fs.inodes ==> (e == gs.inodes <==> Grows(fs.inodes[i].size, off, n) || !LacksPointer(fs, i, off, n))
  {
    hide Allocated, LacksPointer, WrittenBack, SameButFile, Grows;
    WrittenBackIff(fs, gs, i, off, n);
  }

  /** filewrite is done bytes into the count it will take, and has spent the blocks they lacked. */
  ghost predicate Spent(fs: Fs, gs: Fs, i: nat, off: nat, count: nat, done: nat) {
    && Shaped(fs) && Shaped(gs) && i < |fs.inodes| == |gs.inodes| && done <= count && (count == 0 || off + count <= MAXFILE * BSIZE)
    && |FreeSet(gs)| + Lacking(fs, i, off, count) == |FreeSet(fs)| + Lacking(gs, i, off + done, count - done)
  }

  lemma SpentNone(fs: Fs, i: nat, off: nat, count: nat)
    requires Shaped(fs) && i < |fs.inodes| && (count == 0 || off + count <= MAXFILE * BSIZE)
    ensures Spent(fs, fs, i, off, count, 0)
  {
  }

  lemma SpentMore(fs: Fs, gs: Fs, hs: Fs, i: nat, off: nat, count: nat, done: nat, m: nat)
    requires Spent(fs, gs, i, off, count, done) && Allocated(gs, hs, i, off + done, m) && 0 < m && done + m <= count
    requires |FreeSet(hs)| == |FreeSet(gs)| - Lacking(gs, i, off + done, m)
    ensures Spent(fs, hs, i, off, count, done + m)
  {
    hide FreeSet, Lacking;
    LackingSplit(gs, hs, i, off + done, m, count - done);
  }

  /** A chunk that lacks more than is free shows that the whole did. */
  lemma SpentFail(fs: Fs, gs: Fs, i: nat, off: nat, count: nat, done: nat, m: nat)
    requires Spent(fs, gs, i, off, count, done) && 0 < m && done + m <= count
    ensures |FreeSet(gs)| < Lacking(gs, i, off + done, m) ==> |FreeSet(fs)| < Lacking(fs, i, off, count)
  {
    hide FreeSet, Lacking;
    LackingMono(gs, i, off + done, m, count - done);
  }

  lemma SpentAll(fs: Fs, gs: Fs, i: nat, off: nat, count: nat)
    requires Spent(fs, gs, i, off, count, count)
    ensures |FreeSet(fs)| >= Lacking(fs, i, off, count)
  {
  }

  /** How many of n bytes at off filewrite takes: whole chunks, up to the first one that writei refuses. */
  function Accepted(size: uint, off: uint, n: int): (r: nat)
    ensures r <= (if n <= 0 then 0 else n) && (r == 0 || off + r <= MAXFILE * BSIZE)
    decreases n
  {
    if n <= 0 || Refused(size, off, NextChunk(n)) then 0
    else NextChunk(n) + Accepted(NewSize(size, off, NextChunk(n)), off + NextChunk(n), n - NextChunk(n))
  }

  lemma AcceptedStep(size: uint, off: uint, n: int)
    ensures n > 0 && Refused(size, off, NextChunk(n)) ==> Accepted(size, off, n) == 0
    ensures n > 0 && !Refused(size, off, NextChunk(n)) ==>
              && off + NextChunk(n) <= MAXFILE * BSIZE && Accepted(size, off, n)
              == NextChunk(n) + Accepted(NewSize(size, off, NextChunk(n)), off + NextChunk(n), n - NextChunk(n))
  {
  }

  /** writei refuses exactly offsets past the end and writes past the largest file; the check for overflow adds nothing to that. */
  lemma RefusedIff(size: uint, off: uint, n: nat)
    requires n < TWO32
    ensures Refused(size, off, n) <==> off > size || off + n > MAXFILE * BSIZE
  {
  }

  /**
   How much filewrite takes: all of it if it fits the largest file, else as many whole chunks of
   1536 bytes, which is what a transaction has room for, as do.
   */
  lemma {:induction false} AcceptedIs(size: uint, off: uint, n: int)
    ensures Accepted(size, off, n) ==
            if n <= 0 || off > size || off > MAXFILE * BSIZE then 0
            else if off + n <= MAXFILE * BSIZE then n
            else (MAXFILE * BSIZE - off) / 1536 * 1536
    decreases n
  {
    if n > 0 {
      var m := NextChunk(n);
      RefusedIff(size, off, m);
      if !Refused(size, off, m) { AcceptedIs(NewSize(size, off, m), off + m, n - m); }
    }
  }
}
