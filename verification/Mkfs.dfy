/** The first file system image, as mkfs.c builds it. */
module Mkfs {
  import opened Base
  import opened FsModel
  import FileSystem

  const NINODES := 200            // what the super block says
  const FSSIZE := 1000
  const INODESTART := 2 + LOGSIZE
  const BMAPSTART := INODESTART + NINODES / 8 + 1
  /** Boot and super block, log, inode blocks, bitmap. */
  const NMETA := BMAPSTART + FSSIZE / 4096 + 1
  /** Inodes that the inode blocks have room for. */
  const NSLOTS := 8 * (NINODES / 8 + 1)

  /** The bitmap in which exactly the blocks below n are in use. */
  function Used(n: nat, size: nat): (r: seq<bool>)
    ensures |r| == size && forall b :: 0 <= b < size ==> r[b] == (b < n)
  {
    seq(size, b => b < n)
  }

  lemma UsedMore(n: nat, size: nat)
    requires n < size
    ensures Used(n + 1, size) == Used(n, size)[n := true]
  {
  }

  function NewInode(typ: int, nlink: int): Inode { Inode(typ, nlink, 0, seq(NDIRECT + 1, _ => 0)) }

  /** Blocks that hold n bytes. */
  function Blocks(n: nat): nat { (n + BSIZE - 1) / BSIZE }

  /** Blocks a file of n bytes takes: those of its bytes, and the indirect block from the twelfth on. */
  function Need(n: nat): nat { Blocks(n) + if Blocks(n) > NDIRECT then 1 else 0 }

  lemma NeedMono(m: nat, n: nat)
    requires m <= n
    ensures Need(m) <= Need(n)
  {
  }

  function NeedAll(data: seq<seq<byte>>): nat {
    if data == [] then 0 else NeedAll(data[..|data| - 1]) + Need(|data[|data| - 1]|)
  }

  /** Bytes of a root directory that lists n files. */
  function RootBytes(n: nat): nat { DIRENT * (n + 2) }

  /** No file is too large, and they fit the image together with the root directory. */
  predicate Fits(data: seq<seq<byte>>) {
    && (forall k :: 0 <= k < |data| ==> |data[k]| <= MAXFILE * BSIZE)
    && NMETA + Need(RootBytes(|data|)) + NeedAll(data) <= FSSIZE
  }

  lemma NeedAllMore(data: seq<seq<byte>>, k: nat)
    requires k < |data|
    ensures NeedAll(data[..k + 1]) == NeedAll(data[..k]) + Need(|data[k]|)
  {
    assert data[..k + 1][..k] == data[..k];
  }

  lemma {:induction false} NeedAllMono(data: seq<seq<byte>>, k: nat)
    requires k <= |data|
    ensures NeedAll(data[..k]) <= NeedAll(data)
    decreases |data|
  {
    if k < |data| {
      NeedAllMono(data[..|data| - 1], k);
      assert data[..|data| - 1][..k] == data[..k];
    } else {
      assert data[..k] == data;
    }
  }

  lemma FitsPrefix(data: seq<seq<byte>>, k: nat)
    requires k <= |data| && Fits(data)
    ensures Fits(data[..k])
  {
    NeedAllMono(data, k);
    NeedMono(RootBytes(k), RootBytes(|data|));
  }

  /** Seven files of the largest size do not fit. */
  lemma SevenLargeFiles(data: seq<seq<byte>>)
    requires |data| == 7 && forall k :: 0 <= k < 7 ==> |data[k]| == MAXFILE * BSIZE
    ensures !Fits(data)
  {
    assert NeedAll(data[..0]) == 0;
    NeedAllMore(data, 0); NeedAllMore(data, 1); NeedAllMore(data, 2); NeedAllMore(data, 3);
    NeedAllMore(data, 4); NeedAllMore(data, 5); NeedAllMore(data, 6);
    assert data[..7] == data;
  }

  // ---------------------------------------------------------------- inodes past the inode blocks

  /** The block winode and rinode use for an inode. */
  function InodeBlock(inum: nat): nat { inum / 8 + INODESTART }

  /** ialloc's counter has no bound: from NSLOTS on its inodes lie in the bitmap and the data blocks. */
  lemma InodeBlockIff(inum: nat)
    ensures InodeBlock(inum) < BMAPSTART <==> inum < NSLOTS
    ensures InodeBlock(inum) == BMAPSTART <==> NSLOTS <= inum < NSLOTS + 8
  {
  }

  function Value(bits: seq<bool>): nat {
    if bits == [] then 0 else (if bits[0] then 1 else 0) + 2 * Value(bits[1..])
  }

  lemma {:induction false} ValueOnes(bits: seq<bool>, p: nat)
    requires (forall k :: 0 <= k < |bits| ==> bits[k]) && p == Pow2(|bits|)
    ensures Value(bits) == p - 1
  {
    if bits != [] { ValueOnes(bits[1..], p / 2); }
  }

  function Pow2(n: nat): nat { if n == 0 then 1 else 2 * Pow2(n - 1) }

  /**
   Inode NSLOTS is the start of the bitmap block.  Once the bitmap is written there, its type is
   0xffff, whatever was stored before: the file is lost.
   */
  lemma LostInode(used: nat)
    requires NMETA <= used
    ensures InodeBlock(NSLOTS) == BMAPSTART && NSLOTS % 8 == 0
    ensures Value(Used(used, 8 * BSIZE)[..16]) == 0xffff != T_FILE
  {
    assert Pow2(4) == 16 && Pow2(8) == 256 && Pow2(12) == 4096 && Pow2(16) == 65536;
    ValueOnes(Used(used, 8 * BSIZE)[..16], 65536);
  }

  // ---------------------------------------------------------------- appending

  /** Every block of file i below byte end is allocated. */
  ghost predicate DenseTo(fs: Fs, i: nat, end: nat)
    requires Shaped(fs) && i < |fs.inodes|
  {
    forall bn :: 0 <= bn < MAXFILE && bn * BSIZE < end ==> Addr(fs, SlotOf(i, bn)) != 0
  }

  /** No block of file i at or beyond byte end is allocated, nor an indirect block it does not need. */
  ghost predicate TightTo(fs: Fs, i: nat, end: nat)
    requires Shaped(fs) && i < |fs.inodes|
  {
    && (forall bn :: 0 <= bn < MAXFILE && bn * BSIZE >= end ==> Addr(fs, SlotOf(i, bn)) == 0)
    && (end <= NDIRECT * BSIZE ==> fs.inodes[i].addrs[NDIRECT] == 0)
  }

  /** The slots missing at the end of a file are what its need grows by. */
  lemma MissingIs(fs: Fs, i: nat, off: nat, m: nat)
    requires Shaped(fs) && i < |fs.inodes| && DenseTo(fs, i, off) && TightTo(fs, i, off)
    requires 0 < m && off + m <= MAXFILE * BSIZE && off / BSIZE == (off + m - 1) / BSIZE
    ensures Need(off) + Missing(fs, i, off / BSIZE) == Need(off + m)
  {
    var bn := off / BSIZE;
    assert Blocks(off + m) == bn + 1;
    if off % BSIZE == 0 {
      assert Blocks(off) == bn && Addr(fs, SlotOf(i, bn)) == 0;
      if bn > NDIRECT {
        assert Addr(fs, SlotOf(i, bn - 1)) != 0;
      }
    } else {
      assert Blocks(off) == bn + 1 && Addr(fs, SlotOf(i, bn)) != 0;
    }
  }

  /** Only slot t may hold a new address. */
  ghost predicate OneSlot(fs: Fs, gs: Fs, t: Slot)
    requires Shaped(fs) && Shaped(gs) && |gs.inodes| == |fs.inodes|
  {
    forall s :: ValidSlot(fs, s) && s != t ==> Addr(gs, s) == Addr(fs, s)
  }

  /** Only block bn of file i, and its indirect block if bn needs it, may have a new address. */
  ghost predicate OneBlock(fs: Fs, gs: Fs, i: nat, bn: nat)
    requires Shaped(fs) && Shaped(gs) && |gs.inodes| == |fs.inodes|
  {
    forall s :: ValidSlot(fs, s) && s != SlotOf(i, bn) && (s == Ptr(i, NDIRECT) ==> bn < NDIRECT) ==> Addr(gs, s) == Addr(fs, s)
  }

  /** No block of another file has a new address. */
  ghost predicate OthersSame(fs: Fs, gs: Fs, i: nat)
    requires Shaped(fs) && Shaped(gs) && |gs.inodes| == |fs.inodes|
  {
    forall e, c :: 0 <= e < |fs.inodes| && e != i && 0 <= c < MAXFILE ==> Addr(gs, SlotOf(e, c)) == Addr(fs, SlotOf(e, c))
  }

  lemma PutPtrSame(meta: nat, fs: Fs, owner: map<uint, Slot>, i: nat, k: nat, b: uint)
    requires Exact(meta, fs, owner) && i < |fs.inodes| && k <= NDIRECT
    requires b < |fs.blocks| && !fs.bitmap[b] && Addr(fs, Ptr(i, k)) == 0
    ensures OneSlot(fs, PutPtr(fs, i, k, b), Ptr(i, k))
  {
    forall s | ValidSlot(fs, s) && s != Ptr(i, k) ensures Addr(PutPtr(fs, i, k, b), s) == Addr(fs, s) {
      PutPtrAddr(meta, fs, owner, i, k, b, s);
    }
  }

  lemma PutEntrySame(meta: nat, fs: Fs, owner: map<uint, Slot>, i: nat, j: nat, b: uint, ind: Block)
    requires CanPutEntry(meta, fs, owner, i, j, b, ind)
    ensures OneSlot(fs, PutEntry(fs, i, b, ind), Entry(i, j))
  {
    forall s | ValidSlot(fs, s) && s != Entry(i, j) ensures Addr(PutEntry(fs, i, b, ind), s) == Addr(fs, s) {
      PutEntryAddr(meta, fs, owner, i, j, b, ind, s);
    }
  }

  class Image {
    var inodes: seq<Inode>
    var blocks: seq<Block>
    var bitmap: seq<bool>           // the bits of the bitmap block on the image
    var freeinode: nat
    var freeblock: nat
    ghost var owner: map<uint, Slot>

    /** The file system once the blocks below freeblock are marked in use. */
    ghost function View(): Fs
      reads this
    {
      Fs(inodes, blocks, Used(freeblock, |blocks|))
    }

    ghost predicate Valid()
      reads this
    {
      && |inodes| == NSLOTS && |blocks| == FSSIZE && |bitmap| == 8 * BSIZE
      && 1 <= freeinode && NMETA <= freeblock <= FSSIZE
      && Shaped(View()) && Exact(NMETA, View(), owner)
      && (forall b :: freeblock <= b < FSSIZE ==> blocks[b] == ZeroBlock())
      && (forall i :: freeinode <= i < NSLOTS ==> inodes[i] == NewInode(0, 0))
    }

    /** An image of zeroes. */
    constructor ()
      ensures Valid() && freeinode == 1 && freeblock == NMETA && forall i :: 0 <= i < NSLOTS ==> inodes[i] == NewInode(0, 0)
    {
      inodes := seq(NSLOTS, _ => NewInode(0, 0));
      blocks := seq(FSSIZE, _ => ZeroBlock());
      bitmap := seq(8 * BSIZE, _ => false);
      freeinode, freeblock, owner := 1, NMETA, map[];
    }

    /** Read a block of the image file; past its end there is nothing to read, and mkfs exits. */
    method Rsect(sec: nat) returns (r: Option<Block>)
      requires |blocks| == FSSIZE
      ensures r.Some? <==> sec < FSSIZE
      ensures r.Some? ==> r.value == blocks[sec]
    {
      return if sec < |blocks| then Some(blocks[sec]) else None;
    }

    /** Give addrs[k] of inode i the next block, if it has none; the block is read before it is used. */
    method FillPtr(i: nat, k: nat) returns (ok: bool)
      requires Valid() && i < freeinode && i < NSLOTS && k <= NDIRECT
      modifies `inodes, `freeblock, `owner
      ensures Valid()
      ensures ok <==> old(inodes)[i].addrs[k] != 0 || old(freeblock) < FSSIZE
      ensures ok ==> && inodes[i].addrs[k] != 0 && Grown(old(View()), View(), i) && OneSlot(old(View()), View(), Ptr(i, k))
                     && freeblock == old(freeblock) + (if old(inodes)[i].addrs[k] == 0 then 1 else 0)
      ensures old(inodes)[i].addrs[k] != 0 ==> View() == old(View())
    {
      hide Exact, Used;
      ghost var fs := View();
      if inodes[i].addrs[k] == 0 {
        var b := freeblock;
        var buf := Rsect(b);
        if buf.None? { return false; }
        assert Shaped(fs) && Addr(fs, Ptr(i, k)) == 0 && !fs.bitmap[b] by { FreshBit(NMETA, fs, owner, b); }
        PutPtrExact(NMETA, fs, owner, i, k, b);
        PutPtrGrown(NMETA, fs, owner, i, k, b);
        PutPtrSame(NMETA, fs, owner, i, k, b);
        UsedMore(b, FSSIZE);
        inodes := inodes[i := inodes[i].(addrs := inodes[i].addrs[k := b])];
        freeblock := freeblock + 1;
        owner := owner[b := Ptr(i, k)];
        assert blocks[b := ZeroBlock()] == blocks;
        assert View() == PutPtr(fs, i, k, b);
      } else {
        GrownSelf(fs, i);
      }
      return true;
    }

    /** Give entry j of inode i's indirect block the next block, if it has none. */
    method FillEntry(i: nat, j: nat) returns (ok: bool)
      requires Valid() && i < freeinode && i < NSLOTS && j < NINDIRECT && inodes[i].addrs[NDIRECT] != 0
      modifies `blocks, `freeblock, `owner
      ensures Valid()
      ensures ok <==> Addr(old(View()), Entry(i, j)) != 0 || old(freeblock) < FSSIZE
      ensures Addr(old(View()), Entry(i, j)) != 0 ==> View() == old(View())
      ensures ok ==> && Addr(View(), Entry(i, j)) != 0 && Grown(old(View()), View(), i)
                     && OneSlot(old(View()), View(), Entry(i, j))
                     && freeblock == old(freeblock) + (if Addr(old(View()), Entry(i, j)) == 0 then 1 else 0)
    {
      hide Exact, Used, Word;
      ghost var fs := View();
      var ind := inodes[i].addrs[NDIRECT];
      IndirectInRange(NMETA, fs, owner, i);
      GrownSelf(fs, i);
      if Word(blocks[ind], j) == 0 {
        var b := freeblock;
        var buf := Rsect(b);
        if buf.None? { return false; }
        FreshBit(NMETA, fs, owner, b);
        var a := FileSystem.PutWord(blocks[ind], j, b);
        PutEntryExact(NMETA, fs, owner, i, j, b, a);
        PutEntryGrown(NMETA, fs, owner, i, j, b, a);
        PutEntrySame(NMETA, fs, owner, i, j, b, a);
        UsedMore(b, FSSIZE);
        assert blocks[b := ZeroBlock()] == blocks;
        blocks := blocks[ind := a];
        freeblock := freeblock + 1;
        owner := owner[b := Entry(i, j)];
        assert View() == PutEntry(fs, i, b, a);
      }
      return true;
    }

    /** The block of file i at fbn, made if it is missing. */
    method BlockFor(i: nat, fbn: nat) returns (x: Option<uint>)
      requires Valid() && i < freeinode && i < NSLOTS && fbn < MAXFILE
      modifies `inodes, `blocks, `freeblock, `owner
      ensures Valid()
      ensures x.Some? <==> old(freeblock) + Missing(old(View()), i, fbn) <= FSSIZE
      ensures Addr(old(View()), SlotOf(i, fbn)) != 0 ==> View() == old(View())
      ensures x.Some? ==>
                && x.value == Addr(View(), SlotOf(i, fbn)) != 0 && freeblock == old(freeblock) + Missing(old(View()), i, fbn)
                && Grown(old(View()), View(), i) && OneBlock(old(View()), View(), i, fbn)
    {
      hide Exact, Used, Word, Grown;
      ghost var fs := View();
      if fbn < NDIRECT {
        var ok := FillPtr(i, fbn);
        if !ok { return None; }
        return Some(inodes[i].addrs[fbn]);
      }
      var ok := FillPtr(i, NDIRECT);
      if !ok { return None; }
      ghost var gs := View();
      assert Addr(gs, Entry(i, fbn - NDIRECT)) == Addr(fs, Entry(i, fbn - NDIRECT)) by { assert ValidSlot(fs, Entry(i, fbn - NDIRECT)); }
      ok := FillEntry(i, fbn - NDIRECT);
      if !ok { return None; }
      GrownTrans(fs, gs, View(), i);
      OneBlockBoth(fs, gs, View(), i, fbn);
      IndirectInRange(NMETA, View(), owner, i) by { assert Addr(View(), Entry(i, fbn - NDIRECT)) != 0; }
      return Some(Word(blocks[inodes[i].addrs[NDIRECT]], fbn - NDIRECT));
    }

    /** One round of iappend's loop: as much of data[tot..] as goes into one block. */
    method AppendBlock(i: nat, data: seq<byte>, off: nat, tot: nat) returns (r: Option<nat>)
      requires Valid() && i < freeinode && i < NSLOTS && tot < |data| && off + tot < MAXFILE * BSIZE
      modifies `inodes, `blocks, `freeblock, `owner
      ensures Valid()
      ensures r.Some? <==> old(freeblock) + Missing(old(View()), i, (off + tot) / BSIZE) <= FSSIZE
      ensures r.Some? ==>
                && r.value == Part(off, tot, |data|) && off + tot + r.value <= MAXFILE * BSIZE
                && freeblock == old(freeblock) + Missing(old(View()), i, (off + tot) / BSIZE)
                && Files(View()) == WriteFile(Files(old(View())), i, off + tot, data[tot..tot + r.value])
                && Kept(old(View()), View(), i) && AddrAt(View(), i, off + tot) != 0
                && (AddrAt(old(View()), i, off + tot) != 0 ==> inodes == old(inodes))
                && OneBlock(old(View()), View(), i, (off + tot) / BSIZE)
    {
      hide Exact, Used, Files, WriteFile, Grown, Kept, OneBlock, Missing;
      ghost var fs := View();
      var fbn := (off + tot) / BSIZE;
      var x := BlockFor(i, fbn);
      if x.None? { return None; }
      var o := (off + tot) - fbn * BSIZE;
      var n1 := if |data| - tot < (fbn + 1) * BSIZE - (off + tot) then |data| - tot else (fbn + 1) * BSIZE - (off + tot);
      AppendStep(NMETA, fs, View(), owner, i, off + tot, data[tot..tot + n1]);
      var buf := Splice(blocks[x.value], o, data[tot..tot + n1]);
      blocks := blocks[x.value := buf];
      return Some(n1);
    }

    /** Append data to file i; mkfs stops when a file grows too large or a block past the image is read. */
    method Iappend(i: nat, data: seq<byte>) returns (ok: bool)
      requires Valid() && i < freeinode && i < NSLOTS && Packed(View(), i)
      modifies `inodes, `blocks, `freeblock, `owner
      ensures Valid()
      ensures ok <==>
                && old(inodes)[i].size + |data| <= MAXFILE * BSIZE
                && old(freeblock) + Need(old(inodes)[i].size + |data|) - Need(old(inodes)[i].size) <= FSSIZE
      ensures ok ==>
                && freeblock == old(freeblock) + Need(old(inodes)[i].size + |data|) - Need(old(inodes)[i].size)
                && Files(View()) == WriteFile(Files(old(View())), i, old(inodes)[i].size, data)
                && inodes[i].size == old(inodes)[i].size + |data| && Packed(View(), i)
                && OthersSame(old(View()), View(), i) && inodes[i] == old(inodes)[i].(size := inodes[i].size, addrs := inodes[i].addrs)
                && (forall e :: 0 <= e < NSLOTS && e != i ==> inodes[e] == old(inodes)[e])
                && (forall e, t, c :: Holds(old(View()), e, t, c) ==> Holds(View(), e, t, if e == i then c + data else c))
    {
      hide Exact, Used, Files, WriteFile, Kept, OneBlock, FileSystem.Reached, FileSystem.AtRound, Dense, TightTo, DenseTo, OthersSame, Need, Missing;
      ghost var fs, rounds := View(), 0;
      var off := inodes[i].size;
      var tot := 0;
      AppendStart(fs, i, off, |data|);
      while tot < |data|
        invariant tot <= |data| && Valid() && off + tot <= MAXFILE * BSIZE
        invariant FileSystem.Reached(fs, View(), i, off, tot) && FileSystem.AtRound(off, tot, |data|, rounds)
        invariant DenseTo(View(), i, off + tot) && TightTo(View(), i, off + tot)
        invariant Files(View()) == WriteFile(Files(fs), i, off, data[..tot])
        invariant OthersSame(fs, View(), i) && freeblock == old(freeblock) + Need(off + tot) - Need(off)
      {
        if off + tot >= MAXFILE * BSIZE { return false; }
        ghost var gs := View();
        NeedRound(gs, i, off, tot, |data|);
        var m := AppendBlock(i, data, off, tot);
        if m.None? { return false; }
        AppendMore(fs, gs, View(), i, off, tot, m.value, data, rounds);
        tot, rounds := tot + m.value, rounds + 1;
      }
      assert data[..tot] == data;
      ghost var gs := View();
      AppendEnd(NMETA, fs, gs, owner, i, off, |data|);
      inodes := inodes[i := inodes[i].(size := off + tot)];
      HoldsAll(fs, View(), i, data);
      return true;
    }

    /** The next inode, new and empty; none when it would lie past the inode blocks, where the code goes on. */
    method Ialloc(typ: int) returns (r: Option<nat>)
      requires Valid()
      modifies `inodes, `freeinode
      ensures Valid() && (r.None? <==> old(freeinode) >= NSLOTS)
      ensures r.None? ==> inodes == old(inodes) && freeinode == old(freeinode)
      ensures r.Some? ==>
                && r.value == old(freeinode) && freeinode == old(freeinode) + 1
                && inodes == old(inodes)[r.value := NewInode(typ, 1)] && Holds(View(), r.value, typ, [])
                && (forall e, t, c :: Holds(old(View()), e, t, c) && e != r.value ==> Holds(View(), e, t, c))
    {
      hide Exact, Used, Files, Holds;
      if freeinode >= NSLOTS { return None; }
      var inum := freeinode;
      AddInode(NMETA, View(), owner, inum, NewInode(typ, 1));
      inodes := inodes[inum := NewInode(typ, 1)];
      freeinode := freeinode + 1;
      return Some(inum);
    }

    /** Round the root directory up to whole blocks: it has a hole exactly if it filled its last block. */
    method FixRoot(i: nat)
      requires Valid() && i < freeinode && i < NSLOTS && Packed(View(), i) && inodes[i].size < MAXFILE * BSIZE
      modifies `inodes
      ensures Valid() && inodes[i].size == (old(inodes)[i].size / BSIZE + 1) * BSIZE
      ensures inodes[i] == old(inodes)[i].(size := inodes[i].size)
      ensures Dense(View(), i) <==> old(inodes)[i].size % BSIZE != 0
      ensures Files(View()) == Files(old(View())) && DenseTo(View(), i, old(inodes)[i].size) && TightTo(View(), i, old(inodes)[i].size)
      ensures forall e, t, c :: Holds(old(View()), e, t, c) && e != i ==> Holds(View(), e, t, c)
    {
      hide Exact, Used, Files, Holds;
      var off: uint := inodes[i].size;
      off := (off / BSIZE + 1) * BSIZE;
      RoundUp(NMETA, View(), owner, i);
      inodes := inodes[i := inodes[i].(size := off)];
    }

    /** Write the bitmap: the first used blocks are taken. No when they do not fit one bitmap block. */
    method Balloc(used: nat) returns (ok: bool)
      modifies `bitmap
      ensures ok <==> used < 8 * BSIZE
      ensures ok ==> bitmap == Used(used, 8 * BSIZE)
    {
      if used >= 8 * BSIZE { return false; }
      var buf := seq(8 * BSIZE, _ => false);
      var i := 0;
      while i < used
        invariant i <= used && buf == Used(i, 8 * BSIZE)
      {
        UsedMore(i, 8 * BSIZE);
        buf := buf[i := true];
        i := i + 1;
      }
      bitmap := buf;
      return true;
    }
  
    /** Copy a host file into file i, a block-sized read at a time. */
    method AppendFile(i: nat, data: seq<byte>) returns (ok: bool)
      requires Valid() && i < freeinode && i < NSLOTS && Holds(View(), i, T_FILE, [])
      modifies `inodes, `blocks, `freeblock, `owner
      ensures Valid()
      ensures ok <==> |data| <= MAXFILE * BSIZE && old(freeblock) + Need(|data|) <= FSSIZE
      ensures ok ==> && Holds(View(), i, T_FILE, data) && freeblock == old(freeblock) + Need(|data|)
                     && forall e, t, c :: Holds(old(View()), e, t, c) && e != i ==> Holds(View(), e, t, c)
    {
      hide Exact, Used, Files, WriteFile, OthersSame, Dense, TightTo, Need;
      var tot := 0;
      NeedNone();
      while tot < |data|
        invariant tot <= |data| && tot <= MAXFILE * BSIZE && Valid() && Holds(View(), i, T_FILE, data[..tot])
        invariant freeblock == old(freeblock) + Need(tot)
        invariant forall e, t, c :: Holds(old(View()), e, t, c) && e != i ==> Holds(View(), e, t, c)
      {
        var cc := if |data| - tot < BSIZE then |data| - tot else BSIZE;
        NeedMono(tot + cc, |data|);
        ok := Iappend(i, data[tot..tot + cc]);
        if !ok { return; }
        assert data[..tot] + data[tot..tot + cc] == data[..tot + cc];
        tot := tot + cc;
      }
      assert data[..tot] == data;
      return true;
    }

    /** One host file: an inode, an entry in the root directory, which holds dir, and the bytes. */
    method AddFile(name: seq<byte>, data: seq<byte>, ghost dir: seq<byte>) returns (ok: bool)
      requires Valid() && ROOTINO < freeinode < NSLOTS && Holds(View(), ROOTINO, T_DIR, dir) && |dir| + DIRENT <= MAXFILE * BSIZE
      modifies `inodes, `blocks, `freeinode, `freeblock, `owner
      ensures Valid() && freeinode == old(freeinode) + 1
      ensures ok <==> && |data| <= MAXFILE * BSIZE
                      && old(freeblock) + Need(|dir| + DIRENT) - Need(|dir|) + Need(|data|) <= FSSIZE
      ensures ok ==> && freeblock == old(freeblock) + Need(|dir| + DIRENT) - Need(|dir|) + Need(|data|)
                     && Holds(View(), ROOTINO, T_DIR, dir + Dirent(old(freeinode), name)) && Holds(View(), old(freeinode), T_FILE, data)
                     && forall e, t, c :: Holds(old(View()), e, t, c) && e != ROOTINO && e != old(freeinode) ==> Holds(View(), e, t, c)
    {
      hide Exact, Used, Files, Dense, Packed, Holds, Need;
      var a := Ialloc(T_FILE);
      ok := Append(ROOTINO, Dirent(a.value, name), T_DIR, dir);
      if !ok { return; }
      ok := AppendFile(a.value, data);
    }

    /**
     The whole image: the root directory, one inode and one entry per host file, the bitmap last.
     It ends early when something does not fit, and Overrun is where ialloc leaves the inode blocks.
     */
    method Build(names: seq<seq<byte>>, data: seq<seq<byte>>) returns (r: Outcome)
      requires Valid() && freeinode == 1 && freeblock == NMETA && |names| == |data|
      modifies this
      ensures r == Finished <==> |names| + 2 <= NSLOTS && Fits(data)
      ensures r == Overrun <==> |names| + 2 > NSLOTS && Fits(data[..NSLOTS - 2])
      ensures r == Finished ==>
                && bitmap == Used(NMETA + Need(RootBytes(|names|)) + NeedAll(data), 8 * BSIZE)
                && var fs := Fs(inodes, blocks, bitmap[..FSSIZE]);
                && Shaped(fs) && Exact(NMETA, fs, owner) && |fs.inodes| == NSLOTS
                && (forall k :: 0 <= k < |data| ==> Holds(fs, k + 2, T_FILE, data[k]))
                && RootMade(fs, names)
                && (Dense(fs, ROOTINO) <==> (|names| + 2) % 32 != 0)
    {
      hide Exact, Used, Files, Dense, Packed, Holds, Root, Dirent, Need, NeedAll, RootMade;
      var a := Ialloc(T_DIR);
      NeedNone();
      var ok := Append(ROOTINO, Dirent(ROOTINO, ['.' as int]), T_DIR, []);
      assert [] + Dirent(ROOTINO, ['.' as int]) == Dirent(ROOTINO, ['.' as int]);
      ok := Append(ROOTINO, Dirent(ROOTINO, ['.' as int, '.' as int]), T_DIR, Dirent(ROOTINO, ['.' as int]));
      var k := 0;
      RootNone();
      FitsNone(data);
      while k < |names|
        invariant k <= |names| && Valid() && freeinode == k + 2 <= NSLOTS
        invariant Holds(View(), ROOTINO, T_DIR, Root(names[..k]))
        invariant forall j :: 0 <= j < k ==> Holds(View(), j + 2, T_FILE, data[j])
        invariant Fits(data[..k]) && freeblock == NMETA + Need(RootBytes(k)) + NeedAll(data[..k])
      {
        if freeinode >= NSLOTS { return Overrun; }
        FitsMore(data, k);
        RootMore(names, k);
        ok := AddFile(names[k], data[k], Root(names[..k]));
        if !ok { return Aborted; }
        k := k + 1;
      }
      assert names[..k] == names && data[..k] == data;
      Finish(names);
      return Finished;
    }

    /** Fix the size of the root directory and write the bitmap. */
    method Finish(names: seq<seq<byte>>)
      requires Valid() && Holds(View(), ROOTINO, T_DIR, Root(names)) && |names| + 2 <= NSLOTS && ROOTINO < freeinode
      modifies `inodes, `bitmap
      ensures bitmap == Used(freeblock, 8 * BSIZE) && View() == Fs(inodes, blocks, bitmap[..FSSIZE]) && Valid()
      ensures forall e, t, c :: Holds(old(View()), e, t, c) && e != ROOTINO ==> Holds(View(), e, t, c)
      ensures RootMade(View(), names)
      ensures Dense(View(), ROOTINO) <==> (|names| + 2) % 32 != 0
    {
      hide Exact, Used, Files, Dense, Packed, Holds, Root, DenseTo, TightTo, Padded;
      RootSize(View(), names);
      FixRoot(ROOTINO);
      var ok := Balloc(freeblock);
      UsedPrefix(freeblock, 8 * BSIZE, FSSIZE);
    }

    /** iappend to a file known to hold c. */
    method Append(i: nat, data: seq<byte>, ghost t: int, ghost c: seq<byte>) returns (ok: bool)
      requires Valid() && i < freeinode && i < NSLOTS && Holds(View(), i, t, c)
      modifies `inodes, `blocks, `freeblock, `owner
      ensures Valid()
      ensures ok <==> |c + data| <= MAXFILE * BSIZE && old(freeblock) + Need(|c + data|) - Need(|c|) <= FSSIZE
      ensures ok ==> && Holds(View(), i, t, c + data) && freeblock == old(freeblock) + Need(|c + data|) - Need(|c|)
                     && forall e, u, d :: Holds(old(View()), e, u, d) && e != i ==> Holds(View(), e, u, d)
    {
      hide Exact, Used, Files, WriteFile, OthersSame, Dense, TightTo, Need;
      ok := Iappend(i, data);
    }
  }

  /** How a build ends; Aborted is an exit with an error, or a failed assertion. */
  datatype Outcome = Finished | Aborted | Overrun

  lemma NeedNone()
    ensures Need(0) == 0 && Need(DIRENT) == 1 && Need(RootBytes(0)) == 1
  {
  }

  lemma FitsNone(data: seq<seq<byte>>)
    ensures Fits(data[..0]) && NeedAll(data[..0]) == 0
  {
  }

  /** What the next file adds to the space needed; a file that does not fit keeps every longer list from fitting. */
  lemma FitsMore(data: seq<seq<byte>>, k: nat)
    requires k < |data| && k + 2 < NSLOTS && Fits(data[..k])
    ensures NeedAll(data[..k + 1]) == NeedAll(data[..k]) + Need(|data[k]|)
    ensures Fits(data[..k + 1]) <==>
              |data[k]| <= MAXFILE * BSIZE && NMETA + Need(RootBytes(k + 1)) + NeedAll(data[..k]) + Need(|data[k]|) <= FSSIZE
    ensures Fits(data) ==> Fits(data[..k + 1])
    ensures |data| + 2 > NSLOTS && Fits(data[..NSLOTS - 2]) ==> Fits(data[..k + 1])
  {
    FitsNext(data, k);
    hide Fits;
    if Fits(data) { FitsPrefix(data, k + 1); }
    if |data| + 2 > NSLOTS && Fits(data[..NSLOTS - 2]) {
      FitsPrefix(data[..NSLOTS - 2], k + 1);
      assert data[..NSLOTS - 2][..k + 1] == data[..k + 1];
    }
  }

  lemma FitsNext(data: seq<seq<byte>>, k: nat)
    requires k < |data| && Fits(data[..k])
    ensures NeedAll(data[..k + 1]) == NeedAll(data[..k]) + Need(|data[k]|)
    ensures Fits(data[..k + 1]) <==>
              |data[k]| <= MAXFILE * BSIZE && NMETA + Need(RootBytes(k + 1)) + NeedAll(data[..k]) + Need(|data[k]|) <= FSSIZE
  {
    NeedAllMore(data, k);
    hide Need, NeedAll;
    var c, d := data[..k], data[..k + 1];
    forall j | 0 <= j < k ensures |d[j]| <= MAXFILE * BSIZE { assert d[j] == c[j]; }
    assert d[k] == data[k];
  }

  lemma UsedPrefix(n: nat, size: nat, m: nat)
    requires m <= size
    ensures Used(n, size)[..m] == Used(n, m)
  {
  }

  /** A directory entry: the inode number, low byte first, and the name cut or padded to 14 bytes. */
  function Dirent(inum: nat, name: seq<byte>): (d: seq<byte>)
    ensures |d| == DIRENT
  {
    [inum % 256, inum / 256 % 256] + if |name| < 14 then name + seq(14 - |name|, _ => 0) else name[..14]
  }

  /** The root directory: itself, its parent, and the files in order, numbered from 2. */
  function Root(names: seq<seq<byte>>): (d: seq<byte>)
    ensures |d| == DIRENT * (|names| + 2)
  {
    if names == [] then Dirent(ROOTINO, ['.' as int]) + Dirent(ROOTINO, ['.' as int, '.' as int])
    else Root(names[..|names| - 1]) + Dirent(|names| + 1, names[|names| - 1])
  }

  lemma RootNone()
    ensures Root([]) == Dirent(ROOTINO, ['.' as int]) + Dirent(ROOTINO, ['.' as int, '.' as int])
  {
  }

  lemma RootMore(names: seq<seq<byte>>, k: nat)
    requires k < |names|
    ensures Root(names[..k + 1]) == Root(names[..k]) + Dirent(k + 2, names[k])
  {
    assert names[..k + 1][..k] == names[..k];
  }

  /** Inode ROOTINO is the root directory of the named files, its length rounded up past the blocks it has. */
  ghost predicate RootMade(fs: Fs, names: seq<seq<byte>>)
    requires Shaped(fs) && ROOTINO < |fs.inodes|
  {
    && fs.inodes[ROOTINO].typ == T_DIR && fs.inodes[ROOTINO].nlink == 1 && Padded(Files(fs)[ROOTINO], Root(names))
    && fs.inodes[ROOTINO].size == (|Root(names)| / BSIZE + 1) * BSIZE
    && DenseTo(fs, ROOTINO, |Root(names)|) && TightTo(fs, ROOTINO, |Root(names)|)
  }

  lemma RootSize(fs: Fs, names: seq<seq<byte>>)
    requires Holds(fs, ROOTINO, T_DIR, Root(names)) && |names| + 2 <= NSLOTS
    ensures Packed(fs, ROOTINO) && fs.inodes[ROOTINO].size == |Root(names)| < MAXFILE * BSIZE
    ensures Padded(Files(fs)[ROOTINO], Root(names)) && fs.inodes[ROOTINO].typ == T_DIR && fs.inodes[ROOTINO].nlink == 1
    ensures |Root(names)| % BSIZE != 0 <==> (|names| + 2) % 32 != 0
  {
    hide Root, Files;
    var n := |names| + 2;
    assert |Root(names)| == 16 * n;
    assert 16 * n == 512 * (n / 32) + 16 * (n % 32);
  }

  /** The blocks of file i are those its size takes, and no others. */
  ghost predicate Packed(fs: Fs, i: nat)
    requires Shaped(fs) && i < |fs.inodes|
  {
    fs.inodes[i].size <= MAXFILE * BSIZE && Dense(fs, i) && TightTo(fs, i, fs.inodes[i].size)
  }

  lemma AppendStart(fs: Fs, i: nat, off: nat, n: nat)
    requires Shaped(fs) && i < |fs.inodes|
    ensures FileSystem.Reached(fs, fs, i, off, 0) && FileSystem.AtRound(off, 0, n, 0) && OthersSame(fs, fs, i)
    ensures off == fs.inodes[i].size ==> (Dense(fs, i) <==> DenseTo(fs, i, off))
    ensures forall data: seq<byte> {:trigger data[..0]} :: off <= MAXFILE * BSIZE ==> WriteFile(Files(fs), i, off, data[..0]) == Files(fs)
  {
    hide Files;
  }

  lemma AppendMore(fs: Fs, gs: Fs, hs: Fs, i: nat, off: nat, tot: nat, m: nat, data: seq<byte>, rounds: nat)
    requires FileSystem.Reached(fs, gs, i, off, tot) && FileSystem.AtRound(off, tot, |data|, rounds)
    requires tot < |data| && m == Part(off, tot, |data|) && off + tot + m <= MAXFILE * BSIZE
    requires Kept(gs, hs, i) && AddrAt(hs, i, off + tot) != 0 && DenseTo(gs, i, off + tot) && TightTo(gs, i, off + tot)
    requires AddrAt(gs, i, off + tot) != 0 ==> hs.inodes == gs.inodes
    requires OneBlock(gs, hs, i, (off + tot) / BSIZE) && OthersSame(fs, gs, i) && Files(gs) == WriteFile(Files(fs), i, off, data[..tot])
    requires Files(hs) == WriteFile(Files(gs), i, off + tot, data[tot..tot + m])
    ensures FileSystem.Reached(fs, hs, i, off, tot + m) && FileSystem.AtRound(off, tot + m, |data|, rounds + 1)
    ensures OthersSame(fs, hs, i) && DenseTo(hs, i, off + (tot + m)) && TightTo(hs, i, off + (tot + m))
    ensures Files(hs) == WriteFile(Files(fs), i, off, data[..tot + m])
  {
    hide Files, WriteFile;
    FileSystem.NextRound(off, tot, m, |data|, rounds);
    assert FileSystem.AtRound(off, tot, |data|, rounds);
    FileSystem.ReachedStep(fs, gs, hs, i, off, tot, m);
    WriteMore(Files(fs), i, off, data, tot, m);
    TightMore(gs, hs, i, off + tot, m);
    OthersMore(fs, gs, hs, i, (off + tot) / BSIZE);
  }

  lemma TightMore(gs: Fs, hs: Fs, i: nat, off: nat, m: nat)
    requires Kept(gs, hs, i) && off < MAXFILE * BSIZE && Addr(hs, SlotOf(i, off / BSIZE)) != 0
    requires OneBlock(gs, hs, i, off / BSIZE) && DenseTo(gs, i, off) && TightTo(gs, i, off)
    requires 0 < m && off / BSIZE == (off + m - 1) / BSIZE
    ensures DenseTo(hs, i, off + m) && TightTo(hs, i, off + m)
  {
    forall bn | 0 <= bn < MAXFILE
      ensures bn * BSIZE >= off + m ==> Addr(hs, SlotOf(i, bn)) == 0
      ensures bn * BSIZE < off + m ==> Addr(hs, SlotOf(i, bn)) != 0
    {
      assert ValidSlot(gs, SlotOf(i, bn));
      if bn == off / BSIZE { assert bn * BSIZE < off + m; }
    }
    if off + m <= NDIRECT * BSIZE {
      assert ValidSlot(gs, Ptr(i, NDIRECT)) && off / BSIZE < NDIRECT;
      assert Addr(hs, Ptr(i, NDIRECT)) == Addr(gs, Ptr(i, NDIRECT));
    }
  }

  lemma OthersMore(fs: Fs, gs: Fs, hs: Fs, i: nat, bn: nat)
    requires Shaped(fs) && Shaped(gs) && Shaped(hs) && |fs.inodes| == |gs.inodes| == |hs.inodes|
    requires OthersSame(fs, gs, i) && OneBlock(gs, hs, i, bn)
    ensures OthersSame(fs, hs, i)
  {
    forall e, c | 0 <= e < |fs.inodes| && e != i && 0 <= c < MAXFILE
      ensures Addr(hs, SlotOf(e, c)) == Addr(fs, SlotOf(e, c))
    {
      assert ValidSlot(gs, SlotOf(e, c));
    }
  }

  /** Filling the indirect pointer and then the entry touches block bn alone. */
  lemma OneBlockBoth(fs: Fs, gs: Fs, hs: Fs, i: nat, bn: nat)
    requires Shaped(fs) && Shaped(gs) && Shaped(hs) && |fs.inodes| == |gs.inodes| == |hs.inodes|
    requires NDIRECT <= bn < MAXFILE && OneSlot(fs, gs, Ptr(i, NDIRECT)) && OneSlot(gs, hs, Entry(i, bn - NDIRECT))
    ensures OneBlock(fs, hs, i, bn)
  {
    assert forall s :: ValidSlot(fs, s) <==> ValidSlot(gs, s);
  }

  /** What a round of iappend needs, and that the whole needs no less. */
  lemma NeedRound(gs: Fs, i: nat, off: nat, tot: nat, n: nat)
    requires Shaped(gs) && i < |gs.inodes| && DenseTo(gs, i, off + tot) && TightTo(gs, i, off + tot)
    requires tot < n && off + tot < MAXFILE * BSIZE
    ensures Need(off + tot) + Missing(gs, i, (off + tot) / BSIZE) == Need(off + (tot + Part(off, tot, n))) <= Need(off + n)
  {
    hide Missing, DenseTo, TightTo, Need;
    var p, m := off + tot, Part(off, tot, n);
    PartWithin(off, tot, n);
    hide Part;
    MissingIs(gs, i, p, m);
    NeedMono(p + m, off + n);
  }

  lemma PartWithin(off: nat, tot: nat, n: nat)
    requires tot < n && off + tot < MAXFILE * BSIZE
    ensures var p, m := off + tot, Part(off, tot, n);
            p / BSIZE == (p + m - 1) / BSIZE && p + m <= MAXFILE * BSIZE && p + m <= off + n
  {
  }

  lemma AppendEnd(meta: nat, fs: Fs, gs: Fs, owner: map<uint, Slot>, i: nat, off: nat, n: nat)
    requires Shaped(fs) && Exact(meta, gs, owner) && FileSystem.Reached(fs, gs, i, off, n) && TightTo(gs, i, off + n)
    requires off == fs.inodes[i].size && Dense(fs, i) && off + n <= MAXFILE * BSIZE && OthersSame(fs, gs, i)
    ensures var hs := FileSystem.Resized(gs, i, off + n);
            && Shaped(hs) && Exact(meta, hs, owner) && Files(hs) == Files(gs) && Packed(hs, i) && OthersSame(fs, hs, i)
            && (forall e :: 0 <= e < |fs.inodes| && e != i ==> gs.inodes[e] == fs.inodes[e])
            && gs.inodes[i] == fs.inodes[i].(addrs := gs.inodes[i].addrs)
  {
    hide Files;
    FileSystem.ResizedSound(meta, fs, gs, owner, i, off, n, off + n);
    var hs := FileSystem.Resized(gs, i, off + n);
    SetSize(meta, gs, owner, i, off + n);
    assert forall e, bn :: 0 <= e < |gs.inodes| && 0 <= bn < MAXFILE ==> ValidSlot(gs, SlotOf(e, bn));
  }

  /** c and then nothing but zeroes. */
  ghost predicate Padded(file: seq<byte>, c: seq<byte>) {
    |c| <= |file| && file[..|c|] == c && forall p :: |c| <= p < |file| ==> file[p] == 0
  }

  /** File e, of type t and linked once, consists of the bytes c, on exactly the blocks they take. */
  ghost predicate Holds(fs: Fs, e: nat, t: int, c: seq<byte>) {
    && Shaped(fs) && e < |fs.inodes| && Packed(fs, e) && fs.inodes[e].typ == t && fs.inodes[e].nlink == 1
    && fs.inodes[e].size == |c| && Padded(Files(fs)[e], c)
  }

  lemma PaddedMore(files: seq<seq<byte>>, i: nat, c: seq<byte>, data: seq<byte>)
    requires i < |files| && Padded(files[i], c) && |c| + |data| <= |files[i]|
    ensures Padded(WriteFile(files, i, |c|, data)[i], c + data)
  {
    var file := WriteFile(files, i, |c|, data)[i];
    assert file[..|c + data|] == c + data;
  }

  /** A file without blocks reads as zeroes. */
  lemma EmptyFile(fs: Fs, i: nat)
    requires Shaped(fs) && i < |fs.inodes| && forall bn :: 0 <= bn < MAXFILE ==> Addr(fs, SlotOf(i, bn)) == 0
    ensures Padded(Files(fs)[i], [])
  {
    var file := Files(fs)[i];
    forall p | 0 <= p < |file| ensures file[p] == 0 {
      assert Addr(fs, SlotOf(i, p / BSIZE)) == 0;
      assert file[p] == FileBlock(fs, i, p / BSIZE)[p % BSIZE];
    }
  }

  lemma HoldsAll(fs: Fs, hs: Fs, i: nat, data: seq<byte>)
    requires Shaped(fs) && Shaped(hs) && i < |fs.inodes| == |hs.inodes| && Packed(fs, i) && Packed(hs, i)
    requires fs.inodes[i].size + |data| == hs.inodes[i].size
    requires OthersSame(fs, hs, i) && forall e :: 0 <= e < |fs.inodes| && e != i ==> hs.inodes[e] == fs.inodes[e]
    requires hs.inodes[i] == fs.inodes[i].(size := hs.inodes[i].size, addrs := hs.inodes[i].addrs)
    requires Files(hs) == WriteFile(Files(fs), i, fs.inodes[i].size, data)
    ensures forall e, t, c :: Holds(fs, e, t, c) ==> Holds(hs, e, t, if e == i then c + data else c)
  {
    hide Files;
    forall e: nat, t: int, c: seq<byte> | Holds(fs, e, t, c) ensures Holds(hs, e, t, if e == i then c + data else c) {
      if e == i {
        PaddedMore(Files(fs), i, c, data);
      } else {
        assert Files(hs)[e] == Files(fs)[e];
      }
    }
  }

  /** An unused inode put to use holds no blocks yet. */
  lemma AddInode(meta: nat, fs: Fs, owner: map<uint, Slot>, i: nat, ino: Inode)
    requires Exact(meta, fs, owner) && i < |fs.inodes| && fs.inodes[i] == NewInode(0, 0) && ino == NewInode(ino.typ, 1)
    ensures var gs := fs.(inodes := fs.inodes[i := ino]);
            && Shaped(gs) && Exact(meta, gs, owner) && Holds(gs, i, ino.typ, [])
            && forall e, t, c :: Holds(fs, e, t, c) && e != i ==> Holds(gs, e, t, c)
  {
    var gs := fs.(inodes := fs.inodes[i := ino]);
    AddInodeExact(meta, fs, owner, i, ino);
    EmptyFile(gs, i);
    hide Files, Exact, Addr;
    SameFiles(fs, gs);
    HoldsOthers(fs, gs, i);
  }

  lemma AddInodeExact(meta: nat, fs: Fs, owner: map<uint, Slot>, i: nat, ino: Inode)
    requires Exact(meta, fs, owner) && i < |fs.inodes| && fs.inodes[i] == NewInode(0, 0) && ino == NewInode(ino.typ, 1)
    ensures var gs := fs.(inodes := fs.inodes[i := ino]);
            && Shaped(gs) && Exact(meta, gs, owner)
            && (forall s :: ValidSlot(fs, s) ==> Addr(gs, s) == Addr(fs, s))
            && (forall bn :: 0 <= bn < MAXFILE ==> Addr(gs, SlotOf(i, bn)) == 0)
            && (forall e, c :: 0 <= e < |fs.inodes| && 0 <= c < MAXFILE ==> ValidSlot(fs, SlotOf(e, c)))
  {
    var gs := fs.(inodes := fs.inodes[i := ino]);
    assert forall s :: ValidSlot(fs, s) <==> ValidSlot(gs, s);
    assert forall s :: ValidSlot(fs, s) ==> Addr(gs, s) == Addr(fs, s);
  }

  /** A file whose inode and addresses stay holds what it held. */
  lemma HoldsOthers(fs: Fs, gs: Fs, i: nat)
    requires Shaped(fs) && Shaped(gs) && |fs.inodes| == |gs.inodes| && Files(gs) == Files(fs)
    requires forall e :: 0 <= e < |fs.inodes| && e != i ==> gs.inodes[e] == fs.inodes[e]
    requires forall e, c :: 0 <= e < |fs.inodes| && 0 <= c < MAXFILE ==> ValidSlot(fs, SlotOf(e, c))
    requires forall s :: ValidSlot(fs, s) ==> Addr(gs, s) == Addr(fs, s)
    ensures forall e, t, c :: Holds(fs, e, t, c) && e != i ==> Holds(gs, e, t, c)
  {
    hide Files, Addr;
    forall e: nat, t: int, c: seq<byte> | Holds(fs, e, t, c) && e != i ensures Holds(gs, e, t, c) {
      assert Packed(gs, e);
    }
  }

  lemma RoundUp(meta: nat, fs: Fs, owner: map<uint, Slot>, i: nat)
    requires Exact(meta, fs, owner) && i < |fs.inodes| && Packed(fs, i) && fs.inodes[i].size < MAXFILE * BSIZE
    ensures var gs := FileSystem.Resized(fs, i, (fs.inodes[i].size / BSIZE + 1) * BSIZE);
            && Shaped(gs) && Exact(meta, gs, owner) && Files(gs) == Files(fs)
            && (Dense(gs, i) <==> fs.inodes[i].size % BSIZE != 0)
            && DenseTo(gs, i, fs.inodes[i].size) && TightTo(gs, i, fs.inodes[i].size)
            && forall e, t, c :: Holds(fs, e, t, c) && e != i ==> Holds(gs, e, t, c)
  {
    var size := fs.inodes[i].size;
    var up := (size / BSIZE + 1) * BSIZE;
    var gs := FileSystem.Resized(fs, i, up);
    SetSize(meta, fs, owner, i, up);
    SameFiles(fs, gs);
    assert forall e, c :: 0 <= e < |fs.inodes| && 0 <= c < MAXFILE ==> ValidSlot(fs, SlotOf(e, c));
    hide Files, Exact, Addr;
    HoldsOthers(fs, gs, i);
    var last := size / BSIZE;
    if size % BSIZE == 0 {
      assert Addr(gs, SlotOf(i, last)) == 0 && last * BSIZE < up;
    }
  }

  /** Bytes put into a block that BlockFor has found or made. */
  lemma AppendStep(meta: nat, fs: Fs, gs: Fs, owner: map<uint, Slot>, i: nat, off: nat, part: seq<byte>)
    requires Exact(meta, gs, owner) && Shaped(fs) && Grown(fs, gs, i) && OneBlock(fs, gs, i, off / BSIZE)
    requires off < MAXFILE * BSIZE && off % BSIZE + |part| <= BSIZE && Addr(gs, SlotOf(i, off / BSIZE)) != 0
    ensures var a := Addr(gs, SlotOf(i, off / BSIZE));
            && a < |gs.blocks| && gs.bitmap[a]
            && var hs := gs.(blocks := gs.blocks[a := Splice(gs.blocks[a], off % BSIZE, part)]);
            && Shaped(hs) && Exact(meta, hs, owner) && Files(hs) == WriteFile(Files(fs), i, off, part)
            && Kept(fs, hs, i) && AddrAt(hs, i, off) != 0 && OneBlock(fs, hs, i, off / BSIZE)
  {
    hide Files, WriteFile, Exact;
    PutDataStep(meta, fs, gs, owner, i, off, part);
    assert forall e, c :: 0 <= e < |gs.inodes| && 0 <= c < MAXFILE ==> ValidSlot(gs, SlotOf(e, c));
  }

  lemma FreshBit(meta: nat, fs: Fs, owner: map<uint, Slot>, b: nat)
    requires Exact(meta, fs, owner) && b < |fs.blocks| && fs.bitmap == Used(b, |fs.blocks|)
    ensures Shaped(fs) && !fs.bitmap[b]
  {
  }

  lemma GrownSelf(fs: Fs, i: nat)
    requires Shaped(fs) && i < |fs.inodes|
    ensures Grown(fs, fs, i) && forall bn :: OneBlock(fs, fs, i, bn)
  {
  }
}
