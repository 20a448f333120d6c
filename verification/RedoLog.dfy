/** log.c as it runs: the in-memory header, the pinned buffers and the loops that write the disk. */
module RedoLog {
  import opened Base
  import opened Log

  /** lh after log_write has looked for b: unchanged if b is there (absorption), else b appended. */
  function Absorb(lh: seq<uint>, b: uint): seq<uint> {
    if b in lh then lh else lh + [b]
  }

  ghost predicate Cached(lh: seq<uint>, pinned: map<uint, Block>) {
    forall i :: 0 <= i < |lh| ==> lh[i] in pinned
  }

  /** The cached contents of the logged blocks. */
  ghost function Contents(lh: seq<uint>, pinned: map<uint, Block>): (data: seq<Block>)
    requires Cached(lh, pinned)
    ensures |data| == |lh|
  {
    seq(|lh|, i requires 0 <= i < |lh| && lh[i] in pinned => pinned[lh[i]])
  }

  lemma HeadUnique(b: Block, lh: seq<uint>, r: Block)
    requires IsHead(b, lh, r)
    ensures r == PutHead(b, lh)
  {
    var h := PutHead(b, lh);
    assert r == [r[0]] + r[1..1 + |lh|] + r[1 + |lh|..];
    assert h == [h[0]] + h[1..1 + |lh|] + h[1 + |lh|..];
  }

  /** One more write, on the disk and in the trace. */
  lemma WriteMore(d: Disk, trace: seq<Write>, ws: seq<Write>, k: nat)
    requires k < |ws| && ws[k].addr < |d|
    ensures Image(d, ws, k + 1) == Image(d, ws, k)[ws[k].addr := ws[k].data]
    ensures trace + ws[..k] + [ws[k]] == trace + ws[..k + 1]
  {
    assert ws[..k + 1] == ws[..k] + [ws[k]];
  }

  lemma ImageNone(d: Disk, ws: seq<Write>)
    ensures Image(d, ws, 0) == d
  {
  }

  class LogDevice {
    const L: Layout
    var disk: Disk
    var lh: seq<uint>               // log.lh.block[0..log.lh.n]
    var pinned: map<uint, Block>    // buffers marked B_DIRTY
    var outstanding: nat
    var committing: bool
    ghost var trace: seq<Write>     // every iderw() write so far

    ghost predicate Valid()
      reads this
    {
      && GoodDisk(L, disk)
      && Loggable(L, disk, lh)
      && Cached(lh, pinned)
      && (forall b :: b in pinned ==> b in lh)
      && (committing ==> outstanding == 0)
    }

    /** bread: a pinned buffer stays cached; any other buffer agrees with the disk. */
    function Bread(b: uint): Block
      requires b < |disk|
      reads this
    {
      if b in pinned then pinned[b] else disk[b]
    }

    /** bwrite, down to the single-block disk write that also clears B_DIRTY. */
    method Bwrite(b: uint, data: Block)
      requires b < |disk|
      modifies `disk, `pinned, `trace
      ensures disk == old(disk)[b := data]
      ensures pinned == old(pinned) - {b}
      ensures trace == old(trace) + [Write(b, data)]
    {
      disk := disk[b := data];
      pinned := pinned - {b};
      trace := trace + [Write(b, data)];
    }

    /** write_log: each block named in the header goes, as the cache has it, to its place in the log. */
    method WriteLog(ghost d: Disk, ghost data: seq<Block>)
      requires d == disk && Loggable(L, d, lh) && Cached(lh, pinned) && data == Contents(lh, pinned)
      requires forall b :: b in pinned ==> b in lh
      modifies `disk, `pinned, `trace
      ensures pinned == old(pinned)
      ensures disk == Image(d, LogWrites(L, data), |lh|)
      ensures trace == old(trace) + LogWrites(L, data)
    {
      var tail := 0;
      ghost var ws := LogWrites(L, data);
      hide Image, Distinct;
      ImageNone(d, ws);
      while tail < |lh|
        invariant 0 <= tail <= |lh|
        invariant pinned == old(pinned)
        invariant disk == Image(d, ws, tail)
        invariant trace == old(trace) + ws[..tail]
      {
        var from := Bread(lh[tail]);
        assert L.InLog(L.start + tail + 1) && L.start + tail + 1 !in pinned;
        assert ws[tail] == Write(L.start + tail + 1, from);
        WriteMore(d, old(trace), ws, tail);
        Bwrite(L.start + tail + 1, from);
        tail := tail + 1;
      }
    }

    /** write_head: the count and the block numbers go into the header block. */
    method WriteHead()
      requires L.Fits(disk) && |lh| <= LOGSIZE && L.start !in pinned
      modifies `disk, `pinned, `trace
      ensures L.start < |old(disk)| && |lh| <= LOGSIZE
      ensures pinned == old(pinned)
      ensures disk == old(disk)[L.start := PutHead(old(disk)[L.start], lh)]
      ensures trace == old(trace) + [Write(L.start, PutHead(old(disk)[L.start], lh))]
    {
      var hb := Bread(L.start);
      hb := hb[0 := |lh|];
      var i := 0;
      while i < |lh|
        invariant 0 <= i <= |lh|
        invariant |hb| == 128
        invariant hb == [|lh|] + lh[..i] + old(disk)[L.start][1 + i..]
      {
        hb := hb[i + 1 := lh[i]];
        i := i + 1;
      }
      HeadUnique(old(disk)[L.start], lh, hb);
      Bwrite(L.start, hb);
    }

    /** install_trans: each block of the log goes to the block number the header gives for it. */
    method InstallTrans(ghost d: Disk, ghost data: seq<Block>)
      requires d == disk && Loggable(L, d, lh) && data == LogBlocks(L, d, |lh|)
      requires forall b :: b in pinned ==> b in lh
      modifies `disk, `pinned, `trace
      ensures pinned == map[]
      ensures disk == Updated(d, lh, data)
      ensures trace == old(trace) + Installs(lh, data)
    {
      var tail := 0;
      ghost var ws := Installs(lh, data);
      hide Image, Distinct;
      ImageNone(d, ws);
      while tail < |lh|
        invariant 0 <= tail <= |lh|
        invariant forall b :: b in pinned ==> b in lh[tail..]
        invariant disk == Image(d, ws, tail)
        invariant trace == old(trace) + ws[..tail]
      {
        assert L.InLog(L.start + tail + 1) && L.start + tail + 1 !in pinned;
        var lbuf := Bread(L.start + tail + 1);
        ImageElsewhere(d, ws, tail, L.start + tail + 1);
        assert ws[tail] == Write(lh[tail], lbuf);
        WriteMore(d, old(trace), ws, tail);
        Bwrite(lh[tail], lbuf);
        tail := tail + 1;
      }
    }

    /** install_trans() and the write_head() that erases the header. */
    method InstallAndClear(ghost c: Disk, ghost data: seq<Block>)
      requires c == disk && Loggable(L, c, lh) && data == LogBlocks(L, c, |lh|)
      requires forall b :: b in pinned ==> b in lh
      modifies `disk, `pinned, `trace, `lh
      ensures lh == [] && pinned == map[]
      ensures L.Fits(c) && |data| == |old(lh)|
      ensures disk == Image(c, InstallAndErase(L, c[L.start], old(lh), data), |data| + 1)
      ensures trace == old(trace) + InstallAndErase(L, c[L.start], old(lh), data)
    {
      InstallTrans(c, data);
      UpdatedAt(L, c, lh, data, L.start);
      ImagePrefix(c, Installs(lh, data), [Write(L.start, PutHead(c[L.start], []))], |lh|);
      lh := [];
      WriteHead();
    }

    /** write_log() and the write_head() that commits. */
    method WriteTransaction(ghost d: Disk, ghost data: seq<Block>)
      requires d == disk && Cached(lh, pinned) && data == Contents(lh, pinned)
      requires Committable(L, d, lh, data) && forall b :: b in pinned ==> b in lh
      modifies `disk, `pinned, `trace
      ensures pinned == old(pinned)
      ensures disk == CommitImage(L, d, lh, data)
      ensures trace == old(trace) + LogAndHead(L, d[L.start], lh, data)
    {
      hide Head, Contents, SameHome;
      WriteLog(d, data);
      LogWritesAt(L, d, data, |lh|);
      ImagePrefix(d, LogWrites(L, data), [Write(L.start, PutHead(d[L.start], lh))], |lh|);
      WriteHead();
    }

    /** commit(): performs exactly CommitWrites, the list the crash theorems are about. */
    method Commit(ghost d: Disk, ghost data: seq<Block>)
      requires d == disk && Cached(lh, pinned) && data == Contents(lh, pinned)
      requires Committable(L, d, lh, data) && forall b :: b in pinned ==> b in lh
      modifies `disk, `pinned, `trace, `lh
      ensures lh == [] && pinned == map[]
      ensures disk == Image(d, CommitWrites(L, d, old(lh), data), |CommitWrites(L, d, old(lh), data)|)
      ensures trace == old(trace) + CommitWrites(L, d, old(lh), data)
    {
      hide *;
      if |lh| > 0 {
        CommitParts(L, d, lh, data);
        ghost var c := CommitImage(L, d, lh, data);
        WriteTransaction(d, data);
        InstallAndClear(c, data);
      } else {
        assert lh == [] && data == [];
        CommitNothing(L, d);
        assert pinned == map[];
      }
    }

    /** read_head: the list in memory becomes the one in the header block. */
    method ReadHead()
      requires GoodDisk(L, disk) && pinned == map[]
      modifies `lh
      ensures lh == Head(disk[L.start])
    {
      var buf := Bread(L.start);
      lh := [];
      var i := 0;
      while i < buf[0]
        invariant 0 <= i <= buf[0]
        invariant lh == buf[1..1 + i]
      {
        lh := lh + [buf[i + 1]];
        i := i + 1;
      }
    }

    /** recover_from_log(), run after a restart: no buffer is cached yet. */
    method RecoverFromLog()
      requires GoodDisk(L, disk) && pinned == map[]
      modifies `disk, `pinned, `trace, `lh
      ensures GoodDisk(L, old(disk)) && disk == Recovered(L, old(disk))
      ensures trace == old(trace) + RecoveryWrites(L, old(disk))
      ensures lh == [] && pinned == map[]
    {
      ReadHead();
      InstallAndClear(disk, LogBlocks(L, disk, |lh|));
    }

    /** One trip round begin_op()'s loop; `mustSleep` tells whether it has to sleep and retry. */
    method BeginOp() returns (mustSleep: bool)
      modifies `outstanding
      ensures mustSleep <==> committing || |lh| + (old(outstanding) + 1) * MAXOPBLOCKS > LOGSIZE
      ensures outstanding == old(outstanding) + if mustSleep then 0 else 1
    {
      if committing {
        mustSleep := true;
      } else if |lh| + (outstanding + 1) * MAXOPBLOCKS > LOGSIZE {
        mustSleep := true;
      } else {
        outstanding := outstanding + 1;
        mustSleep := false;
      }
    }

    /** end_op(): the last operation out commits, with committing set while it does. */
    method EndOp() returns (panicked: bool)
      requires Valid() && outstanding > 0 && disk[L.start][0] == 0
      modifies `disk, `pinned, `trace, `lh, `outstanding, `committing
      ensures !panicked && outstanding == old(outstanding) - 1 && !committing
      ensures old(outstanding) > 1 ==> disk == old(disk) && trace == old(trace) && lh == old(lh) && pinned == old(pinned)
      ensures old(outstanding) == 1 ==>
                && Committable(L, old(disk), old(lh), Contents(old(lh), old(pinned))) && lh == [] && pinned == map[]
                && SameHome(L, disk, Updated(old(disk), old(lh), Contents(old(lh), old(pinned)))) && disk[L.start][0] == 0
                && trace == old(trace) + CommitWrites(L, old(disk), old(lh), Contents(old(lh), old(pinned)))
    {
      var doCommit := false;
      outstanding := outstanding - 1;
      if committing { return true; }
      if outstanding == 0 {
        doCommit := true;
        committing := true;
      }
      if doCommit {
        ghost var data := Contents(lh, pinned);
        assert Committable(L, disk, lh, data);
        hide Image, CommitWrites, Updated, SameHome, Loggable, Contents;
        CommitComplete(L, disk, lh, data);
        Commit(disk, data);
        committing := false;
      }
      return false;
    }

    /** log_write(b) by a caller that holds the buffer of home block b with contents data. */
    method LogWrite(b: uint, data: Block) returns (panicked: bool)
      requires Valid() && L.Home(disk, b)
      modifies `lh, `pinned
      ensures panicked <==> !L.HasRoom(|old(lh)|) || outstanding < 1
      ensures panicked ==> lh == old(lh) && pinned == old(pinned)
      ensures !panicked ==> Valid() && lh == Absorb(old(lh), b) && pinned == old(pinned)[b := data]
    {
      if |lh| >= LOGSIZE || |lh| >= L.size - 1 {
        return true;
      }
      if outstanding < 1 {
        return true;
      }
      var i := 0;
      while i < |lh|
        invariant 0 <= i <= |lh|
        invariant b !in lh[..i]
      {
        if lh[i] == b { break; }
        i := i + 1;
      }
      if i == |lh| {
        assert b !in lh;
        lh := lh + [b];
      } else {
        lh := lh[i := b];
        assert lh == old(lh) && lh[i] == b;
      }
      pinned := pinned[b := data];
      panicked := false;
    }
  }
}
