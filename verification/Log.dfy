/**
 The redo log of log.c, as the list of single-block disk writes that commit() and
 recover_from_log() perform.  A crash between two writes is a prefix of such a list.
 */
module Log {
  import opened Base

  /** A block is its 128 32-bit words; struct logheader is laid over them. */
  type Block = b: seq<uint> | |b| == 128 witness seq(128, _ => 0)

  type Disk = seq<Block>

  datatype Write = Write(addr: nat, data: Block)

  /** Where the log lies: block `start` is the header, start+1.. are the log blocks. */
  datatype Layout = Layout(start: nat, size: nat) {
    predicate InLog(b: int) { start <= b < start + size }
    predicate Home(d: Disk, b: int) { 0 <= b < |d| && !InLog(b) }
    predicate Fits(d: Disk) { 0 < size && start + size <= |d| <= TWO32 }
    /** The guard of log_write: room for one more block. */
    predicate HasRoom(n: nat) { n < LOGSIZE && n < size - 1 }
  }

  /** One iderw() write; iderw panics on a block past the end of the disk. */
  ghost function Put(d: Disk, w: Write): (r: Disk)
    ensures |r| == |d|
  {
    if w.addr < |d| then d[w.addr := w.data] else d
  }

  /** The disk after the first k writes of ws. */
  ghost function Image(d: Disk, ws: seq<Write>, k: nat): (r: Disk)
    requires k <= |ws|
    ensures |r| == |d|
  {
    if k == 0 then d else Put(Image(d, ws, k - 1), ws[k - 1])
  }

  // ---------------------------------------------------------------- the header block

  /** The block numbers of struct logheader: word 0 is n, words 1..n are block[]. */
  function Head(b: Block): seq<uint> {
    if b[0] <= LOGSIZE then b[1..1 + b[0]] else []
  }

  /** r is header block b after write_head: entries past n keep whatever was there. */
  predicate IsHead(b: Block, lh: seq<uint>, r: Block) {
    r[0] == |lh| && |lh| <= LOGSIZE && r[1..1 + |lh|] == lh && r[1 + |lh|..] == b[1 + |lh|..]
  }

  ghost function PutHead(b: Block, lh: seq<uint>): (r: Block)
    requires |lh| <= LOGSIZE
    ensures IsHead(b, lh, r) && Head(r) == lh
  {
    assert IsHead(b, lh, [|lh|] + lh + b[1 + |lh|..]);
    var r: Block :| IsHead(b, lh, r);
    r
  }

  predicate Distinct(s: seq<uint>) {
    forall i, j :: 0 <= i < j < |s| ==> s[i] != s[j]
  }

  /** A list of blocks the log can hold: distinct home blocks, no more than there are slots. */
  predicate Loggable(L: Layout, d: Disk, lh: seq<uint>) {
    && L.Fits(d)
    && |lh| <= LOGSIZE && |lh| < L.size
    && Distinct(lh)
    && forall i :: 0 <= i < |lh| ==> L.Home(d, lh[i])
  }

  predicate GoodDisk(L: Layout, d: Disk) {
    L.Fits(d) && d[L.start][0] <= LOGSIZE && Loggable(L, d, Head(d[L.start]))
  }

  // ---------------------------------------------------------------- the writes of commit and recovery

  ghost function LogWrites(L: Layout, data: seq<Block>): seq<Write> {
    seq(|data|, i requires 0 <= i < |data| => Write(L.start + 1 + i, data[i]))
  }

  ghost function Installs(lh: seq<uint>, data: seq<Block>): seq<Write>
    requires |lh| == |data|
  {
    seq(|lh|, i requires 0 <= i < |lh| => Write(lh[i], data[i]))
  }

  /** From the commit point on: install every logged block, then erase the header. */
  ghost function InstallAndErase(L: Layout, head: Block, lh: seq<uint>, data: seq<Block>): seq<Write>
    requires |lh| == |data|
  {
    Installs(lh, data) + [Write(L.start, PutHead(head, []))]
  }

  /** write_log() and the first write_head(). */
  ghost function LogAndHead(L: Layout, head: Block, lh: seq<uint>, data: seq<Block>): seq<Write>
    requires |lh| <= LOGSIZE
  {
    LogWrites(L, data) + [Write(L.start, PutHead(head, lh))]
  }

  /** Everything commit() writes, in order; data holds the cached contents of the blocks lh. */
  ghost function CommitWrites(L: Layout, d: Disk, lh: seq<uint>, data: seq<Block>): seq<Write>
    requires Loggable(L, d, lh) && |data| == |lh|
  {
    if lh == [] then []
    else LogAndHead(L, d[L.start], lh, data) + InstallAndErase(L, PutHead(d[L.start], lh), lh, data)
  }

  ghost function LogBlocks(L: Layout, d: Disk, n: nat): seq<Block>
    requires L.Fits(d) && n < L.size
  {
    d[L.start + 1..L.start + 1 + n]
  }

  /** Everything recover_from_log() writes, in order. */
  ghost function RecoveryWrites(L: Layout, d: Disk): (ws: seq<Write>)
    requires GoodDisk(L, d)
    ensures |ws| == |Head(d[L.start])| + 1
  {
    var lh := Head(d[L.start]);
    InstallAndErase(L, d[L.start], lh, LogBlocks(L, d, |lh|))
  }

  ghost function Recovered(L: Layout, d: Disk): (r: Disk)
    requires GoodDisk(L, d)
    ensures |r| == |d|
  {
    Image(d, RecoveryWrites(L, d), |RecoveryWrites(L, d)|)
  }

  ghost predicate SameHome(L: Layout, d: Disk, e: Disk) {
    |d| == |e| && forall b :: L.Home(d, b) ==> d[b] == e[b]
  }

  lemma SameHomeTrans(L: Layout, d: Disk, e: Disk, f: Disk)
    requires SameHome(L, d, e) && SameHome(L, e, f)
    ensures SameHome(L, d, f)
  {
  }

  // ---------------------------------------------------------------- facts about Image

  lemma {:induction false} ImagePrefix(d: Disk, ws: seq<Write>, vs: seq<Write>, k: nat)
    requires k <= |ws|
    ensures Image(d, ws + vs, k) == Image(d, ws, k)
  {
    if k > 0 { ImagePrefix(d, ws, vs, k - 1); }
  }

  lemma {:induction false} ImageConcat(d: Disk, ws: seq<Write>, vs: seq<Write>, k: nat)
    requires k <= |vs|
    ensures Image(d, ws + vs, |ws| + k) == Image(Image(d, ws, |ws|), vs, k)
  {
    if k == 0 {
      ImagePrefix(d, ws, vs, |ws|);
    } else {
      ImageConcat(d, ws, vs, k - 1);
    }
  }

  lemma {:induction false} ImageElsewhere(d: Disk, ws: seq<Write>, k: nat, b: nat)
    requires k <= |ws| && b < |d|
    requires forall i :: 0 <= i < k ==> ws[i].addr != b
    ensures Image(d, ws, k)[b] == d[b]
  {
    if k > 0 { ImageElsewhere(d, ws, k - 1, b); }
  }

  lemma {:induction false} ImageAt(d: Disk, ws: seq<Write>, k: nat, i: nat)
    requires i < k <= |ws| && ws[i].addr < |d|
    requires forall j :: i < j < k ==> ws[j].addr != ws[i].addr
    ensures Image(d, ws, k)[ws[i].addr] == ws[i].data
  {
    if i < k - 1 { ImageAt(d, ws, k - 1, i); }
  }

  /** The disk a commit is meant to produce: block lh[i] holds data[i]. */
  ghost function Updated(d: Disk, lh: seq<uint>, data: seq<Block>): (r: Disk)
    requires |lh| == |data|
    ensures |r| == |d|
  {
    Image(d, Installs(lh, data), |lh|)
  }

  ghost function IndexOf(s: seq<uint>, b: uint): (i: nat)
    requires b in s
    ensures i < |s| && s[i] == b
  {
    var i :| 0 <= i < |s| && s[i] == b;
    i
  }

  lemma UpdatedAt(L: Layout, d: Disk, lh: seq<uint>, data: seq<Block>, b: uint)
    requires Loggable(L, d, lh) && |lh| == |data| && b < |d|
    ensures Updated(d, lh, data)[b] == if b in lh then data[IndexOf(lh, b)] else d[b]
  {
    if b in lh {
      ImageAt(d, Installs(lh, data), |lh|, IndexOf(lh, b));
    } else {
      ImageElsewhere(d, Installs(lh, data), |lh|, b);
    }
  }

  // ---------------------------------------------------------------- crash theorems

  /** What recovery is to leave in block b: the log block listed for it, else its own contents. */
  ghost function RecoveredBlock(L: Layout, d: Disk, b: uint): Block
    requires GoodDisk(L, d) && b < |d|
  {
    var lh := Head(d[L.start]);
    if b in lh then d[L.start + 1 + IndexOf(lh, b)] else d[b]
  }

  lemma RecoveredAt(L: Layout, d: Disk, b: uint)
    requires GoodDisk(L, d) && L.Home(d, b)
    ensures Recovered(L, d)[b] == RecoveredBlock(L, d, b)
  {
    var lh := Head(d[L.start]);
    var data := LogBlocks(L, d, |lh|);
    UpdatedAt(L, d, lh, data, b);
    ImagePrefix(d, Installs(lh, data), [Write(L.start, PutHead(d[L.start], []))], |lh|);
  }

  /** Installing the first k logged blocks touches no block outside the header's list. */
  lemma PartialInstall(L: Layout, d: Disk, k: nat, b: uint)
    requires GoodDisk(L, d) && k < |RecoveryWrites(L, d)|
    requires b < |d| && b !in Head(d[L.start])
    ensures Image(d, RecoveryWrites(L, d), k)[b] == d[b]
  {
    ImageElsewhere(d, RecoveryWrites(L, d), k, b);
  }

  lemma GoodDuringRecovery(L: Layout, d: Disk, k: nat)
    requires GoodDisk(L, d) && k <= |RecoveryWrites(L, d)|
    ensures GoodDisk(L, Image(d, RecoveryWrites(L, d), k))
    ensures Image(d, RecoveryWrites(L, d), k)[L.start]
         == if k < |RecoveryWrites(L, d)| then d[L.start] else PutHead(d[L.start], [])
  {
    if k < |RecoveryWrites(L, d)| {
      PartialInstall(L, d, k, L.start);
    }
  }

  lemma SameRecoveredBlock(L: Layout, d: Disk, e: Disk, b: uint)
    requires GoodDisk(L, d) && GoodDisk(L, e) && |d| == |e| && b < |d|
    requires e[L.start] == d[L.start]
    requires b in Head(d[L.start]) ==>
               e[L.start + 1 + IndexOf(Head(d[L.start]), b)] == d[L.start + 1 + IndexOf(Head(d[L.start]), b)]
    requires b !in Head(d[L.start]) ==> e[b] == d[b]
    ensures RecoveredBlock(L, e, b) == RecoveredBlock(L, d, b)
  {
  }

  lemma SlotNotListed(L: Layout, d: Disk, b: uint)
    requires GoodDisk(L, d) && b in Head(d[L.start])
    ensures L.start + 1 + IndexOf(Head(d[L.start]), b) < |d|
    ensures L.start + 1 + IndexOf(Head(d[L.start]), b) !in Head(d[L.start])
  {
    assert L.InLog(L.start + 1 + IndexOf(Head(d[L.start]), b));
  }

  lemma CrashInInstall(L: Layout, d: Disk, k: nat, b: uint)
    requires GoodDisk(L, d) && k < |RecoveryWrites(L, d)| && L.Home(d, b)
    ensures GoodDisk(L, Image(d, RecoveryWrites(L, d), k))
    ensures RecoveredBlock(L, Image(d, RecoveryWrites(L, d), k), b) == RecoveredBlock(L, d, b)
  {
    hide Image, RecoveryWrites, RecoveredBlock, Loggable, Head, IndexOf;
    GoodDuringRecovery(L, d, k);
    if b in Head(d[L.start]) {
      SlotNotListed(L, d, b);
      PartialInstall(L, d, k, L.start + 1 + IndexOf(Head(d[L.start]), b));
    } else {
      PartialInstall(L, d, k, b);
    }
    SameRecoveredBlock(L, d, Image(d, RecoveryWrites(L, d), k), b);
  }

  /**
   A crash after any k of recovery's own writes leaves a disk from which recovery still reaches
   the same home blocks.
   */
  lemma CrashDuringRecovery(L: Layout, d: Disk, k: nat)
    requires GoodDisk(L, d) && k <= |RecoveryWrites(L, d)|
    ensures GoodDisk(L, Image(d, RecoveryWrites(L, d), k))
    ensures SameHome(L, Recovered(L, Image(d, RecoveryWrites(L, d), k)), Recovered(L, d))
  {
    var e := Image(d, RecoveryWrites(L, d), k);
    GoodDuringRecovery(L, d, k);
    forall b | L.Home(d, b) ensures Recovered(L, e)[b] == Recovered(L, d)[b] {
      RecoveredAt(L, e, b);
      if k < |RecoveryWrites(L, d)| {
        RecoveredAt(L, d, b);
        CrashInInstall(L, d, k, b);
      }
    }
  }

  /** The disks that recovery attempts, each cut short after some number of writes, can leave. */
  ghost predicate ReachedByCrashes(L: Layout, d: Disk, cuts: seq<nat>, e: Disk)
    requires GoodDisk(L, d)
    decreases |cuts|
  {
    if cuts == [] then d == e
    else
      && cuts[0] <= |RecoveryWrites(L, d)|
      && (GoodDuringRecovery(L, d, cuts[0]);
          ReachedByCrashes(L, Image(d, RecoveryWrites(L, d), cuts[0]), cuts[1..], e))
  }

  /** Recovery may crash and start over any number of times. */
  lemma {:induction false} RepeatedCrashes(L: Layout, d: Disk, cuts: seq<nat>, e: Disk)
    requires GoodDisk(L, d) && ReachedByCrashes(L, d, cuts, e)
    ensures GoodDisk(L, e)
    ensures SameHome(L, Recovered(L, e), Recovered(L, d))
    decreases |cuts|
  {
    if cuts != [] {
      var c := Image(d, RecoveryWrites(L, d), cuts[0]);
      CrashDuringRecovery(L, d, cuts[0]);
      RepeatedCrashes(L, c, cuts[1..], e);
      SameHomeTrans(L, Recovered(L, e), Recovered(L, c), Recovered(L, d));
    }
  }

  ghost predicate Committable(L: Layout, d: Disk, lh: seq<uint>, data: seq<Block>) {
    Loggable(L, d, lh) && |data| == |lh| && d[L.start][0] == 0
  }

  /** Image after writing the first k log blocks: no home block and no header changes. */
  lemma LogWritesAt(L: Layout, d: Disk, data: seq<Block>, k: nat)
    requires L.Fits(d) && |data| < L.size && k <= |data|
    ensures Image(d, LogWrites(L, data), k)[L.start] == d[L.start]
    ensures SameHome(L, Image(d, LogWrites(L, data), k), d)
    ensures forall i :: 0 <= i < k ==> Image(d, LogWrites(L, data), k)[L.start + 1 + i] == data[i]
  {
    var ws := LogWrites(L, data);
    forall b | 0 <= b < |d| && (L.Home(d, b) || b == L.start) ensures Image(d, ws, k)[b] == d[b] {
      ImageElsewhere(d, ws, k, b);
    }
    forall i | 0 <= i < k ensures Image(d, ws, k)[L.start + 1 + i] == data[i] {
      ImageAt(d, ws, k, i);
    }
  }

  /** The image right after the commit point. */
  ghost function CommitImage(L: Layout, d: Disk, lh: seq<uint>, data: seq<Block>): (r: Disk)
    requires Committable(L, d, lh, data)
    ensures |r| == |d|
  {
    Image(d, LogAndHead(L, d[L.start], lh, data), |lh| + 1)
  }

  lemma CommitImageAt(L: Layout, d: Disk, lh: seq<uint>, data: seq<Block>)
    requires Committable(L, d, lh, data)
    ensures var c := CommitImage(L, d, lh, data);
            && c[L.start] == PutHead(d[L.start], lh)
            && GoodDisk(L, c) && LogBlocks(L, c, |lh|) == data && SameHome(L, c, d)
  {
    LogWritesAt(L, d, data, |lh|);
    ImagePrefix(d, LogWrites(L, data), [Write(L.start, PutHead(d[L.start], lh))], |lh|);
  }

  /** At the commit point recovery produces the new disk. */
  lemma RecoveredAtCommit(L: Layout, d: Disk, lh: seq<uint>, data: seq<Block>)
    requires Committable(L, d, lh, data)
    ensures GoodDisk(L, CommitImage(L, d, lh, data))
    ensures SameHome(L, Recovered(L, CommitImage(L, d, lh, data)), Updated(d, lh, data))
  {
    var c := CommitImage(L, d, lh, data);
    CommitImageAt(L, d, lh, data);
    forall b | L.Home(d, b) ensures Recovered(L, c)[b] == Updated(d, lh, data)[b] {
      RecoveredAt(L, c, b);
      UpdatedAt(L, d, lh, data, b);
      if b in lh {
        assert LogBlocks(L, c, |lh|)[IndexOf(lh, b)] == data[IndexOf(lh, b)];
      }
    }
  }

  lemma CommitWritesAre(L: Layout, d: Disk, lh: seq<uint>, data: seq<Block>)
    requires Committable(L, d, lh, data) && lh != []
    ensures Loggable(L, d, lh) && L.start < |d| && |lh| == |data| <= LOGSIZE && |LogAndHead(L, d[L.start], lh, data)| == |lh| + 1
    ensures |InstallAndErase(L, PutHead(d[L.start], lh), lh, data)| == |lh| + 1
    ensures CommitWrites(L, d, lh, data)
         == LogAndHead(L, d[L.start], lh, data) + InstallAndErase(L, PutHead(d[L.start], lh), lh, data)
    ensures CommitImage(L, d, lh, data) == Image(d, LogAndHead(L, d[L.start], lh, data), |lh| + 1)
  {
    hide PutHead, IsHead, Image;
  }

  lemma RecoveryWritesAre(L: Layout, c: Disk, head: Block, lh: seq<uint>, data: seq<Block>)
    requires GoodDisk(L, c) && |lh| <= LOGSIZE && |lh| < L.size && c[L.start] == PutHead(head, lh) && LogBlocks(L, c, |lh|) == data
    ensures |lh| == |data| && RecoveryWrites(L, c) == InstallAndErase(L, PutHead(head, lh), lh, data)
  {
    hide IsHead, Loggable, InstallAndErase;
  }

  /** The writes after the commit point are exactly recovery's. */
  lemma CommitTailWrites(L: Layout, d: Disk, lh: seq<uint>, data: seq<Block>)
    requires Committable(L, d, lh, data) && lh != []
    ensures |lh| <= LOGSIZE && GoodDisk(L, CommitImage(L, d, lh, data))
    ensures RecoveryWrites(L, CommitImage(L, d, lh, data)) == InstallAndErase(L, PutHead(d[L.start], lh), lh, data)
  {
    CommitWritesAre(L, d, lh, data);
    CommitImageAt(L, d, lh, data);
    hide *;
    RecoveryWritesAre(L, CommitImage(L, d, lh, data), d[L.start], lh, data);
  }

  lemma CommitTail(L: Layout, d: Disk, lh: seq<uint>, data: seq<Block>, k: nat)
    requires Committable(L, d, lh, data) && lh != []
    requires |lh| < k <= |CommitWrites(L, d, lh, data)|
    ensures GoodDisk(L, CommitImage(L, d, lh, data))
    ensures RecoveryWrites(L, CommitImage(L, d, lh, data))
         == InstallAndErase(L, PutHead(d[L.start], lh), lh, data)
    ensures k - |lh| - 1 <= |RecoveryWrites(L, CommitImage(L, d, lh, data))|
    ensures Image(d, CommitWrites(L, d, lh, data), k)
         == Image(CommitImage(L, d, lh, data), RecoveryWrites(L, CommitImage(L, d, lh, data)), k - |lh| - 1)
  {
    hide *;
    CommitWritesAre(L, d, lh, data);
    CommitTailWrites(L, d, lh, data);
    var ws, vs := LogAndHead(L, d[L.start], lh, data), InstallAndErase(L, PutHead(d[L.start], lh), lh, data);
    assert |ws| == |lh| + 1 && CommitWrites(L, d, lh, data) == ws + vs && k == |ws| + (k - |lh| - 1);
    ImageConcat(d, ws, vs, k - |lh| - 1);
  }

  lemma CommitNothing(L: Layout, d: Disk)
    requires Committable(L, d, [], [])
    ensures CommitWrites(L, d, [], []) == [] && Image(d, [], 0) == d
  {
  }

  /** The whole of commit(): up to the commit point, then install and erase. */
  lemma CommitParts(L: Layout, d: Disk, lh: seq<uint>, data: seq<Block>)
    requires Committable(L, d, lh, data) && lh != []
    ensures var c := CommitImage(L, d, lh, data);
            var tail := InstallAndErase(L, c[L.start], lh, data);
            && Loggable(L, c, lh) && LogBlocks(L, c, |lh|) == data
            && CommitWrites(L, d, lh, data) == LogAndHead(L, d[L.start], lh, data) + tail
            && Image(d, CommitWrites(L, d, lh, data), |CommitWrites(L, d, lh, data)|) == Image(c, tail, |data| + 1)
  {
    CommitImageAt(L, d, lh, data);
    CommitTail(L, d, lh, data, |CommitWrites(L, d, lh, data)|);
  }

  /** Before the commit point recovery has nothing to do. */
  lemma CrashBeforeCommit(L: Layout, d: Disk, lh: seq<uint>, data: seq<Block>, k: nat)
    requires Committable(L, d, lh, data) && k <= |lh|
    ensures k <= |CommitWrites(L, d, lh, data)|
    ensures GoodDisk(L, Image(d, CommitWrites(L, d, lh, data), k))
    ensures SameHome(L, Recovered(L, Image(d, CommitWrites(L, d, lh, data), k)), d)
  {
    var head := PutHead(d[L.start], lh);
    if lh != [] {
      ImagePrefix(d, LogAndHead(L, d[L.start], lh, data), InstallAndErase(L, head, lh, data), k);
      ImagePrefix(d, LogWrites(L, data), [Write(L.start, head)], k);
    }
    LogWritesAt(L, d, data, k);
    var e := Image(d, CommitWrites(L, d, lh, data), k);
    forall b | L.Home(d, b) ensures Recovered(L, e)[b] == d[b] {
      RecoveredAt(L, e, b);
    }
  }

  /** From the commit point on recovery finishes the commit. */
  lemma CrashAfterCommit(L: Layout, d: Disk, lh: seq<uint>, data: seq<Block>, k: nat)
    requires Committable(L, d, lh, data) && k <= |lh| + 1
    ensures GoodDisk(L, CommitImage(L, d, lh, data))
    ensures k <= |RecoveryWrites(L, CommitImage(L, d, lh, data))|
    ensures var e := Image(CommitImage(L, d, lh, data), RecoveryWrites(L, CommitImage(L, d, lh, data)), k);
            GoodDisk(L, e) && SameHome(L, Recovered(L, e), Updated(d, lh, data))
  {
    var c := CommitImage(L, d, lh, data);
    CommitImageAt(L, d, lh, data);
    RecoveredAtCommit(L, d, lh, data);
    CrashDuringRecovery(L, c, k);
    SameHomeTrans(L, Recovered(L, Image(c, RecoveryWrites(L, c), k)), Recovered(L, c), Updated(d, lh, data));
  }

  lemma CommitLength(L: Layout, d: Disk, lh: seq<uint>, data: seq<Block>)
    requires Committable(L, d, lh, data)
    ensures |CommitWrites(L, d, lh, data)| == if lh == [] then 0 else 2 * |lh| + 2
  {
    hide PutHead, IsHead, Loggable;
  }

  /**
   All or nothing: stop commit() after any k single-block writes and recover.  The home blocks
   are the old ones if the non-empty header had not been written, and all the new ones if it had.
   */
  lemma CrashDuringCommit(L: Layout, d: Disk, lh: seq<uint>, data: seq<Block>, k: nat)
    requires Committable(L, d, lh, data) && k <= |CommitWrites(L, d, lh, data)|
    ensures GoodDisk(L, Image(d, CommitWrites(L, d, lh, data), k))
    ensures SameHome(L, Recovered(L, Image(d, CommitWrites(L, d, lh, data), k)),
                     if k <= |lh| then d else Updated(d, lh, data))
  {
    hide *;
    CommitLength(L, d, lh, data);
    if k <= |lh| {
      CrashBeforeCommit(L, d, lh, data, k);
    } else {
      CommitTail(L, d, lh, data, k);
      CrashAfterCommit(L, d, lh, data, k - |lh| - 1);
    }
  }

  /** A commit that runs to the end leaves the new home blocks and an empty header. */
  lemma CommitComplete(L: Layout, d: Disk, lh: seq<uint>, data: seq<Block>)
    requires Committable(L, d, lh, data)
    ensures var e := Image(d, CommitWrites(L, d, lh, data), |CommitWrites(L, d, lh, data)|);
            SameHome(L, e, Updated(d, lh, data)) && e[L.start][0] == 0
  {
    if lh != [] {
      var c := CommitImage(L, d, lh, data);
      CommitTail(L, d, lh, data, |CommitWrites(L, d, lh, data)|);
      RecoveredAtCommit(L, d, lh, data);
      GoodDuringRecovery(L, c, |RecoveryWrites(L, c)|);
    }
  }
}
