/** filewrite's transactions over the log: what one of them logs is within what begin_op reserved for it. */
module Transactions {
  import opened Base
  import opened Log
  import opened LogSystem
  import opened FileSystem
  import FsModel

  /** One transaction of filewrite: a write of n bytes at off that took file system fs to gs. */
  datatype Chunk = Chunk(fs: FsModel.Fs, gs: FsModel.Fs, i: nat, off: nat, n: nat)

  ghost predicate OfFilewrite(c: Chunk) {
    FileSystem.Wrote(c.fs, c.gs, c.i, c.off, c.n) && FsModel.Dense(c.fs, c.i) && c.n <= CHUNK
  }

  ghost function Blocks(c: Chunk, bmapstart: nat, inodestart: nat): set<nat>
    requires OfFilewrite(c)
  {
    WriteLog(c.fs, c.gs, c.i, c.off, c.n, bmapstart, inodestart)
  }

  /** Every block logged by an operation is logged by its chunk's writei. */
  ghost predicate Filewrites(run: seq<Sys>, steps: seq<Step>, chunks: map<nat, Chunk>, bmapstart: nat, inodestart: nat) {
    && (forall id :: id in chunks ==> OfFilewrite(chunks[id]))
    && forall k :: 0 <= k < |steps| && k < |run| && steps[k].LogWriteOp? && steps[k].i < |run[k].ops| ==>
         var id := run[k].ops[steps[k].i].id; id in chunks && steps[k].b in Blocks(chunks[id], bmapstart, inodestart)
  }

  /** Any number of filewrites at once keep to their reservations, and a log of LOGSIZE blocks has room for them. */
  lemma FilewritesFit(L: Layout, run: seq<Sys>, steps: seq<Step>, chunks: map<nat, Chunk>, bmapstart: nat, inodestart: nat, n: nat)
    requires IsRun(L, run, steps) && n < |run| && Filewrites(run, steps, chunks, bmapstart, inodestart)
    ensures Budgeted(run[n].ops) && |run[n].lh| + Unspent(run[n].ops) <= LOGSIZE
    ensures L.size > LOGSIZE ==> Roomy(L, run[n])
  {
    hide OfFilewrite, WriteLog, Blocks;
    var plan := map id | id in chunks :: Blocks(chunks[id], bmapstart, inodestart);
    forall id | id in plan ensures |plan[id]| <= MAXOPBLOCKS {
      ChunkFits(chunks[id], bmapstart, inodestart);
    }
    forall k | 0 <= k <= n ensures Budgeted(run[k].ops) {
      PlannedBudgeted(L, run, steps, plan, k);
    }
    ReservationsHold(L, run, steps, n);
    if L.size > LOGSIZE { BudgetedRoomy(L, run, steps, n); }
  }

  lemma ChunkFits(c: Chunk, bmapstart: nat, inodestart: nat)
    requires OfFilewrite(c)
    ensures |Blocks(c, bmapstart, inodestart)| <= MAXOPBLOCKS
  {
    hide WriteLog;
    WroteBound(c.fs, c.gs, c.i, c.off, c.n, bmapstart, inodestart);
  }
}
