/** iput with the inode itself: an inode without links goes with its last reference (fs.c). */
module Inodes {
  import opened FsModel
  import opened FileSystem
  import opened Paths

  /** fs with inode i given back: no type, no size, no blocks; every other inode and file as it was. */
  ghost predicate GivenBack(fs: Fs, gs: Fs, i: nat) {
    && Shaped(fs) && Shaped(gs) && i < |fs.inodes| == |gs.inodes|
    && gs.inodes[i].typ == 0 && gs.inodes[i].size == 0 && (forall l :: 0 <= l <= NDIRECT ==> gs.inodes[i].addrs[l] == 0)
    && (forall e :: 0 <= e < |fs.inodes| && e != i ==> gs.inodes[e] == fs.inodes[e] && Files(gs)[e] == Files(fs)[e])
  }

  /** Free inode i and everything it holds. */
  method Free(f: FileSys, i: nat)
    requires Shaped(f.fs) && Exact(f.meta, f.fs, f.owner) && i < |f.fs.inodes| == |f.dinodes|
    modifies f
    ensures GivenBack(old(f.fs), f.fs, i) && Exact(f.meta, f.fs, f.owner) && Disowned(old(f.owner), f.owner, i)
    ensures f.dinodes == old(f.dinodes)[i := f.fs.inodes[i]]
  {
    hide Exact, Files, Disowned;
    f.Itrunc(i);
    ghost var gs := f.fs;
    SetFields(f.meta, f.fs, f.owner, i, f.fs.inodes[i].(typ := 0));
    f.fs := f.fs.(inodes := f.fs.inodes[i := f.fs.inodes[i].(typ := 0)]);
    SameFiles(gs, f.fs);
    f.Iupdate(i);
  }

  /**
   Drop the reference in slot ip, whose inode is in memory if valid says so.  The inode and its blocks
   are given back exactly if that was the last reference and no directory entry is left.
   */
  method Iput(icache: ICache, f: FileSys, ip: nat, valid: bool) returns (freed: bool)
    requires Distinct(icache.slots) && ip < NINODE && icache.slots[ip].ref > 0
    requires Shaped(f.fs) && Exact(f.meta, f.fs, f.owner) && icache.slots[ip].inum < |f.fs.inodes| == |f.dinodes|
    modifies icache, f
    ensures Distinct(icache.slots) && RefsChange(old(icache.slots), icache.slots, old(icache.slots)[ip].inum, -1)
    ensures icache.slots == old(icache.slots)[ip := old(icache.slots)[ip].(ref := old(icache.slots)[ip].ref - 1)]
    ensures var i := old(icache.slots)[ip].inum;
            && (freed <==> valid && old(f.fs).inodes[i].nlink == 0 && Refs(old(icache.slots), i) == 1)
            && Exact(f.meta, f.fs, f.owner)
            && (if freed then
                  && GivenBack(old(f.fs), f.fs, i) && Disowned(old(f.owner), f.owner, i)
                  && f.dinodes == old(f.dinodes)[i := f.fs.inodes[i]]
                else f.fs == old(f.fs) && f.owner == old(f.owner) && f.dinodes == old(f.dinodes) && f.logged == old(f.logged))
  {
    hide Exact, Files, Disowned, GivenBack, RefsChange;
    var i := icache.slots[ip].inum;
    OnlySlot(icache.slots, ip);
    freed := valid && f.fs.inodes[i].nlink == 0 && icache.slots[ip].ref == 1;
    if freed {
      Free(f, i);
    }
    icache.Iput(ip);
  }
}
