/** The loop of fs_rm and fs_rmdir (kernel/fs/fat/usr.c) that releases a chain through the FAT
    buffer. */
module Removal {
  import opened FatEntries
  import opened FatBuffers
  import opened Clusters

  /** It ends on every FAT, cyclic ones included, and computes Release. */
  method ReleaseChain(fat: FatBuffer, total: nat, start: nat)
    requires fat.Valid() && TableOk(fat.Entries32(), total)
    modifies fat.cache`head, fat.cache`dev, fat.cache.slots
    ensures fat.Valid() && fat.Entries32() == Release(old(fat.Entries32()), total, start)
    ensures old(fat.CopiesAgree()) ==> fat.CopiesAgree()
  {
    hide FatOk, Table, Used, fat.CopiesAgree, NewEntry;
    var clus: nat := start;
    while clus != 0 && clus <= total + 1
      invariant fat.Valid() && TableOk(fat.Entries32(), total)
      invariant Release(fat.Entries32(), total, clus) == Release(old(fat.Entries32()), total, start)
      invariant old(fat.CopiesAgree()) ==> fat.CopiesAgree()
      decreases |Used(fat.Entries32(), total)|, if clus == 0 then 0 else 1
    {
      StepDown(fat.Entries32(), total, clus);
      var next := fat.GetFatEntryValue(clus);
      fat.FsModifyFat(clus, 0);
      clus := next;
    }
  }

  lemma StepDown(t: seq<nat>, total: nat, c: nat)
    requires TableOk(t, total) && InChain(c, total)
    ensures TableOk(Set(t, c, 0), total)
    ensures Succ(t, c) != 0 ==> |Used(Set(t, c, 0), total)| < |Used(t, total)|
    ensures Succ(t, c) == 0 ==> |Used(Set(t, c, 0), total)| == |Used(t, total)|
  {
    SetUsed(t, total, c, 0);
  }
}
