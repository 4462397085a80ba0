/** The FAT accessors of kernel/fs/fat/utils.c over the two-slot FAT buffer of fat.c, with no
    journal handle. */
module FatBuffers {
  import opened Bits
  import opened SectorCache
  import opened BlockCaches
  import opened FatEntries

  /** get_u32 */
  method LoadU32(d: Data, o: nat) returns (v: nat)
    requires o + 4 <= |d|
    ensures v == GetU32(d, o)
  {
    v := (d[o] as int) + (d[o + 1] as int) * Pow2(8) + (d[o + 2] as int) * Pow2(16) + (d[o + 3] as int) * Pow2(24);
    BytePowers();
  }

  lemma BytePowers()
    ensures Pow2(8) == 0x100 && Pow2(16) == 0x1_0000 && Pow2(24) == 0x100_0000
  {
    assert Pow2(4) == 16;
    assert Pow2(8) == 16 * Pow2(4);
    assert Pow2(12) == 16 * Pow2(8);
    assert Pow2(16) == 16 * Pow2(12);
    assert Pow2(20) == 16 * Pow2(16);
    assert Pow2(24) == 16 * Pow2(20);
  }

  /** (num >> shift) & 0xFF */
  lemma ByteAt(num: nat, p: nat)
    requires p > 0
    ensures And(num / p, 0xFF) == num / p % 0x100
  {
    hide And;
    BytePowers();
    AndLowMask(num / p, 8);
  }

  /** set_u32 */
  method StoreU32(d: Data, o: nat, num: nat) returns (r: Data)
    requires o + 4 <= |d| && num < WORD
    ensures r == SetU32(d, o, num)
  {
    hide And;
    ByteAt(num, 1);
    ByteAt(num, 0x100);
    ByteAt(num, 0x1_0000);
    ByteAt(num, 0x100_0000);
    r := d[o := And(num, 0xFF)];
    r := r[o + 1 := And(num / 0x100, 0xFF)];
    r := r[o + 2 := And(num / 0x1_0000, 0xFF)];
    r := r[o + 3 := And(num / 0x100_0000, 0xFF)];
  }

  class FatBuffer {
    const cache: BlockCache
    const geometry: Geometry

    ghost predicate Valid()
      reads cache, cache.slots
    {
      && cache.Valid() && FatOk(cache.State(), geometry)
      && geometry.sectorsPerFat <= 0x20_0000 // so that clus << 2 does not overflow
    }

    /** The logical FAT. */
    ghost function Entries32(): (t: seq<nat>)
      requires Valid()
      reads cache, cache.slots
      ensures |t| == Entries(geometry)
    {
      Table(cache.State(), geometry)
    }

    /** The two FAT copies on the device agree. */
    ghost predicate CopiesAgree()
      requires Valid()
      reads cache, cache.slots
    {
      Mirrored(cache.State(), FatSectors(geometry))
    }

    constructor (device: map<nat, Data>, g: Geometry)
      requires 0 < g.sectorsPerFat <= 0x20_0000 && g.base + g.reserved + g.sectorsPerFat < NO_SECTOR
      requires forall s :: s in FatSectors(g) ==>
                 s in device && s + g.sectorsPerFat in device && |device[s]| == SECTOR_SIZE
      ensures Valid() && fresh(cache) && fresh(cache.slots) && geometry == g && cache.dev == device
      ensures cache.slots.Length == 2
      ensures forall s :: s in FatSectors(g) ==> Logical(cache.State(), s) == device[s]
      ensures forall t :: BothHold(device, g, t) ==> Entries32() == t && CopiesAgree()
    {
      cache := new BlockCache(2, device, g.sectorsPerFat); // FAT_BUF_NUM
      geometry := g;
      new;
      forall s | s in FatSectors(g) ensures Logical(cache.State(), s) == device[s] {
        assert Find(cache.State().slots, s) == 2;
      }
      forall t | BothHold(device, g, t) ensures Entries32() == t && CopiesAgree() { EmptyShows(cache.State(), g, t); }
    }

    /** cluster_to_fat_entry */
    method ClusterToFatEntry(clus: nat) returns (sector: nat, offset: nat)
      requires clus < Entries(geometry) && geometry.sectorsPerFat <= 0x20_0000
      ensures sector == FatSector(geometry, clus) && offset == FatOffset(clus)
      ensures 512 * sector + offset == 512 * (geometry.reserved + geometry.base) + 4 * clus && offset < 512
    {
      hide And;
      EntryLocations(geometry, clus, clus);
      var fatOffset := clus * 4 % WORD;
      Pow2Values();
      AndLowMask(fatOffset, 9);
      sector := geometry.reserved + fatOffset / Pow2(9) + geometry.base;
      offset := And(fatOffset, 511);
    }

    /** get_fat_entry_value */
    method GetFatEntryValue(clus: nat) returns (value: nat)
      requires Valid() && clus < Entries(geometry)
      modifies cache`head, cache`dev, cache.slots
      ensures Valid() && value == Low28(Entries32()[clus])
      ensures Entries32() == old(Entries32()) && (old(CopiesAgree()) ==> CopiesAgree())
      ensures (cache.State(), value) == GetEntry(old(cache.State()), geometry, clus)
    {
      hide And, Table, FatOk, Mirrored, Read;
      GetEntryFacts(cache.State(), geometry, clus);
      EntryReady(clus);
      var sector, offset := ClusterToFatEntry(clus);
      var index := cache.ReadBlock(sector);
      var word := LoadU32(cache.slots[index].data, offset);
      MaskedEntry(word, 0);
      value := And(word, 0x0FFF_FFFF);
    }

    /** fs_modify_fat */
    method FsModifyFat(clus: nat, clusEntryVal: nat)
      requires Valid() && clus < Entries(geometry) && clusEntryVal < WORD
      modifies cache`head, cache`dev, cache.slots
      ensures Valid() && (old(CopiesAgree()) ==> CopiesAgree())
      ensures Entries32() == old(Entries32())[clus := NewEntry(old(Entries32())[clus], clusEntryVal)]
      ensures cache.State() == SetEntry(old(cache.State()), geometry, clus, clusEntryVal)
    {
      hide And, Or, Table, FatOk, Mirrored, Read, SetU32, GetU32;
      SetEntryFacts(cache.State(), geometry, clus, clusEntryVal);
      EntryReady(clus);
      var sector, offset := ClusterToFatEntry(clus);
      var index := cache.ReadBlock(sector);
      var word := LoadU32(cache.slots[index].data, offset);
      MaskedEntry(word, clusEntryVal);
      NewEntryFacts(word, clusEntryVal);
      var data := StoreU32(cache.slots[index].data, offset, Or(And(word, 0xF000_0000), And(clusEntryVal, 0x0FFF_FFFF)));
      cache.PutSlot(index, data);
    }

    lemma EntryReady(clus: nat)
      requires Valid() && clus < Entries(geometry)
      ensures FatSector(geometry, clus) in cache.dev
      ensures var (d, k) := Read(cache.State(), FatSector(geometry, clus)); |d.slots[k].data| == SECTOR_SIZE
    {
      EntryLocations(geometry, clus, clus);
      ReadKeeps(cache.State(), FatSector(geometry, clus), FatSectors(geometry));
    }

    /** The FAT part of fs_fflush. */
    method Flush()
      requires Valid()
      modifies cache`dev, cache.slots
      ensures Valid() && Entries32() == old(Entries32()) && (old(CopiesAgree()) ==> CopiesAgree())
      ensures forall s :: s in FatSectors(geometry) ==> s in cache.dev && cache.dev[s] == Logical(cache.State(), s)
      ensures cache.State() == FlushFrom(old(cache.State()), 0)
      ensures old(CopiesAgree()) ==> BothHold(cache.dev, geometry, Entries32())
    {
      if CopiesAgree() { FlushedHolds(cache.State(), geometry); }
      FlushFacts(cache.State(), geometry);
      FlushWritesAll(cache.State(), FatSectors(geometry));
      FlushKeeps(cache.State(), 0, FatSectors(geometry));
      hide Table, FatOk, Mirrored, FlushFrom, HoldsTable;
      cache.Flush();
    }
  }
}
