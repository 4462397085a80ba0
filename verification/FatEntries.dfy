/** FAT32 table entries inside 512-byte sectors behind the FAT buffer (kernel/fs/fat/utils.c):
    little-endian words, entry locations, and the table as a flat sequence of words. The entry
    format is that of the Microsoft FAT32 File System Specification 1.03, section "FAT Data
    Structure". */
module FatEntries {
  import opened Bits
  import opened SectorCache

  const SECTOR_SIZE: nat := 512
  const LOW28: nat := 0x1000_0000 // 2^28

  // ----- little-endian words -----

  /** get_u32(d + o) */
  function GetU32(d: Data, o: nat): (v: nat)
    requires o + 4 <= |d|
    ensures v < WORD
  {
    (d[o] as int) + (d[o + 1] as int) * 0x100 + (d[o + 2] as int) * 0x1_0000 + (d[o + 3] as int) * 0x100_0000
  }

  /** set_u32(d + o, v) */
  function SetU32(d: Data, o: nat, v: nat): (r: Data)
    requires o + 4 <= |d| && v < WORD
    ensures |r| == |d|
  {
    d[o := v % 0x100][o + 1 := v / 0x100 % 0x100][o + 2 := v / 0x1_0000 % 0x100][o + 3 := v / 0x100_0000 % 0x100]
  }

  lemma WordBytes(v: nat)
    requires v < WORD
    ensures v % 0x100 + v / 0x100 % 0x100 * 0x100 + v / 0x1_0000 % 0x100 * 0x1_0000
            + v / 0x100_0000 % 0x100 * 0x100_0000 == v
  {
    var a := v / 0x100;
    var b := a / 0x100;
    assert v / 0x1_0000 == b;
    assert v / 0x100_0000 == b / 0x100;
    assert a % 0x100 == a - 0x100 * b;
    assert b % 0x100 == b - 0x100 * (b / 0x100);
    assert b / 0x100 < 0x100;
  }

  /** A word reads back as it was written, and words at other aligned offsets are untouched. */
  lemma GetSetU32(d: Data, o: nat, v: nat, p: nat)
    requires o + 4 <= |d| && p + 4 <= |d| && v < WORD && o % 4 == 0 && p % 4 == 0
    ensures GetU32(SetU32(d, o, v), p) == if p == o then v else GetU32(d, p)
  {
    WordBytes(v);
    assert p != o ==> p + 4 <= o || o + 4 <= p;
  }

  // ----- entry locations -----

  /** The fields of fat_info that locate things. */
  datatype Geometry = Geometry(base: nat, reserved: nat, sectorsPerFat: nat)

  function FatSector(g: Geometry, clus: nat): nat
  {
    g.reserved + clus / 128 + g.base
  }

  function FatOffset(clus: nat): (o: nat)
    ensures o % 4 == 0 && o + 4 <= SECTOR_SIZE
  {
    4 * (clus % 128)
  }

  function Entries(g: Geometry): nat
  {
    128 * g.sectorsPerFat
  }

  predicate InFat(g: Geometry, s: nat)
  {
    g.reserved + g.base <= s < g.reserved + g.base + g.sectorsPerFat
  }

  /** The sectors of the first FAT copy. */
  function FatSectors(g: Geometry): set<nat>
  {
    set s: nat | s < g.reserved + g.base + g.sectorsPerFat && InFat(g, s)
  }

  /** With the sectors laid end to end, the entry of a cluster starts four times its number of bytes
      behind the start of the first FAT copy, and inside that copy; different clusters have different
      entry locations. */
  lemma EntryLocations(g: Geometry, c: nat, d: nat)
    requires c < Entries(g) && d < Entries(g)
    ensures FatSector(g, c) in FatSectors(g)
    ensures 512 * FatSector(g, c) + FatOffset(c) == 512 * (g.reserved + g.base) + 4 * c
    ensures FatSector(g, c) == FatSector(g, d) && FatOffset(c) == FatOffset(d) ==> c == d
  {
  }

  // ----- the table behind the cache -----

  /** The FAT buffer is consistent and every FAT sector has 512 bytes. */
  ghost predicate FatOk(c: Cache, g: Geometry)
  {
    && Inv(c, FatSectors(g)) && c.mirror == g.sectorsPerFat
    && forall s :: s in FatSectors(g) ==> |Logical(c, s)| == SECTOR_SIZE
  }

  /** The 32-bit entry of a cluster as a reader sees it. */
  function Entry(c: Cache, g: Geometry, clus: nat): nat
    requires FatSector(g, clus) in c.dev && |Logical(c, FatSector(g, clus))| == SECTOR_SIZE
  {
    GetU32(Logical(c, FatSector(g, clus)), FatOffset(clus))
  }

  ghost function Table(c: Cache, g: Geometry): (t: seq<nat>)
    requires FatOk(c, g)
    ensures |t| == Entries(g)
  {
    seq(Entries(g), i requires 0 <= i < Entries(g) => (EntryLocations(g, i, i); Entry(c, g, i)))
  }

  function Low28(v: nat): nat
  {
    v % LOW28
  }

  /** The top four bits of an entry are reserved and kept. */
  function NewEntry(old_: nat, v: nat): nat
  {
    old_ - Low28(old_) + Low28(v)
  }

  lemma NewEntryFacts(old_: nat, v: nat)
    requires old_ < WORD
    ensures NewEntry(old_, v) < WORD && Low28(NewEntry(old_, v)) == Low28(v)
    ensures NewEntry(old_, v) / LOW28 == old_ / LOW28
  {
  }

  /** The masks of fs_modify_fat compute the new entry. */
  lemma MaskedEntry(old_: nat, v: nat)
    requires old_ < WORD && v < WORD
    ensures Or(And(old_, 0xF000_0000), And(v, 0x0FFF_FFFF)) == NewEntry(old_, v)
    ensures And(old_, 0x0FFF_FFFF) == Low28(old_)
  {
    hide And, Or;
    Pow2Values();
    AndHighMask(old_, 28, 32);
    AndLowMask(v, 28);
    AndLowMask(old_, 28);
    OrDisjoint(old_ / LOW28, Low28(v), 28);
  }

  /** get_fat_entry_value */
  function GetEntry(c: Cache, g: Geometry, clus: nat): (Cache, nat)
    requires FatOk(c, g) && clus < Entries(g)
  {
    EntryLocations(g, clus, clus);
    ReadKeeps(c, FatSector(g, clus), FatSectors(g));
    var (d, k) := Read(c, FatSector(g, clus));
    (d, Low28(GetU32(d.slots[k].data, FatOffset(clus))))
  }

  /** fs_modify_fat */
  function SetEntry(c: Cache, g: Geometry, clus: nat, v: nat): Cache
    requires FatOk(c, g) && clus < Entries(g)
  {
    EntryLocations(g, clus, clus);
    ReadKeeps(c, FatSector(g, clus), FatSectors(g));
    var (d, k) := Read(c, FatSector(g, clus));
    var o := FatOffset(clus);
    var old_ := GetU32(d.slots[k].data, o);
    NewEntryFacts(old_, v);
    Put(d, k, SetU32(d.slots[k].data, o, NewEntry(old_, v)))
  }

  lemma SameTable(c: Cache, d: Cache, g: Geometry)
    requires FatOk(c, g) && Inv(d, FatSectors(g)) && d.mirror == c.mirror && SameLogical(c, d, FatSectors(g))
    ensures FatOk(d, g) && Table(d, g) == Table(c, g)
  {
    forall i | 0 <= i < Entries(g) ensures Table(c, g)[i] == Table(d, g)[i] {
      EntryLocations(g, i, i);
    }
  }

  /** Reading an entry returns the low 28 bits of the table and changes no entry. */
  lemma GetEntryFacts(c: Cache, g: Geometry, clus: nat)
    requires FatOk(c, g) && clus < Entries(g)
    ensures var (d, v) := GetEntry(c, g, clus);
      && FatOk(d, g) && Table(d, g) == Table(c, g) && v == Low28(Table(c, g)[clus])
      && (Mirrored(c, FatSectors(g)) ==> Mirrored(d, FatSectors(g)))
  {
    hide Read, Inv, Mirrored;
    EntryLocations(g, clus, clus);
    ReadKeeps(c, FatSector(g, clus), FatSectors(g));
    SameTable(c, GetEntry(c, g, clus).0, g);
  }

  /** Storing a word at an entry's place in its cached sector changes that entry alone. */
  lemma PutEntryFacts(e: Cache, g: Geometry, k: nat, clus: nat, word: nat)
    requires FatOk(e, g) && k < |e.slots| && clus < Entries(g) && word < WORD
    requires e.slots[k].cur == FatSector(g, clus) && e.slots[k].data == Logical(e, FatSector(g, clus))
    requires |e.slots[k].data| == SECTOR_SIZE
    ensures var d := Put(e, k, SetU32(e.slots[k].data, FatOffset(clus), word));
      && FatOk(d, g) && Table(d, g) == Table(e, g)[clus := word]
      && (Mirrored(e, FatSectors(g)) ==> Mirrored(d, FatSectors(g)))
  {
    EntryLocations(g, clus, clus);
    var data := SetU32(e.slots[k].data, FatOffset(clus), word);
    var d := Put(e, k, data);
    assert e.slots[k].cur != NO_SECTOR;
    hide Inv, Mirrored, SetU32, GetU32, Blocks, Logical;
    PutKeeps(e, k, data, FatSectors(g));
    assert FatOk(d, g);
    forall i | 0 <= i < Entries(g)
      ensures Table(d, g)[i] == if i == clus then word else Table(e, g)[i]
    {
      EntryLocations(g, i, clus);
      GetSetU32(e.slots[k].data, FatOffset(clus), word, FatOffset(i));
    }
  }

  /** Modifying an entry replaces its low 28 bits in the table and changes nothing else. */
  lemma SetEntryFacts(c: Cache, g: Geometry, clus: nat, v: nat)
    requires FatOk(c, g) && clus < Entries(g)
    ensures var d := SetEntry(c, g, clus, v);
      && FatOk(d, g) && Table(d, g) == Table(c, g)[clus := NewEntry(Table(c, g)[clus], v)]
      && (Mirrored(c, FatSectors(g)) ==> Mirrored(d, FatSectors(g)))
  {
    var s, o := FatSector(g, clus), FatOffset(clus);
    EntryLocations(g, clus, clus);
    ReadKeeps(c, s, FatSectors(g));
    var (e, k) := Read(c, s);
    FindUnique(e, FatSectors(g), k);
    hide Read, Inv, Mirrored, SetU32, GetU32, Blocks;
    SameTable(c, e, g);
    var old_ := GetU32(e.slots[k].data, o);
    NewEntryFacts(old_, v);
    PutEntryFacts(e, g, k, clus, NewEntry(old_, v));
  }

  // ----- runs -----

  datatype FatOp = ReadOp(clus: nat) | ModifyOp(clus: nat, value: nat) | FlushOp

  predicate OpsInRange(ops: seq<FatOp>, g: Geometry)
  {
    forall i :: 0 <= i < |ops| ==> ops[i].FlushOp? || ops[i].clus < Entries(g)
  }

  /** A run through the FAT buffer: the buffer afterwards and the values read. */
  ghost function Run(c: Cache, g: Geometry, ops: seq<FatOp>): (Cache, seq<nat>)
    requires FatOk(c, g) && OpsInRange(ops, g)
    decreases |ops|
  {
    if ops == [] then (c, [])
    else
      var rest := ops[1..];
      match ops[0]
      case ReadOp(clus) =>
        GetEntryFacts(c, g, clus);
        var (d, v) := GetEntry(c, g, clus);
        var (e, vs) := Run(d, g, rest);
        (e, [v] + vs)
      case ModifyOp(clus, v) =>
        SetEntryFacts(c, g, clus, v);
        Run(SetEntry(c, g, clus, v), g, rest)
      case FlushOp =>
        FlushFacts(c, g);
        Run(FlushFrom(c, 0), g, rest)
  }

  /** The same run on a flat table, with no cache, no sectors and no bytes. */
  function FlatRun(t: seq<nat>, ops: seq<FatOp>): (r: (seq<nat>, seq<nat>))
    requires forall i :: 0 <= i < |ops| ==> ops[i].FlushOp? || ops[i].clus < |t|
    ensures |r.0| == |t|
    decreases |ops|
  {
    if ops == [] then (t, [])
    else
      var rest := ops[1..];
      match ops[0]
      case ReadOp(clus) =>
        var (u, vs) := FlatRun(t, rest);
        (u, [Low28(t[clus])] + vs)
      case ModifyOp(clus, v) => FlatRun(t[clus := NewEntry(t[clus], v)], rest)
      case FlushOp => FlatRun(t, rest)
  }

  lemma FlushFacts(c: Cache, g: Geometry)
    requires FatOk(c, g)
    ensures var d := FlushFrom(c, 0);
      && FatOk(d, g) && Table(d, g) == Table(c, g)
      && (Mirrored(c, FatSectors(g)) ==> Mirrored(d, FatSectors(g)))
  {
    FlushKeeps(c, 0, FatSectors(g));
    SameTable(c, FlushFrom(c, 0), g);
  }

  /** Over every run of reads, modifications and flushes, whatever is evicted when, the FAT buffer
      answers like a flat table, and the two FAT copies on the device stay equal. */
  lemma {:induction false} RunRefines(c: Cache, g: Geometry, ops: seq<FatOp>)
    requires FatOk(c, g) && OpsInRange(ops, g)
    ensures var (d, vs) := Run(c, g, ops);
      && FatOk(d, g) && (Table(d, g), vs) == FlatRun(Table(c, g), ops)
      && (Mirrored(c, FatSectors(g)) ==> Mirrored(d, FatSectors(g)))
    decreases |ops|
  {
    hide FatOk, Mirrored, Table, GetEntry, SetEntry, FlushFrom;
    if ops != [] {
      var rest := ops[1..];
      match ops[0]
      case ReadOp(clus) =>
        GetEntryFacts(c, g, clus);
        RunRefines(GetEntry(c, g, clus).0, g, rest);
      case ModifyOp(clus, v) =>
        SetEntryFacts(c, g, clus, v);
        RunRefines(SetEntry(c, g, clus, v), g, rest);
      case FlushOp =>
        FlushFacts(c, g);
        RunRefines(FlushFrom(c, 0), g, rest);
    }
  }

  /** The entry of a cluster in the FAT copy that starts shift sectors after the first. */
  function DeviceEntry(c: Cache, g: Geometry, clus: nat, shift: nat): nat
    requires FatSector(g, clus) + shift in c.dev && |c.dev[FatSector(g, clus) + shift]| == SECTOR_SIZE
  {
    GetU32(c.dev[FatSector(g, clus) + shift], FatOffset(clus))
  }

  /** After a flush, both copies on the device hold the entries. */
  lemma FlushedEntry(e: Cache, g: Geometry, clus: nat, shift: nat)
    requires FatOk(e, g) && Mirrored(e, FatSectors(g)) && clus < Entries(g)
    requires shift == 0 || shift == g.sectorsPerFat
    ensures var d := FlushFrom(e, 0);
      && FatSector(g, clus) + shift in d.dev && |d.dev[FatSector(g, clus) + shift]| == SECTOR_SIZE
      && DeviceEntry(d, g, clus, shift) == Table(e, g)[clus]
  {
    hide Mirrored;
    EntryLocations(g, clus, clus);
    FlushWritesAll(e, FatSectors(g));
    assert Table(e, g)[clus] == Entry(e, g, clus);
    assert FatSector(g, clus) + 0 == FatSector(g, clus);
  }

  // ----- the bytes on the card -----

  /** The n sectors from start on exist and have 512 bytes. */
  ghost predicate Sectors(dev: map<nat, Data>, start: nat, n: nat)
  {
    forall s: nat :: start <= s < start + n ==> s in dev && |dev[s]| == 512
  }

  /** Byte p of the sectors from start on, laid end to end. */
  ghost function CardByte(dev: map<nat, Data>, start: nat, n: nat, p: nat): byte
    requires Sectors(dev, start, n) && p < 512 * n
  {
    dev[start + p / 512][p % 512]
  }

  /** Bytes 4 c, ..., 4 c + 3 of the n sectors from start on are the bytes of t[c], the least
      significant one first. */
  ghost predicate HoldsTable(dev: map<nat, Data>, start: nat, n: nat, t: seq<nat>)
  {
    Sectors(dev, start, n) && |t| == 128 * n &&
    forall c: nat :: c < |t| ==> HoldsWord(dev, start, n, c, t[c])
  }

  ghost predicate HoldsWord(dev: map<nat, Data>, start: nat, n: nat, c: nat, v: nat)
    requires Sectors(dev, start, n) && c < 128 * n
  {
    && v < 0x1_0000_0000
    && CardByte(dev, start, n, 4 * c) as int == v % 0x100
    && CardByte(dev, start, n, 4 * c + 1) as int == v / 0x100 % 0x100
    && CardByte(dev, start, n, 4 * c + 2) as int == v / 0x1_0000 % 0x100
    && CardByte(dev, start, n, 4 * c + 3) as int == v / 0x100_0000 % 0x100
  }

  /** The two FAT copies, one behind the other, hold t. */
  ghost predicate BothHold(dev: map<nat, Data>, g: Geometry, t: seq<nat>)
  {
    && HoldsTable(dev, g.reserved + g.base, g.sectorsPerFat, t)
    && HoldsTable(dev, g.reserved + g.base + g.sectorsPerFat, g.sectorsPerFat, t)
  }

  /** The four bytes of a word. */
  lemma BytesOfWord(d: Data, o: nat)
    requires o + 4 <= |d|
    ensures var v := GetU32(d, o);
      && d[o] as int == v % 0x100 && d[o + 1] as int == v / 0x100 % 0x100
      && d[o + 2] as int == v / 0x1_0000 % 0x100 && d[o + 3] as int == v / 0x100_0000 % 0x100
  {
    ByteDigits(d[o] as int, d[o + 1] as int, d[o + 2] as int, d[o + 3] as int);
  }

  lemma ByteDigits(a: nat, b: nat, c: nat, d: nat)
    requires a < 0x100 && b < 0x100 && c < 0x100 && d < 0x100
    ensures var v := a + b * 0x100 + c * 0x1_0000 + d * 0x100_0000;
      && v % 0x100 == a && v / 0x100 % 0x100 == b && v / 0x1_0000 % 0x100 == c && v / 0x100_0000 % 0x100 == d
  {
    var v := a + b * 0x100 + c * 0x1_0000 + d * 0x100_0000;
    assert v / 0x100 == b + c * 0x100 + d * 0x1_0000;
    assert v / 0x1_0000 == c + d * 0x100;
    assert v / 0x100_0000 == d;
  }

  lemma ByteOfEntry(dev: map<nat, Data>, g: Geometry, shift: nat, c: nat, p: nat, i: nat)
    requires Sectors(dev, g.reserved + g.base + shift, g.sectorsPerFat) && c < Entries(g) && i < 4 && p == 4 * c + i
    ensures FatSector(g, c) + shift in dev && |dev[FatSector(g, c) + shift]| == SECTOR_SIZE
    ensures CardByte(dev, g.reserved + g.base + shift, g.sectorsPerFat, p) ==
            dev[FatSector(g, c) + shift][FatOffset(c) + i]
  {
    assert p / 512 == c / 128 && p % 512 == 4 * (c % 128) + i;
  }

  /** A word on the card is the little-endian word at its entry's place. */
  lemma WordOnCard(dev: map<nat, Data>, g: Geometry, shift: nat, c: nat, v: nat)
    requires Sectors(dev, g.reserved + g.base + shift, g.sectorsPerFat) && c < Entries(g)
    ensures FatSector(g, c) + shift in dev && |dev[FatSector(g, c) + shift]| == SECTOR_SIZE
    ensures HoldsWord(dev, g.reserved + g.base + shift, g.sectorsPerFat, c, v)
            <==> v == GetU32(dev[FatSector(g, c) + shift], FatOffset(c))
  {
    var start, n := g.reserved + g.base + shift, g.sectorsPerFat;
    var d, o := dev[FatSector(g, c) + shift], FatOffset(c);
    ByteOfEntry(dev, g, shift, c, 4 * c, 0);
    ByteOfEntry(dev, g, shift, c, 4 * c + 1, 1);
    ByteOfEntry(dev, g, shift, c, 4 * c + 2, 2);
    ByteOfEntry(dev, g, shift, c, 4 * c + 3, 3);
    hide CardByte, FatOffset, FatSector, GetU32;
    BytesOfWord(d, o);
    if HoldsWord(dev, start, n, c, v) {
      WordBytes(v);
      WordBytes(GetU32(d, o));
    }
  }

  /** Empty buffers over a card whose copies both hold t show t. */
  lemma EmptyShows(c: Cache, g: Geometry, t: seq<nat>)
    requires c.mirror == g.sectorsPerFat && c.head < |c.slots| && g.base + g.reserved + g.sectorsPerFat < NO_SECTOR
    requires forall i :: 0 <= i < |c.slots| ==> c.slots[i].cur == NO_SECTOR
    requires BothHold(c.dev, g, t)
    ensures FatOk(c, g) && Table(c, g) == t && Mirrored(c, FatSectors(g))
  {
    forall s | s in FatSectors(g)
      ensures s in c.dev && s + c.mirror in c.dev && c.dev[s + c.mirror] == c.dev[s]
      ensures |c.dev[s]| == SECTOR_SIZE && Logical(c, s) == c.dev[s]
    {
      SameSector(c.dev, g, t, s);
      assert Find(c.slots, s) == |c.slots|;
    }
    hide Logical, HoldsWord, BothHold, Entry, FatSector, FatOffset, GetU32;
    assert FatOk(c, g);
    forall i | 0 <= i < Entries(g) ensures Table(c, g)[i] == t[i] {
      EntryIs(c, g, t, i);
    }
  }

  lemma EntryIs(c: Cache, g: Geometry, t: seq<nat>, i: nat)
    requires BothHold(c.dev, g, t) && i < Entries(g)
    requires forall s :: s in FatSectors(g) ==> s in c.dev && |c.dev[s]| == SECTOR_SIZE && Logical(c, s) == c.dev[s]
    ensures FatSector(g, i) in c.dev && Logical(c, FatSector(g, i)) == c.dev[FatSector(g, i)]
    ensures |c.dev[FatSector(g, i)]| == SECTOR_SIZE && Entry(c, g, i) == t[i]
  {
    hide Logical;
    assert HoldsWord(c.dev, g.reserved + g.base, g.sectorsPerFat, i, t[i]);
    WordOnCard(c.dev, g, 0, i, t[i]);
    EntryLocations(g, i, i);
    hide GetU32, FatSector, FatOffset, HoldsWord;
  }

  /** Two copies of one table have equal sectors. */
  lemma SameSector(dev: map<nat, Data>, g: Geometry, t: seq<nat>, s: nat)
    requires BothHold(dev, g, t) && s in FatSectors(g)
    ensures s in dev && s + g.sectorsPerFat in dev && dev[s + g.sectorsPerFat] == dev[s]
  {
    hide HoldsTable;
    SectorsThere(dev, g, t, s);
    forall q: nat | q < 512 ensures dev[s][q] == dev[s + g.sectorsPerFat][q] {
      TableLength(dev, g, t);
      SameByte(dev, g, t, s, q);
    }
  }

  lemma SectorsThere(dev: map<nat, Data>, g: Geometry, t: seq<nat>, s: nat)
    requires BothHold(dev, g, t) && s in FatSectors(g)
    ensures s in dev && s + g.sectorsPerFat in dev
    ensures |dev[s]| == |dev[s + g.sectorsPerFat]| == 512
  {
    hide HoldsWord;
  }

  lemma TableLength(dev: map<nat, Data>, g: Geometry, t: seq<nat>)
    requires BothHold(dev, g, t)
    ensures |t| == Entries(g)
  {
    hide HoldsWord;
  }

  lemma SameByte(dev: map<nat, Data>, g: Geometry, t: seq<nat>, s: nat, q: nat)
    requires BothHold(dev, g, t) && s in FatSectors(g) && q < 512 && |t| == Entries(g)
    ensures s in dev && s + g.sectorsPerFat in dev && q < |dev[s]| && q < |dev[s + g.sectorsPerFat]|
    ensures dev[s][q] == dev[s + g.sectorsPerFat][q]
  {
    hide HoldsTable, HoldsWord, CardByte, FatSector, FatOffset;
    var start, n, x := g.reserved + g.base, g.sectorsPerFat, s - g.reserved - g.base;
    SectorsThere(dev, g, t, s);
    CopiesHold(dev, g, t, 128 * x + q / 4);
    PlaceInSector(g, x, q);
    ByteOfEntry(dev, g, 0, 128 * x + q / 4, 512 * x + q, q % 4);
    ByteOfEntry(dev, g, n, 128 * x + q / 4, 512 * x + q, q % 4);
    SameWordBytes(dev, start, start + n, n, 128 * x + q / 4, t[128 * x + q / 4], q % 4, 512 * x + q);
  }

  lemma PlaceInSector(g: Geometry, x: nat, q: nat)
    requires q < 512
    ensures var c := 128 * x + q / 4;
      4 * c + q % 4 == 512 * x + q && FatSector(g, c) == g.reserved + g.base + x && FatOffset(c) + q % 4 == q
  {
    var c := 128 * x + q / 4;
    assert c / 128 == x && c % 128 == q / 4;
  }

  lemma CopiesHold(dev: map<nat, Data>, g: Geometry, t: seq<nat>, c: nat)
    requires BothHold(dev, g, t) && c < |t|
    ensures var start, n := g.reserved + g.base, g.sectorsPerFat;
      && Sectors(dev, start, n) && Sectors(dev, start + n, n) && c < 128 * n
      && HoldsWord(dev, start, n, c, t[c]) && HoldsWord(dev, start + n, n, c, t[c])
  {
    hide HoldsWord;
  }

  lemma SameWordBytes(dev: map<nat, Data>, a: nat, b: nat, n: nat, c: nat, v: nat, i: nat, p: nat)
    requires Sectors(dev, a, n) && Sectors(dev, b, n) && c < 128 * n && i < 4 && p == 4 * c + i
    requires HoldsWord(dev, a, n, c, v) && HoldsWord(dev, b, n, c, v)
    ensures CardByte(dev, a, n, p) == CardByte(dev, b, n, p)
  {
    hide CardByte;
  }

  /** A flush leaves the table in both copies, byte by byte. */
  lemma FlushedHolds(e: Cache, g: Geometry)
    requires FatOk(e, g) && Mirrored(e, FatSectors(g))
    ensures BothHold(FlushFrom(e, 0).dev, g, Table(e, g))
  {
    hide HoldsTable;
    CopyHolds(e, g, 0);
    CopyHolds(e, g, g.sectorsPerFat);
  }

  lemma CopyHolds(e: Cache, g: Geometry, shift: nat)
    requires FatOk(e, g) && Mirrored(e, FatSectors(g)) && (shift == 0 || shift == g.sectorsPerFat)
    ensures HoldsTable(FlushFrom(e, 0).dev, g.reserved + g.base + shift, g.sectorsPerFat, Table(e, g))
  {
    hide Mirrored, FatOk, Table, FlushFrom, HoldsWord, FatSector;
    var d, t := FlushFrom(e, 0), Table(e, g);
    var start, n := g.reserved + g.base + shift, g.sectorsPerFat;
    forall s: nat | start <= s < start + n ensures s in d.dev && |d.dev[s]| == 512 {
      FirstEntry(g, s - start);
      FlushedEntry(e, g, 128 * (s - start), shift);
    }
    forall i: nat | i < |t| ensures HoldsWord(d.dev, start, n, i, t[i]) {
      FlushedEntry(e, g, i, shift);
      WordOnCard(d.dev, g, shift, i, t[i]);
    }
  }

  lemma FirstEntry(g: Geometry, x: nat)
    ensures FatSector(g, 128 * x) == g.reserved + g.base + x
  {
  }

  /** From a card whose FAT copies hold t, with empty buffers: over every run of reads, modifications
      and flushes the values read are those of the flat table t, and after a last flush both copies hold
      the flat table, byte by byte. */
  lemma CardRun(c: Cache, g: Geometry, t: seq<nat>, ops: seq<FatOp>)
    requires c.mirror == g.sectorsPerFat && c.head < |c.slots| && g.base + g.reserved + g.sectorsPerFat < NO_SECTOR
    requires forall i :: 0 <= i < |c.slots| ==> c.slots[i].cur == NO_SECTOR
    requires BothHold(c.dev, g, t) && OpsInRange(ops, g)
    ensures FatOk(c, g)
    ensures Run(c, g, ops).1 == FlatRun(t, ops).1
    ensures BothHold(FlushFrom(Run(c, g, ops).0, 0).dev, g, FlatRun(t, ops).0)
  {
    hide FatOk, Mirrored, Table, Run, FlatRun, HoldsTable, FlushFrom;
    EmptyShows(c, g, t);
    RunRefines(c, g, ops);
    FlushedHolds(Run(c, g, ops).0, g);
  }
}
