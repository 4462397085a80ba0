/** File contents as values: the clusters of a chain laid end to end, and what reading and
    writing mean on them (fs_read and fs_write in kernel/fs/fat/fat.c). */
module FileSpec {
  import opened Bits
  import opened SectorCache
  import opened FatEntries
  import opened Clusters

  const CLUSTER_SIZE: nat := 4096
  const SECTORS_PER_CLUSTER: nat := 8

  // ----- the data area behind the cluster buffers -----

  /** fs_wa: the position of the highest set bit. */
  function Wa(num: nat): (r: nat)
    ensures if num == 0 then r == 0 else Pow2(r) <= num < 2 * Pow2(r)
  {
    if num <= 1 then 0 else 1 + Wa(num / 2)
  }

  /** 1 << fs_wa(spc), the factor of a shift by fs_wa: the largest power of two up to spc, and spc
      itself if that is one. */
  function Unit(spc: nat): (r: nat)
    ensures r > 0 && (spc > 0 ==> r <= spc < 2 * r)
    ensures spc == SECTORS_PER_CLUSTER ==> r == SECTORS_PER_CLUSTER
  {
    assert Wa(8) == 3 by { assert Wa(4) == 2 && Wa(2) == 1 && Wa(1) == 0; }
    Pow2Values();
    Pow2(Wa(spc))
  }

  /** fs_dataclus2sec, where unit is Unit of the sectors to a cluster */
  function ClusterSector(unit: nat, first: nat, clus: nat): nat
    requires clus >= 2
  {
    (clus - 2) * unit + first
  }

  /** fs_sec2dataclus */
  function SectorToCluster(unit: nat, first: nat, s: nat): nat
    requires s >= first && unit > 0
  {
    (s - first) / unit + 2
  }

  /** The two conversions are inverse to each other, whatever the cluster size. */
  lemma ConversionsInverse(spc: nat, first: nat, clus: nat, s: nat)
    ensures clus >= 2 ==> SectorToCluster(Unit(spc), first, ClusterSector(Unit(spc), first, clus)) == clus
    ensures s >= first && (s - first) % Unit(spc) == 0 ==>
              ClusterSector(Unit(spc), first, SectorToCluster(Unit(spc), first, s)) == s
  {
    hide Unit;
    InverseAt(Unit(spc), first, clus, s);
  }

  lemma InverseAt(unit: nat, first: nat, clus: nat, s: nat)
    requires unit > 0
    ensures clus >= 2 ==> SectorToCluster(unit, first, ClusterSector(unit, first, clus)) == clus
    ensures s >= first && (s - first) % unit == 0 ==>
              ClusterSector(unit, first, SectorToCluster(unit, first, s)) == s
  {
    if clus >= 2 { ModUnique((clus - 2) * unit, unit, clus - 2, 0); }
  }

  /** The sectors of data clusters lie behind both FAT copies, wherever the volume starts. Those of
      distinct clusters are disjoint if the cluster size is a power of two; otherwise every cluster
      reaches into the next one. */
  lemma RangesDisjoint(spc: nat, g: Geometry, c: nat, d: nat, s: nat)
    requires spc > 0 && c >= 2 && d >= 2
    ensures var first, unit := g.base + g.reserved + 2 * g.sectorsPerFat, Unit(spc);
      && (c < d && spc == unit ==> ClusterSector(unit, first, c) + spc <= ClusterSector(unit, first, d))
      && (spc != unit ==> ClusterSector(unit, first, c + 1) < ClusterSector(unit, first, c) + spc)
      && (s in FatSectors(g) ==> s + g.sectorsPerFat < ClusterSector(unit, first, c))
  {
    hide Unit, ClusterSector;
    var first, unit := g.base + g.reserved + 2 * g.sectorsPerFat, Unit(spc);
    if c < d { ClusterOrder(unit, first, c, d); }
    ClusterOrder(unit, first, c, c + 1);
  }

  lemma ClusterOrder(unit: nat, first: nat, c: nat, d: nat)
    requires 2 <= c < d && unit > 0
    ensures first <= ClusterSector(unit, first, c)
    ensures ClusterSector(unit, first, c) + unit <= ClusterSector(unit, first, d)
    ensures d == c + 1 ==> ClusterSector(unit, first, d) == ClusterSector(unit, first, c) + unit
  {
    MulOrder(c - 2, d - 2, unit);
    assert (c - 2) * unit >= 0;
    if d == c + 1 { assert (d - 2) * unit == (c - 2) * unit + unit; }
  }

  lemma MulOrder(a: nat, b: nat, m: nat)
    requires a < b && m > 0
    ensures a * m + m <= b * m
  {
    assert b * m == a * m + (b - a) * m;
    MulAtLeast(b - a, m);
  }

  /** fs_dataclus2sec on 4096-byte clusters, where Unit(8) is 8 */
  function DataSector(first: nat, clus: nat): nat
    requires clus >= 2
  {
    ClusterSector(SECTORS_PER_CLUSTER, first, clus)
  }

  function SectorCluster(first: nat, s: nat): nat
    requires s >= first
  {
    SectorToCluster(SECTORS_PER_CLUSTER, first, s)
  }

  /** s is the first sector of a data cluster. */
  predicate IsDataSector(total: nat, first: nat, s: nat)
  {
    s >= first && (s - first) % SECTORS_PER_CLUSTER == 0 && (s - first) / SECTORS_PER_CLUSTER < total
  }

  ghost function DataSectors(total: nat, first: nat): set<nat>
  {
    set s: nat | s < first + total * SECTORS_PER_CLUSTER && IsDataSector(total, first, s)
  }

  /** On 4096-byte clusters: the conversions between data clusters and their first sectors. */
  lemma SectorsAndClusters(total: nat, first: nat, clus: nat, s: nat)
    ensures 2 <= clus <= total + 1 ==>
              DataSector(first, clus) in DataSectors(total, first)
                && SectorCluster(first, DataSector(first, clus)) == clus
    ensures IsDataSector(total, first, s) ==>
              && s in DataSectors(total, first) && 2 <= SectorCluster(first, s) <= total + 1
              && DataSector(first, SectorCluster(first, s)) == s
  {
    if 2 <= clus <= total + 1 {
      assert (DataSector(first, clus) - first) / SECTORS_PER_CLUSTER == clus - 2;
    }
  }

  /** The buffers are consistent and every data cluster has 4096 bytes. */
  ghost predicate AreaReady(c: Cache, total: nat, first: nat)
  {
    && c.mirror == 0 && Inv(c, DataSectors(total, first))
    && forall s :: s in DataSectors(total, first) ==> |Logical(c, s)| == CLUSTER_SIZE
  }

  /** Empty buffers over a device that holds every data cluster are ready. */
  lemma EmptyReady(c: Cache, total: nat, first: nat)
    requires c.mirror == 0 && c.head < |c.slots| && first + total * SECTORS_PER_CLUSTER <= NO_SECTOR
    requires forall i :: 0 <= i < |c.slots| ==> c.slots[i].cur == NO_SECTOR
    requires forall s :: s in DataSectors(total, first) ==> s in c.dev && |c.dev[s]| == CLUSTER_SIZE
    ensures AreaReady(c, total, first)
  {
    forall s | s in DataSectors(total, first) ensures Logical(c, s) == c.dev[s] {
      assert Find(c.slots, s) == |c.slots|;
    }
  }

  /** The data clusters 2, 3, ... as readers see them. */
  ghost function Area(c: Cache, total: nat, first: nat): (a: seq<Data>)
    requires AreaReady(c, total, first)
    ensures |a| == total && AreaOk(a)
  {
    seq(total, i requires 0 <= i < total =>
      (SectorsAndClusters(total, first, i + 2, 0); ClusterData(c, total, first, i + 2)))
  }

  ghost function ClusterData(c: Cache, total: nat, first: nat, clus: nat): (d: Data)
    requires AreaReady(c, total, first) && 2 <= clus <= total + 1
    ensures |d| == CLUSTER_SIZE
  {
    SectorsAndClusters(total, first, clus, 0);
    Logical(c, DataSector(first, clus))
  }

  lemma SameArea(c: Cache, d: Cache, total: nat, first: nat)
    requires AreaReady(c, total, first) && Inv(d, DataSectors(total, first)) && d.mirror == 0
    requires SameLogical(c, d, DataSectors(total, first))
    ensures AreaReady(d, total, first) && Area(d, total, first) == Area(c, total, first)
  {
    hide DataSector, IsDataSector, Inv, Logical;
    forall i | 0 <= i < total ensures Area(d, total, first)[i] == Area(c, total, first)[i] {
      SectorsAndClusters(total, first, i + 2, 0);
    }
  }

  /** Reading a cluster delivers its bytes and changes none. */
  lemma LoadFacts(c: Cache, total: nat, first: nat, clus: nat)
    requires AreaReady(c, total, first) && 2 <= clus <= total + 1
    ensures DataSector(first, clus) in c.dev
    ensures var (d, k) := Read(c, DataSector(first, clus));
      && AreaReady(d, total, first) && Area(d, total, first) == Area(c, total, first)
      && d.slots[k].cur == DataSector(first, clus) && d.slots[k].data == Area(c, total, first)[clus - 2]
  {
    hide DataSector, IsDataSector, Logical, Read;
    SectorsAndClusters(total, first, clus, 0);
    ReadKeeps(c, DataSector(first, clus), DataSectors(total, first));
    SameArea(c, Read(c, DataSector(first, clus)).0, total, first);
  }

  lemma SectorInRange(c: Cache, total: nat, first: nat, clus: nat)
    requires AreaReady(c, total, first) && 2 <= clus <= total + 1
    ensures DataSector(first, clus) != NO_SECTOR
  {
    hide DataSector, IsDataSector, Logical;
    SectorsAndClusters(total, first, clus, 0);
  }

  /** Changing the buffer of a cluster changes that cluster alone. */
  lemma StoreFacts(c: Cache, total: nat, first: nat, clus: nat, k: nat, data: Data)
    requires AreaReady(c, total, first) && 2 <= clus <= total + 1 && k < |c.slots|
    requires c.slots[k].cur == DataSector(first, clus) && |data| == CLUSTER_SIZE
    ensures var d := Put(c, k, data);
      AreaReady(d, total, first) && Area(d, total, first) == Area(c, total, first)[clus - 2 := data]
  {
    hide DataSector, IsDataSector, Logical;
    SectorsAndClusters(total, first, clus, 0);
    SectorInRange(c, total, first, clus);
    assert c.slots[k].cur != NO_SECTOR;
    PutKeeps(c, k, data, DataSectors(total, first));
    var d := Put(c, k, data);
    forall i | 0 <= i < total
      ensures Area(d, total, first)[i] == if i == clus - 2 then data else Area(c, total, first)[i]
    {
      SectorsAndClusters(total, first, i + 2, 0);
    }
  }

  /** The device, but no buffer, gets new bytes for a cluster that is not buffered. */
  lemma EraseFacts(c: Cache, total: nat, first: nat, clus: nat, data: Data)
    requires AreaReady(c, total, first) && 2 <= clus <= total + 1 && |data| == CLUSTER_SIZE
    requires Find(c.slots, DataSector(first, clus)) == |c.slots|
    ensures var d := c.(dev := c.dev[DataSector(first, clus) := data]);
      AreaReady(d, total, first) && Area(d, total, first) == Area(c, total, first)[clus - 2 := data]
  {
    hide DataSector, IsDataSector;
    SectorsAndClusters(total, first, clus, 0);
    var a := DataSector(first, clus);
    var d := c.(dev := c.dev[a := data]);
    forall i | 0 <= i < |c.slots| ensures SlotOk(d, i, DataSectors(total, first)) {
      assert SlotOk(c, i, DataSectors(total, first));
      if c.slots[i].cur != NO_SECTOR { FindUnique(c, DataSectors(total, first), i); }
    }
    forall i | 0 <= i < total
      ensures Area(d, total, first)[i] == if i == clus - 2 then data else Area(c, total, first)[i]
    {
      SectorsAndClusters(total, first, i + 2, 0);
    }
  }

  /** Clearing the buffer of a cluster the device holds as zeros changes no cluster. */
  lemma ClearFacts(c: Cache, total: nat, first: nat, clus: nat, zeros: Data)
    requires AreaReady(c, total, first) && 2 <= clus <= total + 1
    requires Find(c.slots, DataSector(first, clus)) == |c.slots| && Area(c, total, first)[clus - 2] == zeros
    ensures var d := Clear(c, DataSector(first, clus), zeros);
      AreaReady(d, total, first) && Area(d, total, first) == Area(c, total, first)
  {
    SectorsAndClusters(total, first, clus, 0);
    assert Logical(c, DataSector(first, clus)) == zeros;
    ClearKeeps(c, DataSector(first, clus), zeros, DataSectors(total, first));
    SameArea(c, Clear(c, DataSector(first, clus), zeros), total, first);
  }

  /** Data cluster clus lies 8 (clus - 2) sectors behind the first data sector. */
  predicate Stored(dev: map<nat, Data>, first: nat, area: seq<Data>, clus: nat)
    requires 2 <= clus <= |area| + 1
  {
    var s := first + 8 * (clus - 2);
    s in dev && dev[s] == area[clus - 2]
  }

  /** With empty buffers, the area is what the device has there. */
  lemma AreaOnDevice(c: Cache, total: nat, first: nat, clus: nat)
    requires AreaReady(c, total, first) && 2 <= clus <= total + 1
    requires forall i :: 0 <= i < |c.slots| ==> c.slots[i].cur == NO_SECTOR
    ensures Stored(c.dev, first, Area(c, total, first), clus)
  {
    SectorsAndClusters(total, first, clus, 0);
    assert Find(c.slots, DataSector(first, clus)) == |c.slots|;
  }

  /** After writing back all buffers, the device has there what readers saw. */
  lemma FlushedArea(c: Cache, total: nat, first: nat)
    requires AreaReady(c, total, first)
    ensures var d := FlushFrom(c, 0);
      && AreaReady(d, total, first) && Area(d, total, first) == Area(c, total, first)
      && forall clus: nat :: 2 <= clus <= total + 1 ==> Stored(d.dev, first, Area(c, total, first), clus)
  {
    hide IsDataSector, Find, FlushFrom;
    FlushWritesAll(c, DataSectors(total, first));
    FlushKeeps(c, 0, DataSectors(total, first));
    SameArea(c, FlushFrom(c, 0), total, first);
    forall clus: nat | 2 <= clus <= total + 1
      ensures Stored(FlushFrom(c, 0).dev, first, Area(c, total, first), clus)
    {
      SectorsAndClusters(total, first, clus, 0);
      assert Area(c, total, first)[clus - 2] == Logical(c, DataSector(first, clus));
    }
  }

  // ----- chains laid end to end -----

  ghost predicate AreaOk(area: seq<Data>)
  {
    forall i :: 0 <= i < |area| ==> |area[i]| == CLUSTER_SIZE
  }

  ghost predicate Distinct(ch: seq<nat>)
  {
    forall i, j :: 0 <= i < j < |ch| ==> ch[i] != ch[j]
  }

  ghost predicate InArea(ch: seq<nat>, total: nat)
  {
    forall i :: 0 <= i < |ch| ==> 2 <= ch[i] <= total + 1
  }

  /** ch is the whole chain that starts at start, or empty if there is no first cluster. */
  ghost predicate IsChain(t: seq<nat>, total: nat, start: nat, ch: seq<nat>)
    requires TableOk(t, total)
  {
    && InArea(ch, total) && Distinct(ch)
    && (if ch == [] then start == 0 else ch[0] == start && Succ(t, ch[|ch| - 1]) > total + 1)
    && (forall i :: 0 <= i < |ch| - 1 ==> Succ(t, ch[i]) == ch[i + 1])
  }

  /** Every cluster of a chain is in use, so a free cluster belongs to no chain. */
  lemma ChainInUse(t: seq<nat>, total: nat, start: nat, ch: seq<nat>)
    requires TableOk(t, total) && IsChain(t, total, start, ch)
    ensures forall i :: 0 <= i < |ch| ==> ch[i] < |t| && Succ(t, ch[i]) != 0
  {
    forall i | 0 <= i < |ch| ensures Succ(t, ch[i]) != 0 {
      if i < |ch| - 1 {
        assert Succ(t, ch[i]) == ch[i + 1];
        assert ch[i + 1] >= 2;
      }
    }
  }

  /** Changing the entry of a cluster outside the chain leaves the chain. */
  lemma ChainKept(t: seq<nat>, total: nat, start: nat, ch: seq<nat>, c: nat, v: nat)
    requires TableOk(t, total) && IsChain(t, total, start, ch) && c < |t| && c !in ch
    ensures TableOk(t[c := v], total) && IsChain(t[c := v], total, start, ch)
  {
  }

  /** Linking a fresh end-of-chain cluster behind the last one extends the chain by it. */
  lemma ChainAppended(t: seq<nat>, total: nat, start: nat, ch: seq<nat>, c: nat)
    requires TableOk(t, total) && IsChain(t, total, start, ch) && ch != []
    requires 2 <= c <= total + 1 && c !in ch && Succ(t, c) > total + 1
    ensures TableOk(Set(t, ch[|ch| - 1], c), total) && IsChain(Set(t, ch[|ch| - 1], c), total, start, ch + [c])
  {
    var last := ch[|ch| - 1];
    var u, ch' := Set(t, last, c), ch + [c];
    NewEntryLow(t[last], c);
    assert Succ(u, last) == c;
    forall i | 0 <= i < |ch'| - 1 ensures Succ(u, ch'[i]) == ch'[i + 1] {
      if i < |ch| - 1 { assert ch[i] != last; }
    }
  }

  /** Byte p of the clusters of ch laid end to end. */
  ghost function ByteAt(area: seq<Data>, ch: seq<nat>, p: int): byte
    requires AreaOk(area) && InArea(ch, |area|) && 0 <= p < CLUSTER_SIZE * |ch|
  {
    area[ch[p / CLUSTER_SIZE] - 2][p % CLUSTER_SIZE]
  }

  ghost function Flat(area: seq<Data>, ch: seq<nat>): (f: seq<byte>)
    requires AreaOk(area) && InArea(ch, |area|)
    ensures |f| == CLUSTER_SIZE * |ch|
  {
    seq(CLUSTER_SIZE * |ch|, p requires 0 <= p < CLUSTER_SIZE * |ch| => ByteAt(area, ch, p))
  }

  /** Cluster k of the file occupies bytes 4096 k, ..., 4096 k + 4095. */
  lemma FlatCluster(area: seq<Data>, ch: seq<nat>, k: nat, i: nat)
    requires AreaOk(area) && InArea(ch, |area|) && k < |ch| && i < CLUSTER_SIZE
    ensures CLUSTER_SIZE * k + i < |Flat(area, ch)|
    ensures Flat(area, ch)[CLUSTER_SIZE * k + i] == area[ch[k] - 2][i]
  {
    var p := CLUSTER_SIZE * k + i;
    assert p / CLUSTER_SIZE == k && p % CLUSTER_SIZE == i;
  }

  lemma FlatSlice(area: seq<Data>, ch: seq<nat>, k: nat, from: nat, to: nat)
    requires AreaOk(area) && InArea(ch, |area|) && k < |ch| && from <= to <= CLUSTER_SIZE
    ensures CLUSTER_SIZE * k + to <= |Flat(area, ch)|
    ensures Flat(area, ch)[CLUSTER_SIZE * k + from..CLUSTER_SIZE * k + to] == area[ch[k] - 2][from..to]
  {
    var a, b := Flat(area, ch)[CLUSTER_SIZE * k + from..CLUSTER_SIZE * k + to], area[ch[k] - 2][from..to];
    forall i | 0 <= i < to - from ensures a[i] == b[i] { FlatCluster(area, ch, k, from + i); }
  }

  /** dst is was, with its first cc bytes replaced by those of content from position from on. */
  ghost predicate Copied(dst: seq<byte>, content: seq<byte>, was: seq<byte>, from: nat, cc: nat)
  {
    from + cc <= |content| && cc <= |was| && dst == content[from..from + cc] + was[cc..]
  }

  lemma CopiedNone(was: seq<byte>, content: seq<byte>, from: nat)
    requires from <= |content|
    ensures Copied(was, content, was, from, 0)
  {
  }

  lemma CopiedMore(dst: seq<byte>, content: seq<byte>, was: seq<byte>, from: nat, cc: nat, piece: seq<byte>)
    requires Copied(dst, content, was, from, cc) && cc + |piece| <= |was| && from + cc + |piece| <= |content|
    requires piece == content[from + cc..from + cc + |piece|]
    ensures Copied(dst[..cc] + piece + dst[cc + |piece|..], content, was, from, cc + |piece|)
  {
  }

  /** The number of bytes fs_read delivers. */
  function ReadLength(size: nat, loc: nat, count: nat): nat
    requires loc <= size
  {
    if loc + count > size then size - loc else count
  }

  // ----- 32-bit sums -----

  /** The count fs_read goes on with. Its end-of-file test adds on 32 bits, so a wrapped sum passes. */
  function Asked(size: nat, loc: nat, count: nat): nat
    requires loc <= size
  {
    if (loc + count) % WORD > size then size - loc else count
  }

  /** The number of bytes the cluster loops of fs_read and fs_write move: none when the end position
      wraps to one in front of the start. */
  function Moved(loc: nat, count: nat): nat
  {
    if loc + count <= WORD then count else 0
  }

  /** The file pointer afterwards. */
  function MovedTo(loc: nat, count: nat): nat
  {
    (loc + count) % WORD
  }

  /** fs_read returns the number of bytes up to the end of the file and advances by it exactly when
      loc + count does not wrap; of a wrapped sum, only the number returned can be right, and only
      at the end of the file. */
  lemma ReadPromiseIff(size: nat, loc: nat, count: nat)
    requires loc <= size < WORD && count < WORD
    ensures var a, n := Asked(size, loc, count), ReadLength(size, loc, count);
      && (Moved(loc, a) == n && MovedTo(loc, a) == loc + n <==> loc + count < WORD)
      && (Moved(loc, a) == n <==> loc + count < WORD || (loc == size && loc + count > WORD))
  {
    if loc + count >= WORD {
      WrappedSum(loc, count);
    }
  }

  lemma WrappedSum(loc: nat, count: nat)
    requires loc < WORD && count < WORD && loc + count >= WORD
    ensures (loc + count) % WORD == loc + count - WORD < loc
  {
  }

  /** Asking for all but 16 of 2^32 bytes from byte 60 of a 100-byte file delivers none of the 40
      bytes there are, and moves the file pointer back to byte 44. */
  lemma WrappedRead()
    ensures Moved(60, Asked(100, 60, 0xFFFF_FFF0)) == 0 && MovedTo(60, Asked(100, 60, 0xFFFF_FFF0)) == 44
    ensures ReadLength(100, 60, 0xFFFF_FFF0) == 40
  {
    WrappedSum(60, 0xFFFF_FFF0);
  }

  /** The size fs_write stores. */
  function Grown(size: nat, loc: nat, count: nat): nat
  {
    if MovedTo(loc, count) > size then MovedTo(loc, count) else size
  }

  /** fs_write writes all its bytes, advances by them and records them in the size exactly when
      loc + count does not wrap. */
  lemma WritePromiseIff(size: nat, loc: nat, count: nat)
    requires loc <= size < WORD && 0 < count < WORD
    ensures Moved(loc, count) == count && MovedTo(loc, count) == loc + count && Grown(size, loc, count) >= loc + count
            <==> loc + count < WORD
  {
    if loc + count >= WORD { WrappedSum(loc, count); }
  }

  /** Where a transfer of cnt bytes from loc ends, on 32 bits: if the sum wraps, in front of its
      start, and otherwise inside the chain. */
  lemma EndPosition(loc: nat, cnt: nat, size: nat, clusters: nat)
    requires loc <= size < WORD && size <= CLUSTER_SIZE * clusters && 0 < cnt < WORD
    ensures loc / CLUSTER_SIZE <= clusters
    ensures var end: nat := (loc + cnt - 1) % WORD;
      var sc, sb, ec, eb := loc / CLUSTER_SIZE, loc % CLUSTER_SIZE, end / CLUSTER_SIZE, end % CLUSTER_SIZE;
      && loc == CLUSTER_SIZE * sc + sb && end == CLUSTER_SIZE * ec + eb
      && (loc + cnt <= WORD ==> end == loc + cnt - 1 && sc <= ec && (sc == ec ==> sb <= eb))
      && (loc + cnt <= CLUSTER_SIZE * clusters && loc + cnt <= WORD ==> ec < clusters)
      && (loc + cnt > WORD ==> ec <= sc && (sc == ec ==> eb < sb && ec < clusters))
  {
  }

  /** The clusters of a file after count bytes went to loc: a wrapped sum may still take one more,
      when the walk to a loc at the end of a full file allocates. */
  function ChainLength(clusters: nat, loc: nat, count: nat): nat
  {
    var last := if 0 < count && loc + count <= WORD then (loc + count - 1) / CLUSTER_SIZE else loc / CLUSTER_SIZE;
    if count == 0 || last < clusters then clusters else last + 1
  }

  /** A write that moves bytes needs as many clusters as hold them, and takes no more than it needs; one
      that moves none because the sum wraps takes one more exactly when loc is behind the last cluster. */
  lemma ChainLengthIs(clusters: nat, loc: nat, count: nat)
    requires loc <= 4096 * clusters && 0 < count
    ensures var n := ChainLength(clusters, loc, count);
      && n >= clusters
      && (loc + count <= 0x1_0000_0000 ==>
            loc + count <= 4096 * n && (n > clusters ==> 4096 * (n - 1) < loc + count))
      && (loc + count > 0x1_0000_0000 ==> n == if loc == 4096 * clusters then clusters + 1 else clusters)
  {
  }

  lemma SumInChain(size: nat, loc: nat, count: nat, clusters: nat)
    requires loc <= size < WORD && size <= CLUSTER_SIZE * clusters && count < WORD
    requires loc + count <= WORD ==> loc + count <= CLUSTER_SIZE * clusters
    ensures MovedTo(loc, count) <= Grown(size, loc, count) < WORD && Grown(size, loc, count) <= CLUSTER_SIZE * clusters
  {
    if loc + count >= WORD { WrappedSum(loc, count); }
  }

  lemma NoMove(size: nat, loc: nat)
    requires loc <= size < WORD
    ensures Moved(loc, 0) == 0 && MovedTo(loc, 0) == loc && Grown(size, loc, 0) == size
    ensures forall n: nat :: ChainLength(n, loc, 0) == n
  {
  }

  lemma SumIsMoved(size: nat, loc: nat, count: nat)
    requires loc <= size < WORD && loc + count < WORD
    ensures Moved(loc, count) == count && MovedTo(loc, count) == loc + count
    ensures Grown(size, loc, count) == if loc + count > size then loc + count else size
  {
  }

  lemma AskedFits(size: nat, loc: nat, count: nat, clusters: nat)
    requires loc <= size < WORD && size <= CLUSTER_SIZE * clusters && count < WORD
    requires loc + count == WORD ==> WORD <= CLUSTER_SIZE * clusters
    ensures var a := Asked(size, loc, count);
      && a < WORD && (loc + a <= WORD ==> loc + a <= CLUSTER_SIZE * clusters)
      && (a == 0 ==> MovedTo(loc, a) == loc) && MovedTo(loc, a) <= size
  {
    if loc + count >= WORD { WrappedSum(loc, count); }
  }

  /** Reading m bytes and then n bytes is reading m + n bytes. */
  lemma ReadsCompose(content: seq<byte>, size: nat, loc: nat, m: nat, n: nat)
    requires loc <= size <= |content|
    ensures var a := ReadLength(size, loc, m);
      var b := ReadLength(size, loc + a, n);
      && ReadLength(size, loc, m + n) == a + b
      && content[loc..loc + a] + content[loc + a..loc + a + b] == content[loc..loc + ReadLength(size, loc, m + n)]
  {
  }

  /** was, extended with zeros to n bytes, after the first done bytes of src went to loc. */
  ghost function Written(was: seq<byte>, n: nat, loc: nat, src: seq<byte>, done: nat): (r: seq<byte>)
    requires done <= |src|
    ensures |r| == n
  {
    seq(n, p requires 0 <= p < n =>
      if loc <= p < loc + done then src[p - loc] else if p < |was| then was[p] else 0)
  }

  /** Appending a cluster of zeros. */
  lemma FlatAppend(area: seq<Data>, ch: seq<nat>, c: nat, zeros: Data, was: seq<byte>, loc: nat, src: seq<byte>,
          done: nat)
    requires AreaOk(area) && InArea(ch, |area|) && 2 <= c <= |area| + 1 && c !in ch && done <= |src|
    requires |zeros| == CLUSTER_SIZE && forall i :: 0 <= i < CLUSTER_SIZE ==> zeros[i] == 0
    requires Flat(area, ch) == Written(was, CLUSTER_SIZE * |ch|, loc, src, done)
    requires |was| <= CLUSTER_SIZE * |ch| && loc + done <= CLUSTER_SIZE * |ch|
    ensures var area' := area[c - 2 := zeros];
      AreaOk(area') && InArea(ch + [c], |area'|)
      && Flat(area', ch + [c]) == Written(was, CLUSTER_SIZE * |ch + [c]|, loc, src, done)
  {
    var area', ch' := area[c - 2 := zeros], ch + [c];
    var a, b := Flat(area', ch'), Written(was, CLUSTER_SIZE * |ch'|, loc, src, done);
    forall p | 0 <= p < |a| ensures a[p] == b[p] {
      var k := p / CLUSTER_SIZE;
      if k < |ch| {
        assert ch'[k] == ch[k] && ch[k] in ch;
        assert a[p] == Flat(area, ch)[p];
      }
    }
  }

  /** Storing the next n bytes of src into cluster k. */
  lemma FlatStore(area: seq<Data>, ch: seq<nat>, k: nat, data: Data, was: seq<byte>, loc: nat, src: seq<byte>,
          done: nat, n: nat)
    requires AreaOk(area) && InArea(ch, |area|) && Distinct(ch) && k < |ch| && done + n <= |src|
    requires Flat(area, ch) == Written(was, CLUSTER_SIZE * |ch|, loc, src, done)
    requires CLUSTER_SIZE * k <= loc + done && loc + done + n <= CLUSTER_SIZE * (k + 1)
    requires |data| == CLUSTER_SIZE
    requires var from := loc + done - CLUSTER_SIZE * k;
      forall i :: 0 <= i < CLUSTER_SIZE ==>
        data[i] == if from <= i < from + n then src[done + (i - from)] else area[ch[k] - 2][i]
    ensures var area' := area[ch[k] - 2 := data];
      AreaOk(area') && Flat(area', ch) == Written(was, CLUSTER_SIZE * |ch|, loc, src, done + n)
  {
    var area' := area[ch[k] - 2 := data];
    var a, b := Flat(area', ch), Written(was, CLUSTER_SIZE * |ch|, loc, src, done + n);
    forall p | 0 <= p < |a| ensures a[p] == b[p] {
      var j, i := p / CLUSTER_SIZE, p % CLUSTER_SIZE;
      assert p == CLUSTER_SIZE * j + i;
      FlatCluster(area, ch, j, i);
      if j == k {
        assert area'[ch[k] - 2] == data;
      } else {
        assert ch[j] != ch[k];
      }
    }
  }

  /** A write that changes nothing in use outside its file, and takes only free clusters into it,
      leaves another file's chain, entries and bytes, and the two files apart. */
  lemma OthersUntouched(fat0: seq<nat>, fat1: seq<nat>, area0: seq<Data>, area1: seq<Data>, total: nat,
                        chain0: seq<nat>, chain1: seq<nat>, start: nat, other: seq<nat>)
    requires TableOk(fat0, total) && |fat1| == |fat0| && |area0| == |area1| == total && AreaOk(area0) && AreaOk(area1)
    requires IsChain(fat0, total, start, other) && (forall x :: x in other ==> x !in chain0)
    requires forall d :: d in chain1 && d !in chain0 ==> Free(fat0, d)
    requires forall d :: 0 <= d < |fat0| && d !in chain1 && Succ(fat0, d) != 0 ==> fat1[d] == fat0[d]
    requires forall d :: 2 <= d <= total + 1 && d !in chain1 && Succ(fat0, d) != 0 ==> area1[d - 2] == area0[d - 2]
    ensures TableOk(fat1, total) && IsChain(fat1, total, start, other)
    ensures forall x :: x in other ==> x !in chain1 && x < |fat0| && fat1[x] == fat0[x]
    ensures Flat(area1, other) == Flat(area0, other)
  {
    ChainInUse(fat0, total, start, other);
    forall x | x in other
      ensures x !in chain1 && 2 <= x <= total + 1 && fat1[x] == fat0[x] && area1[x - 2] == area0[x - 2]
    {
      var k :| 0 <= k < |other| && other[k] == x;
      assert Succ(fat0, other[k]) != 0;
    }
    forall k | 0 <= k < |other| ensures fat1[other[k]] == fat0[other[k]] && area1[other[k] - 2] == area0[other[k] - 2] {
      assert other[k] in other;
    }
    var a, b := Flat(area1, other), Flat(area0, other);
    forall p | 0 <= p < |a| ensures a[p] == b[p] {
      assert a[p] == ByteAt(area1, other, p) && b[p] == ByteAt(area0, other, p);
    }
  }

  /** Reading back a finished write from where it started delivers its bytes; reading anywhere
      that does not meet it delivers what was there before. */
  lemma WriteReadsBack(was: seq<byte>, n: nat, loc: nat, src: seq<byte>, size: nat, at: nat, count: nat)
    requires loc + |src| <= size <= n && |was| <= n
    ensures var content := Written(was, n, loc, src, |src|);
      && ReadLength(size, loc, |src|) == |src| && content[loc..loc + |src|] == src
      && (at + count <= |was| && (at + count <= loc || loc + |src| <= at) ==>
            content[at..at + count] == was[at..at + count])
      && (|was| <= at && at + count <= n && (at + count <= loc || loc + |src| <= at) ==>
            forall p :: at <= p < at + count ==> content[p] == 0)
  {
  }
}
