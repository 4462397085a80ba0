/** An open file of kernel/fs/fat/fat.c: reading and writing through its four cluster buffers
    and the FAT buffer, with the journal bookkeeping erased. */
module OpenFiles {
  import opened Bits
  import opened SectorCache
  import opened BlockCaches
  import opened FatEntries
  import opened FatBuffers
  import opened Clusters
  import opened Options
  import opened FileSpec

  /** fs_wa */
  method FsWa(num: nat) returns (i: nat)
    ensures i == Wa(num)
    ensures num > 0 ==> Pow2(i) <= num < 2 * Pow2(i)
  {
    var n := num;
    i := 0;
    while n > 1
      invariant i + Wa(n) == Wa(num)
    {
      n := n / 2;
      i := i + 1;
    }
  }

  /** Dividing a position by the cluster size with a shift and a mask. */
  method SplitPosition(pos: nat) returns (cluster: nat, byteInCluster: nat)
    ensures cluster == pos / CLUSTER_SIZE && byteInCluster == pos % CLUSTER_SIZE
  {
    hide And;
    var shift := FsWa(SECTORS_PER_CLUSTER * 512);
    Pow2Values();
    assert shift == 12;
    cluster := pos / Pow2(shift);
    AndLowMask(pos, 12);
    byteInCluster := And(pos, SECTORS_PER_CLUSTER * 512 - 1);
  }

  /** Copying bytes from..to of a buffer to dst, from position cc on. */
  method CopyOut(data: Data, from: nat, to: nat, dst: array<byte>, cc: nat)
    requires from <= to <= |data| && cc + (to - from) <= dst.Length
    modifies dst
    ensures dst[..] == old(dst[..])[..cc] + data[from..to] + old(dst[..])[cc + |data[from..to]|..]
  {
    ghost var was := dst[..];
    var i := from;
    while i < to
      invariant from <= i <= to
      invariant forall j :: 0 <= j < dst.Length ==>
                  dst[j] == if cc <= j < cc + (i - from) then data[from + (j - cc)] else was[j]
    {
      dst[cc + (i - from)] := data[i];
      i := i + 1;
    }
    assert dst[..] == was[..cc] + data[from..to] + was[cc + |data[from..to]|..];
  }

  /** Copying src, from position cc on, to bytes from..to of a buffer. */
  method CopyIn(data: Data, from: nat, to: nat, src: seq<byte>, cc: nat) returns (r: Data)
    requires from <= to <= |data| && cc + (to - from) <= |src|
    ensures |r| == |data|
    ensures forall i :: 0 <= i < |data| ==> r[i] == if from <= i < to then src[cc + (i - from)] else data[i]
  {
    r := data;
    var i := from;
    while i < to
      invariant from <= i <= to && |r| == |data|
      invariant forall j :: 0 <= j < |data| ==> r[j] == if from <= j < i then src[cc + (j - from)] else data[j]
    {
      r := r[i := src[cc + (i - from)]];
      i := i + 1;
    }
  }

  const ZEROS: Data := seq(CLUSTER_SIZE, _ => 0) // new_alloc_empty

  class OpenFile {
    const fat: FatBuffer
    const buf: BlockCache      // file->data_buf and file->clock_head
    const total: nat           // total_data_clusters
    const first: nat           // first_data_sector
    var info: FsInfo           // the FSInfo words
    var loc: nat
    var size: nat              // entry.attr.size
    var startHi: nat           // entry.attr.starthi
    var startLow: nat          // entry.attr.startlow
    ghost var chain: seq<nat>  // the clusters of the file

    ghost function Repr(): set<object>
    {
      {fat.cache, fat.cache.slots, buf, buf.slots}
    }

    /** get_start_cluster */
    function StartCluster(): nat
      reads this
    {
      startHi * 0x1_0000 + startLow
    }

    /** Every buffered cluster belongs to the file. */
    ghost predicate BuffersOwn()
      reads this, buf, buf.slots
    {
      forall i :: 0 <= i < buf.slots.Length && buf.slots[i].cur != NO_SECTOR ==> Owned(buf.slots[i].cur)
    }

    ghost predicate Owned(s: nat)
      reads this
    {
      IsDataSector(total, first, s) && SectorCluster(first, s) in chain
    }

    ghost predicate Valid()
      reads this, Repr()
    {
      && fat.Valid() && buf.Valid() && fat.cache != buf && fat.cache.slots != buf.slots
      && AreaReady(buf.State(), total, first)
      && TableOk(fat.Entries32(), total)
      && IsChain(fat.Entries32(), total, StartCluster(), chain)
      && loc <= size <= CLUSTER_SIZE * |chain| && size < WORD
      && BuffersOwn()
    }

    /** The data clusters as readers through this file see them. */
    ghost function DataArea(): (a: seq<Data>)
      requires Valid()
      reads this, Repr()
      ensures |a| == total && AreaOk(a)
    {
      Area(buf.State(), total, first)
    }

    /** The clusters of the file laid end to end; the file is the first size bytes. */
    ghost function Content(): (f: seq<byte>)
      requires Valid()
      reads this, Repr()
      ensures |f| == CLUSTER_SIZE * |chain|
    {
      Flat(DataArea(), chain)
    }

    /** The FAT entries, low and high bits. */
    ghost function Fat(): (t: seq<nat>)
      requires Valid()
      reads this, Repr()
    {
      fat.Entries32()
    }

    /** fs_open, once the directory entry is found: all buffers empty, loc 0. */
    constructor (fat: FatBuffer, device: map<nat, Data>, total: nat, first: nat, info: FsInfo,
                 size: nat, startHi: nat, startLow: nat, ghost chain: seq<nat>)
      requires fat.Valid() && TableOk(fat.Entries32(), total)
      requires IsChain(fat.Entries32(), total, startHi * 0x1_0000 + startLow, chain)
      requires size <= CLUSTER_SIZE * |chain| && size < WORD
      requires first + total * SECTORS_PER_CLUSTER <= NO_SECTOR
      requires forall s :: s in DataSectors(total, first) ==> s in device && |device[s]| == CLUSTER_SIZE
      ensures Valid() && fresh(buf) && fresh(buf.slots) && loc == 0
      ensures this.fat == fat && this.size == size && this.chain == chain && this.total == total
      ensures this.first == first && OnCard(device) && buf.slots.Length == 4
    {
      hide AreaReady, DataSectors, IsChain, TableOk;
      this.fat := fat;
      buf := new BlockCache(4, device, 0); // LOCAL_DATA_BUF_NUM
      this.total, this.first, this.info := total, first, info;
      loc := 0;
      this.size, this.startHi, this.startLow, this.chain := size, startHi, startLow, chain;
      new;
      EmptyReady(buf.State(), total, first);
      forall k: nat | k < |chain| ensures ClusterOnCard(device, k) {
        ContentSlice(k);
        AreaOnDevice(buf.State(), total, first, chain[k]);
      }
    }

    /** On the card, cluster c of the volume starts 8 (c - 2) sectors behind the first data sector; byte
        4096 k + i of the file is byte i of the cluster chain[k]. */
    ghost predicate OnCard(device: map<nat, Data>)
      requires Valid()
      reads this, Repr()
    {
      forall k: nat :: k < |chain| ==> ClusterOnCard(device, k)
    }

    ghost predicate ClusterOnCard(device: map<nat, Data>, k: nat)
      requires Valid() && k < |chain|
      reads this, Repr()
    {
      && chain[k] >= 2 && first + 8 * (chain[k] - 2) in device
      && device[first + 8 * (chain[k] - 2)] == Content()[4096 * k..4096 * (k + 1)]
    }

    /** The end of fs_close: the buffers are written back, and the card holds the file. */
    method WriteBackAll()
      requires Valid()
      modifies buf`dev, buf.slots
      ensures Valid() && Fat() == old(Fat()) && DataArea() == old(DataArea()) && Content() == old(Content())
      ensures OnCard(buf.dev)
    {
      hide FatOk, Table, Area, AreaReady, FlushFrom, Flat;
      FlushReady();
      buf.Flush();
      forall k: nat | k < |chain| ensures ClusterOnCard(buf.dev, k) {
        ContentSlice(k);
      }
    }

    lemma FlushReady()
      requires Valid()
      ensures var d := FlushFrom(buf.State(), 0);
        && AreaReady(d, total, first) && Area(d, total, first) == DataArea()
        && (forall i :: 0 <= i < |d.slots| ==> d.slots[i].cur == buf.slots[i].cur)
        && forall k: nat :: k < |chain| ==>
             2 <= chain[k] <= total + 1 && Stored(d.dev, first, DataArea(), chain[k])
    {
      hide FatOk, Table, Area, AreaReady, FlushFrom, Flat;
      FlushBits(buf.State(), 0);
      FlushedArea(buf.State(), total, first);
    }

    lemma ContentSlice(k: nat)
      requires Valid() && k < |chain|
      ensures 2 <= chain[k] <= total + 1
      ensures 4096 * (k + 1) <= |Content()| && Content()[4096 * k..4096 * (k + 1)] == DataArea()[chain[k] - 2]
    {
      hide FatOk, Table, Area, AreaReady, Flat;
      FlatSlice(DataArea(), chain, k, 0, 4096);
    }

    // ----- one cluster at a time -----

    lemma ReadOwns(clus: nat)
      requires Valid() && clus in chain
      ensures 2 <= clus <= total + 1 && DataSector(first, clus) in buf.dev && Owned(DataSector(first, clus))
      ensures var d := Read(buf.State(), DataSector(first, clus)).0;
        forall i :: 0 <= i < |d.slots| && d.slots[i].cur != NO_SECTOR ==> Owned(d.slots[i].cur)
    {
      SectorsAndClusters(total, first, clus, 0);
      LoadFacts(buf.State(), total, first, clus);
      if Find(buf.State().slots, DataSector(first, clus)) == buf.slots.Length {
        EvictKeeps(buf.State(), DataSectors(total, first));
      }
    }

    /** fs_read_4k on a cluster of the file. */
    method LoadCluster(clus: nat) returns (index: nat)
      requires Valid() && clus in chain
      modifies buf`head, buf`dev, buf.slots
      ensures Valid() && 2 <= clus <= total + 1 && DataArea() == old(DataArea())
      ensures index < buf.slots.Length && buf.slots[index].cur == DataSector(first, clus)
      ensures buf.slots[index].data == DataArea()[clus - 2] && |buf.slots[index].data| == CLUSTER_SIZE
    {
      hide AreaReady, Inv, Read, IsChain;
      ReadOwns(clus);
      LoadFacts(buf.State(), total, first, clus);
      index := buf.ReadBlock(DataSector(first, clus));
    }

    /** The buffer of a cluster gets state 3 and new bytes. */
    method StoreCluster(index: nat, ghost clus: nat, data: Data)
      requires Valid() && 2 <= clus <= total + 1 && |data| == CLUSTER_SIZE
      requires index < buf.slots.Length && buf.slots[index].cur == DataSector(first, clus)
      modifies buf.slots
      ensures Valid() && DataArea() == old(DataArea())[clus - 2 := data]
    {
      hide AreaReady, Inv, IsChain;
      StoreFacts(buf.State(), total, first, clus, index, data);
      buf.PutSlot(index, data);
    }

    /** get_fat_entry_value on a cluster of the file. */
    method NextCluster(clus: nat) returns (next: nat)
      requires Valid() && clus < |Fat()|
      modifies fat.cache`head, fat.cache`dev, fat.cache.slots
      ensures Valid() && Fat() == old(Fat()) && DataArea() == old(DataArea()) && next == Succ(Fat(), clus)
    {
      hide AreaReady, Inv, FatOk, IsChain;
      next := fat.GetFatEntryValue(clus);
    }

    // ----- reading -----

    /** The walk from the first cluster to the cluster of the file pointer, or past the last one when
        the pointer is at the end of a full cluster. */
    method Walk(steps: nat) returns (clus: nat)
      requires Valid() && chain != [] && steps <= |chain|
      modifies fat.cache`head, fat.cache`dev, fat.cache.slots
      ensures Valid() && Fat() == old(Fat()) && DataArea() == old(DataArea())
      ensures steps < |chain| ==> clus == chain[steps]
    {
      hide AreaReady, FatOk, Table;
      clus := StartCluster();
      var i := 0;
      while i < steps
        invariant i <= steps && Valid() && Fat() == old(Fat()) && DataArea() == old(DataArea())
        invariant i < |chain| ==> clus == chain[i]
      {
        clus := NextCluster(clus);
        i := i + 1;
      }
    }

    /** One pass of the cluster loop of fs_read: bytes startByte..to of cluster k go to dst. */
    method ReadCluster(clus: nat, ghost k: nat, startByte: nat, to: nat, dst: array<byte>, cc: nat,
                       ghost content: seq<byte>, ghost was: seq<byte>)
      requires Valid() && k < |chain| && clus == chain[k] && content == Content()
      requires Copied(dst[..], content, was, loc, cc) && startByte <= to <= CLUSTER_SIZE
      requires cc + (to - startByte) <= dst.Length == |was| && CLUSTER_SIZE * k + startByte == loc + cc
      modifies buf`head, buf`dev, buf.slots, dst
      ensures Valid() && Fat() == old(Fat()) && DataArea() == old(DataArea())
      ensures Copied(dst[..], content, was, loc, cc + (to - startByte))
    {
      hide AreaReady, FatOk, Table, Flat, Area, Copied, AreaOk, IsChain, BuffersOwn;
      ChainReady(k);
      var index := LoadCluster(clus);
      var data := buf.slots[index].data;
      FlatSlice(DataArea(), chain, k, startByte, to);
      CopiedMore(dst[..], content, was, loc, cc, data[startByte..to]);
      CopyOut(data, startByte, to, dst, cc);
    }

    /** The cluster loop of fs_read. When the end position wraps, it lies in front of the start, and
        the loop moves nothing. */
    method ReadClusters(dst: array<byte>, cnt: nat) returns (cc: nat)
      requires Valid() && chain != [] && 0 < cnt < WORD
      requires loc + cnt <= WORD ==> loc + cnt <= CLUSTER_SIZE * |chain| && cnt <= dst.Length
      modifies Repr(), dst
      ensures Valid() && Fat() == old(Fat()) && DataArea() == old(DataArea()) && cc == Moved(loc, cnt)
      ensures Copied(dst[..], old(Content()), old(dst[..]), loc, cc)
    {
      hide AreaReady, FatOk, Table, Flat, Area, Copied, AreaOk, IsChain, BuffersOwn;
      ghost var content, was := Content(), dst[..];
      ghost var wrapped := loc + cnt > WORD;
      var startClus: nat, startByte: nat := SplitPosition(loc);
      var endClus: nat, endByte: nat := SplitPosition((loc + cnt - 1) % WORD);
      EndPosition(loc, cnt, size, |chain|);
      ghost var startClus0 := startClus;
      var clus: nat := Walk(startClus);
      cc := 0;
      CopiedNone(was, content, loc);
      while startClus <= endClus
        invariant Valid() && Fat() == old(Fat()) && DataArea() == old(DataArea())
        invariant startClus < |chain| ==> clus == chain[startClus]
        invariant startClus <= endClus ==> endClus < |chain|
        invariant CLUSTER_SIZE * startClus + startByte == loc + cc && startByte < CLUSTER_SIZE
        invariant if wrapped then cc == 0 && startClus == startClus0
                  else cc <= cnt && startClus <= endClus && (startClus == endClus ==> startByte <= endByte)
        invariant Copied(dst[..], content, was, loc, cc)
        decreases endClus - startClus
      {
        var to := if startClus == endClus then endByte + 1 else CLUSTER_SIZE;
        if to < startByte {
          to := startByte; // the byte loop does not run
        }
        ReadCluster(clus, startClus, startByte, to, dst, cc, content, was);
        cc := cc + (to - startByte);
        if startClus == endClus {
          break;
        }
        ChainReady(startClus);
        startClus := startClus + 1;
        startByte := 0;
        clus := NextCluster(clus);
      }
    }

    lemma ChainReady(k: nat)
      requires Valid() && k < |chain|
      ensures InArea(chain, total) && 2 <= chain[k] < |Fat()| && chain[k] in chain
      ensures k + 1 < |chain| ==> Succ(Fat(), chain[k]) == chain[k + 1]
    {
    }

    /** The count fs_read goes on with, and the number of bytes there are to read. */
    ghost function Wanted(count: nat): nat
      requires Valid()
      reads this, Repr()
    {
      Asked(size, loc, count)
    }

    ghost function Available(count: nat): nat
      requires Valid()
      reads this, Repr()
    {
      ReadLength(size, loc, count)
    }

    /** fs_read, sums wrapping at 2^32: dst starts with the n bytes of the file from loc on. Only a
        sum of exactly 2^32 on a file of less than 2^20 clusters is left out: there the loop goes on
        past the end of the chain. */
    method FsRead(dst: array<byte>, count: nat) returns (n: nat)
      requires Valid() && count < WORD && Moved(loc, Wanted(count)) <= dst.Length
      requires loc + count == WORD ==> WORD <= CLUSTER_SIZE * |chain|
      modifies this`loc, Repr(), dst
      ensures Valid() && Fat() == old(Fat()) && DataArea() == old(DataArea())
      ensures n == old(Moved(loc, Wanted(count))) && loc == old(MovedTo(loc, Wanted(count)))
      ensures Copied(dst[..], old(Content()), old(dst[..]), old(loc), n)
      ensures old(loc) + count < WORD ==> n == old(Available(count)) && loc == old(loc) + n
    {
      hide Valid, Flat, Area, AreaReady, FatOk, Table, AreaOk, IsChain, BuffersOwn, Fat, DataArea, Content;
      hide Asked, Moved, MovedTo, ReadLength, Copied;
      ReadReady(count);
      CopiedNone(dst[..], Content(), loc);
      if StartCluster() == 0 {
        return 0;
      }
      var cnt := CutAtEnd(count);
      if cnt == 0 {
        return 0;
      }
      var cc := ReadClusters(dst, cnt);
      MoveOn(cnt);
      n := cc;
    }

    lemma ReadReady(count: nat)
      requires Valid() && count < WORD && (loc + count == WORD ==> WORD <= CLUSTER_SIZE * |chain|)
      ensures loc <= size && loc <= |Content()|
      ensures var a := Wanted(count);
        && a < WORD && (loc + a <= WORD ==> loc + a <= |Content()|) && loc + Moved(loc, a) <= |Content()|
        && (StartCluster() == 0 ==> a == 0) && (a == 0 ==> Moved(loc, a) == 0 && MovedTo(loc, a) == loc)
        && MovedTo(loc, a) <= size
        && (loc + count < WORD ==>
              Moved(loc, a) == Available(count) && MovedTo(loc, a) == loc + Moved(loc, a))
        && (loc + a <= WORD ==> Moved(loc, a) == a)
      ensures StartCluster() == 0 <==> chain == []
    {
      hide AreaReady, FatOk, Table, Flat, Area, AreaOk, BuffersOwn;
      ReadPromiseIff(size, loc, count);
      ChainStart();
      AskedFits(size, loc, count, |chain|);
    }

    /** The end-of-file test of fs_read. */
    method CutAtEnd(count: nat) returns (cnt: nat)
      requires Valid() && count < WORD
      ensures cnt == Wanted(count)
    {
      hide AreaReady, FatOk, Table, Flat, Area, AreaOk, BuffersOwn, IsChain;
      cnt := count;
      if (loc + cnt) % WORD > size {
        cnt := size - loc;
      }
    }

    /** file->loc += cnt */
    method MoveOn(cnt: nat)
      requires Valid() && MovedTo(loc, cnt) <= size
      modifies this`loc
      ensures Valid() && loc == MovedTo(old(loc), cnt) && Fat() == old(Fat()) && DataArea() == old(DataArea())
    {
      hide AreaReady, FatOk, Table, Flat, Area, AreaOk, IsChain;
      loc := (loc + cnt) % WORD;
    }

    /** fs_lseek */
    method FsLseek(newLoc: nat)
      requires Valid()
      modifies this`loc
      ensures Valid() && loc == if newLoc < size then newLoc else size
      ensures Fat() == old(Fat()) && DataArea() == old(DataArea())
    {
      hide AreaReady, FatOk, Table, Area, IsChain;
      loc := if newLoc < size then newLoc else size;
    }

    // ----- allocating -----

    /** fs_alloc is going to take a free cluster: the FSInfo hint is good, or it is taken as illegal and
        the search from the beginning finds one (Clusters.HintReadyIff). */
    ghost predicate HintOk()
      requires Valid()
      reads this, Repr()
    {
      info.nextFree < WORD && info.freeCount < WORD && HintReady(Fat(), total, info)
    }

    /** fs_next_free */
    method FsNextFree(start: nat) returns (next: nat)
      requires Valid()
      modifies fat.cache`head, fat.cache`dev, fat.cache.slots
      ensures Valid() && Fat() == old(Fat()) && DataArea() == old(DataArea())
      ensures next == NextFree(Fat(), total, start)
    {
      hide AreaReady, FatOk, Table, Area, IsChain;
      next := NOT_FOUND;
      var clus := start;
      while clus <= total + 1
        invariant start <= clus && Valid() && Fat() == old(Fat()) && DataArea() == old(DataArea())
        invariant next == NOT_FOUND && NextFree(Fat(), total, clus) == NextFree(Fat(), total, start)
        decreases total + 2 - clus
      {
        var value := NextCluster(clus);
        if value == 0 {
          next := clus;
          break;
        }
        clus := clus + 1;
      }
    }

    /** fs_modify_fat on a cluster outside the chain. */
    method MarkCluster(clus: nat, value: nat)
      requires Valid() && clus < |Fat()| && clus !in chain && value < WORD
      modifies fat.cache`head, fat.cache`dev, fat.cache.slots
      ensures Valid() && Fat() == Set(old(Fat()), clus, value) && DataArea() == old(DataArea())
    {
      hide AreaReady, FatOk, Table, Area, IsChain, NewEntry;
      ChainKept(Fat(), total, StartCluster(), chain, clus, NewEntry(Fat()[clus], value));
      fat.FsModifyFat(clus, value);
    }

    /** write_block of zeros to a cluster outside the file. */
    method EraseCluster(clus: nat)
      requires Valid() && 2 <= clus <= total + 1 && clus !in chain
      modifies buf`dev
      ensures Valid() && Fat() == old(Fat()) && DataArea() == old(DataArea())[clus - 2 := ZEROS]
    {
      hide FatOk, Table, Area, IsChain;
      NotBuffered(clus);
      EraseFacts(buf.State(), total, first, clus, ZEROS);
      hide AreaReady;
      buf.dev := buf.dev[DataSector(first, clus) := ZEROS];
    }

    lemma NotBuffered(clus: nat)
      requires Valid() && 2 <= clus <= total + 1 && clus !in chain
      ensures Find(buf.State().slots, DataSector(first, clus)) == buf.slots.Length
    {
      SectorsAndClusters(total, first, clus, 0);
      var i := Find(buf.State().slots, DataSector(first, clus));
      assert i < buf.slots.Length ==> Owned(buf.slots[i].cur);
    }

    /** set_u32(fat_fs_info + 492, hint) */
    method StoreHint(hint: nat)
      requires Valid()
      modifies this`info
      ensures Valid() && info == old(info).(nextFree := hint) && Fat() == old(Fat()) && DataArea() == old(DataArea())
    {
      hide AreaReady, FatOk, Table, Area, IsChain;
      info := info.(nextFree := hint);
    }

    lemma AllocReady()
      requires Valid() && HintOk()
      ensures TableOk(Fat(), total) && HintReady(Fat(), total, info)
      ensures var c := Candidate(Fat(), total, info);
        && 2 <= c <= total + 1 && c < |Fat()| && Succ(Fat(), c) == 0 && c !in chain
        && Set(Set(Fat(), c, END_OF_CHAIN), c, END_OF_CHAIN) == Set(Fat(), c, END_OF_CHAIN)
      ensures var a := Alloc(Fat(), total, info);
        a.clus.Some? ==> a.info.nextFree < WORD && a.info.freeCount < WORD && HintReady(a.table, total, a.info)
      ensures var a := Alloc(Fat(), total, info);
        a.clus.Some? ==> Chosen(Fat(), info, a.clus.value, a.info)
    {
      hide AreaReady, FatOk, Table, Area;
      ChainInUse(Fat(), total, StartCluster(), chain);
      AllocEffect(Fat(), total, info);
      MarkTwice(Fat(), Candidate(Fat(), total, info));
      var a := Alloc(Fat(), total, info);
      if a.clus.Some? {
        HintReadyIff(a.table, total, a.info);
        AllocReturns(Fat(), total, info);
      }
    }

    /** On the FSInfo words: c is the lowest free cluster if the hint is beyond the free count, and else
        the one behind the hint; the new hint lies before the lowest free cluster behind c. */
    ghost predicate Chosen(t: seq<nat>, was: FsInfo, c: nat, now: FsInfo)
      requires TableOk(t, total)
    {
      && (was.freeCount < was.nextFree < 0xFFFF_FFFF ==> IsLowestFree(t, total, 2, c))
      && (was.nextFree <= was.freeCount < 0xFFFF_FFFF ==> c == was.nextFree + 1)
      && now.freeCount == was.freeCount && IsLowestFree(t, total, c + 1, now.nextFree + 1)
    }

    /** fs_alloc */
    method FsAlloc() returns (r: Option<nat>)
      requires Valid() && HintOk()
      modifies this`info, Repr()
      ensures Valid() && Candidate(old(Fat()), total, old(info)) < |Fat()|
      ensures Allocation(Fat(), info, r) == Alloc(old(Fat()), total, old(info))
      ensures r.Some? ==> Chosen(old(Fat()), old(info), r.value, info)
      ensures r.Some? ==> HintOk() && 2 <= r.value <= total + 1 && Succ(old(Fat()), r.value) == 0 && r.value !in chain
      ensures DataArea() == if r.Some? then old(DataArea())[r.value - 2 := ZEROS] else old(DataArea())
    {
      hide Valid, NextFree, IsChain, Set, Area, Succ, HintReady;
      AllocReady();
      var clus: nat := (info.nextFree + 1) % WORD;
      if clus > (info.freeCount + 1) % WORD {
        clus := FsNextFree(2);
        MarkCluster(clus, END_OF_CHAIN);
      }
      assert clus == Candidate(old(Fat()), total, old(info));
      MarkCluster(clus, END_OF_CHAIN);
      var nextFree := FsNextFree(clus);
      if nextFree > total + 1 {
        return None;
      }
      StoreHint(nextFree - 1);
      EraseCluster(clus);
      r := Some(clus);
    }

    /** fs_clr_4k for a cluster that has just joined the file and was erased on the device. */
    method ClearBuffer(clus: nat)
      requires Valid() && clus in chain && DataArea()[clus - 2] == ZEROS
      requires Find(buf.State().slots, DataSector(first, clus)) == buf.slots.Length
      modifies buf`head, buf`dev, buf.slots
      ensures Valid() && Fat() == old(Fat()) && DataArea() == old(DataArea())
    {
      hide FatOk, Table, Area, IsChain;
      ClearOwns(clus);
      ClearFacts(buf.State(), total, first, clus, ZEROS);
      hide AreaReady, Clear;
      buf.ClearBlock(DataSector(first, clus), ZEROS);
    }

    lemma ClearOwns(clus: nat)
      requires Valid() && clus in chain
      ensures 2 <= clus <= total + 1 && buf.State().head < |buf.State().slots|
      ensures var d := Clear(buf.State(), DataSector(first, clus), ZEROS);
        forall i :: 0 <= i < |d.slots| && d.slots[i].cur != NO_SECTOR ==> Owned(d.slots[i].cur)
    {
      SectorsAndClusters(total, first, clus, 0);
      EvictKeeps(buf.State(), DataSectors(total, first));
    }

    /** A fresh cluster becomes the first cluster of an empty file. */
    method StartFile(clus: nat)
      requires Valid() && chain == [] && 2 <= clus <= total + 1 && Succ(Fat(), clus) > total + 1
      modifies this`startHi, this`startLow, this`chain
      ensures Valid() && chain == [clus] && Fat() == old(Fat()) && DataArea() == old(DataArea())
    {
      hide AreaReady, FatOk, Table, Area;
      startHi := clus / 0x1_0000 % 0x1_0000;
      startLow := clus % 0x1_0000;
      chain := [clus];
    }

    /** fs_modify_fat(last, clus): a fresh cluster is linked behind the last one. */
    method LinkCluster(last: nat, clus: nat)
      requires Valid() && chain != [] && last == chain[|chain| - 1]
      requires 2 <= clus <= total + 1 && clus !in chain && Succ(Fat(), clus) > total + 1
      modifies this`chain, fat.cache`head, fat.cache`dev, fat.cache.slots
      ensures Valid() && chain == old(chain) + [clus] && DataArea() == old(DataArea())
      ensures last < |Fat()| && Fat() == Set(old(Fat()), last, clus)
    {
      hide AreaReady, FatOk, Table, Area, NewEntry;
      ChainAppended(Fat(), total, StartCluster(), chain, clus);
      assert last in chain;
      fat.FsModifyFat(last, clus);
      chain := chain + [clus];
    }

    /** The FAT entries outside the file that a write may change: those that were free. */
    ghost predicate OnlyFreeChanged(was: seq<nat>)
      requires Valid()
      reads this, Repr()
    {
      |Fat()| == |was| && forall d :: 0 <= d < |was| && d !in chain && Succ(was, d) != 0 ==> Fat()[d] == was[d]
    }

    /** Extending the file by one zeroed cluster: fs_alloc, the link, and fs_clr_4k. */
    method Extend(last: nat) returns (r: Option<nat>)
      requires Valid() && HintOk() && (chain != [] ==> last == chain[|chain| - 1])
      modifies this`info, this`startHi, this`startLow, this`chain, Repr()
      ensures Valid() && OnlyFreeChanged(old(Fat()))
      ensures r.None? ==> chain == old(chain) && DataArea() == old(DataArea())
      ensures r.Some? ==>
                && HintOk() && chain == old(chain) + [r.value] && r.value !in old(chain) && 2 <= r.value <= total + 1
                && Free(old(Fat()), r.value)
                && DataArea() == old(DataArea())[r.value - 2 := ZEROS]
    {
      hide AreaReady, FatOk, Table, Area, Alloc, NewEntry, HintReady;
      AllocFacts();
      r := FsAlloc();
      if r.None? {
        return;
      }
      NotBuffered(r.value);
      if StartCluster() == 0 {
        StartFile(r.value);
      } else {
        InUse(last);
        LinkReady(Fat(), total, info, last, r.value);
        LinkCluster(last, r.value);
      }
      ClearBuffer(r.value);
    }

    lemma InUse(clus: nat)
      requires Valid() && clus in chain
      ensures clus < |Fat()| && Succ(Fat(), clus) != 0
    {
      hide IsChain, Area, AreaReady, Table, FatOk, Succ;
      ChainInUse(Fat(), total, StartCluster(), chain);
    }

    lemma AllocFacts()
      requires Valid() && HintOk()
      ensures Candidate(Fat(), total, info) < |Fat()|
      ensures var a := Alloc(Fat(), total, info);
        forall d :: 0 <= d < |Fat()| && Succ(Fat(), d) != 0 ==> a.table[d] == Fat()[d]
      ensures var a := Alloc(Fat(), total, info);
        a.clus.Some? ==> Succ(a.table, a.clus.value) > total + 1
    {
      AllocReady();
      AllocEffect(Fat(), total, info);
    }

    // ----- writing -----

    /** Progress of a write of src at loc, from the state (fat0, area0, chain0): the first done
        bytes are in place, the file has only grown, and nothing in use outside it has changed. */
    ghost predicate Wrote(fat0: seq<nat>, area0: seq<Data>, chain0: seq<nat>, src: seq<byte>, done: nat)
      requires Valid() && AreaOk(area0) && InArea(chain0, |area0|) && done <= |src|
      reads this, Repr()
    {
      && chain0 <= chain && |area0| == total && |Fat()| == |fat0|
      && Content() == Written(Flat(area0, chain0), CLUSTER_SIZE * |chain|, loc, src, done)
      && loc + done <= CLUSTER_SIZE * |chain|
      && (forall d :: d in chain && d !in chain0 ==> Free(fat0, d))
      && (forall d :: 0 <= d < |fat0| && d !in chain && Succ(fat0, d) != 0 ==> Fat()[d] == fat0[d])
      && (forall d :: 2 <= d <= total + 1 && d < |fat0| && d !in chain && Succ(fat0, d) != 0 ==>
            DataArea()[d - 2] == area0[d - 2])
    }

    /** Extending the file is no setback for a write. */
    method Grow(last: nat, ghost fat0: seq<nat>, ghost area0: seq<Data>, ghost chain0: seq<nat>,
                ghost src: seq<byte>, ghost done: nat)
      returns (r: Option<nat>)
      requires Valid() && HintOk() && (chain != [] ==> last == chain[|chain| - 1])
      requires AreaOk(area0) && InArea(chain0, |area0|) && done <= |src| && Wrote(fat0, area0, chain0, src, done)
      modifies this`info, this`startHi, this`startLow, this`chain, Repr()
      ensures Valid() && Wrote(fat0, area0, chain0, src, done)
      ensures r.None? ==> chain == old(chain)
      ensures r.Some? ==> HintOk() && chain == old(chain) + [r.value]
    {
      hide AreaReady, FatOk, Table, Area, Flat, Written, IsChain, BuffersOwn;
      AreaInChain();
      ghost var area, ch := DataArea(), chain;
      r := Extend(last);
      if r.Some? {
        FlatAppend(area, ch, r.value, ZEROS, Flat(area0, chain0), loc, src, done);
      }
    }

    lemma AreaInChain()
      requires Valid()
      ensures InArea(chain, |DataArea()|) && FileSpec.Distinct(chain)
    {
    }

    /** One pass of the cluster loop: bytes startByte..to of cluster k of the file come from src. */
    method WriteCluster(clus: nat, ghost k: nat, startByte: nat, to: nat, src: seq<byte>, cc: nat,
                        ghost fat0: seq<nat>, ghost area0: seq<Data>, ghost chain0: seq<nat>)
      requires Valid() && k < |chain| && clus == chain[k]
      requires AreaOk(area0) && InArea(chain0, |area0|) && cc <= |src| && Wrote(fat0, area0, chain0, src, cc)
      requires startByte <= to <= CLUSTER_SIZE && cc + (to - startByte) <= |src|
      requires CLUSTER_SIZE * k + startByte == loc + cc
      modifies buf`head, buf`dev, buf.slots
      ensures Valid() && Fat() == old(Fat()) && Wrote(fat0, area0, chain0, src, cc + (to - startByte))
    {
      hide AreaReady, FatOk, Table, Area, Flat, Written, IsChain, BuffersOwn;
      AreaInChain();
      var index := LoadCluster(clus);
      var data := CopyIn(buf.slots[index].data, startByte, to, src, cc);
      FlatStore(DataArea(), chain, k, data, Flat(area0, chain0), loc, src, cc, to - startByte);
      StoreCluster(index, clus, data);
    }

    /** The walk to the cluster of the file pointer, which allocates past the end of the chain. */
    method WalkGrowing(first0: nat, steps: nat, ghost fat0: seq<nat>, ghost area0: seq<Data>, ghost chain0: seq<nat>,
                       ghost src: seq<byte>)
      returns (r: Option<nat>)
      requires Valid() && chain != [] && first0 == chain[0] && (HintOk() || steps < |chain|)
      requires AreaOk(area0) && InArea(chain0, |area0|) && Wrote(fat0, area0, chain0, src, 0)
      modifies this`info, this`startHi, this`startLow, this`chain, Repr()
      ensures Valid() && Wrote(fat0, area0, chain0, src, 0)
      ensures r.Some? ==> (old(HintOk()) ==> HintOk()) && steps < |chain| && r.value == chain[steps]
      ensures r.Some? ==> |chain| == if steps < |old(chain)| then |old(chain)| else steps + 1
    {
      hide AreaReady, FatOk, Table, Area, Flat, Written, BuffersOwn, IsChain, Succ;
      var curr := first0;
      var i := 0;
      while i < steps
        invariant Valid() && Wrote(fat0, area0, chain0, src, 0)
        invariant (old(HintOk()) ==> HintOk()) && (HintOk() || steps < |chain|)
        invariant i <= steps && i < |chain| && curr == chain[i]
        invariant |chain| == if i < |old(chain)| then |old(chain)| else i + 1
      {
        ChainEnd(i);
        var next := NextCluster(curr);
        if next > total + 1 {
          r := Grow(curr, fat0, area0, chain0, src, 0);
          if r.None? {
            return;
          }
          next := r.value;
        }
        curr := next;
        i := i + 1;
      }
      r := Some(curr);
    }

    lemma ChainEnd(k: nat)
      requires Valid() && k < |chain|
      ensures chain[k] < |Fat()|
      ensures Succ(Fat(), chain[k]) > total + 1 <==> k == |chain| - 1
      ensures k < |chain| - 1 ==> Succ(Fat(), chain[k]) == chain[k + 1]
    {
      if k < |chain| - 1 {
        assert Succ(Fat(), chain[k]) == chain[k + 1];
        assert chain[k + 1] <= total + 1;
      }
    }

    /** The cluster loop of fs_write. When the end position wraps, it lies in front of the start, and
        the loop moves nothing. */
    method WriteLoop(clus: nat, startClus0: nat, startByte0: nat, endClus: nat, endByte: nat, src: seq<byte>,
                     ghost fat0: seq<nat>, ghost area0: seq<Data>, ghost chain0: seq<nat>)
      returns (cc: nat, ok: bool)
      requires Valid() && startClus0 < |chain| && clus == chain[startClus0]
      requires HintOk() || endClus < |chain| || loc + |src| > WORD
      requires AreaOk(area0) && InArea(chain0, |area0|) && Wrote(fat0, area0, chain0, src, 0)
      requires startByte0 < CLUSTER_SIZE && endByte < CLUSTER_SIZE && CLUSTER_SIZE * startClus0 + startByte0 == loc
      requires if loc + |src| <= WORD
               then CLUSTER_SIZE * endClus + endByte + 1 == loc + |src| && startClus0 <= endClus
                    && (startClus0 == endClus ==> startByte0 <= endByte)
               else endClus <= startClus0 && (startClus0 == endClus ==> endByte < startByte0)
      modifies this`info, this`startHi, this`startLow, this`chain, Repr()
      ensures Valid() && cc <= |src| && Wrote(fat0, area0, chain0, src, cc)
      ensures ok ==> (old(HintOk()) ==> HintOk()) && cc == Moved(loc, |src|)
      ensures ok ==> |chain| == if endClus < |old(chain)| || loc + |src| > WORD then |old(chain)| else endClus + 1
    {
      hide AreaReady, FatOk, Table, Area, Flat, Written, BuffersOwn, IsChain, Succ, HintReady;
      ghost var wrapped := loc + |src| > WORD;
      var curr, startClus: nat, startByte: nat := clus, startClus0, startByte0;
      cc, ok := 0, true;
      while startClus <= endClus
        invariant Valid() && startClus < |chain| && curr == chain[startClus]
        invariant (old(HintOk()) ==> HintOk()) && (HintOk() || endClus < |chain| || wrapped)
        invariant cc <= |src| && Wrote(fat0, area0, chain0, src, cc)
        invariant CLUSTER_SIZE * startClus + startByte == loc + cc && startByte < CLUSTER_SIZE
        invariant if wrapped then cc == 0 && startClus == startClus0
                  else startClus <= endClus && (startClus == endClus ==> startByte <= endByte)
        invariant ok && |chain| == if startClus < |old(chain)| then |old(chain)| else startClus + 1
        decreases endClus - startClus
      {
        var to := if startClus == endClus then endByte + 1 else CLUSTER_SIZE;
        if to < startByte {
          to := startByte; // the byte loop does not run
        }
        WriteCluster(curr, startClus, startByte, to, src, cc, fat0, area0, chain0);
        cc := cc + (to - startByte);
        if startClus == endClus {
          break;
        }
        ChainEnd(startClus);
        startClus := startClus + 1;
        startByte := 0;
        var next := NextCluster(curr);
        if next > total + 1 {
          var r := Grow(curr, fat0, area0, chain0, src, cc);
          if r.None? {
            ok := false;
            return;
          }
          next := r.value;
        }
        curr := next;
      }
    }

    /** fs_write once the file has a first cluster: the walk and the cluster loop. */
    method WriteFrom(first0: nat, src: seq<byte>, ghost fat0: seq<nat>, ghost area0: seq<Data>, ghost chain0: seq<nat>)
      returns (cc: nat, ok: bool)
      requires Valid() && chain != [] && first0 == chain[0] && 0 < |src| < WORD
      requires HintOk() || ChainLength(|chain|, loc, |src|) <= |chain|
      requires AreaOk(area0) && InArea(chain0, |area0|) && Wrote(fat0, area0, chain0, src, 0)
      modifies this`info, this`startHi, this`startLow, this`chain, Repr()
      ensures Valid() && cc <= |src| && Wrote(fat0, area0, chain0, src, cc)
      ensures ok ==> (old(HintOk()) ==> HintOk()) && cc == Moved(loc, |src|)
      ensures ok ==> |chain| == ChainLength(|old(chain)|, loc, |src|)
    {
      hide AreaReady, FatOk, Table, Area, BuffersOwn, IsChain, Succ, Wrote, HintOk;
      EndPosition(loc, |src|, size, |chain|);
      var startClus, startByte := SplitPosition(loc);
      var endClus, endByte := SplitPosition((loc + |src| - 1) % WORD);
      var walked := WalkGrowing(first0, startClus, fat0, area0, chain0, src);
      if walked.None? {
        return 0, false;
      }
      cc, ok := WriteLoop(walked.value, startClus, startByte, endClus, endByte, src, fat0, area0, chain0);
    }

    /** The end of fs_write: the new size and file pointer. */
    method FinishWrite(count: nat)
      requires Valid() && count < WORD && (loc + count <= WORD ==> loc + count <= CLUSTER_SIZE * |chain|)
      modifies this`loc, this`size
      ensures Valid() && Fat() == old(Fat()) && DataArea() == old(DataArea()) && Content() == old(Content())
      ensures loc == MovedTo(old(loc), count) && size == Grown(old(size), old(loc), count)
      ensures old(HintOk()) ==> HintOk()
    {
      hide AreaReady, FatOk, Table, Area, IsChain;
      SumInChain(size, loc, count, |chain|);
      if (loc + count) % WORD > size {
        size := (loc + count) % WORD;
      }
      loc := (loc + count) % WORD;
    }

    /** fs_write with the transactions erased, sums wrapping at 2^32. On success the bytes moved are
        those of src from loc on, every other byte of the file's clusters is as before and new ones
        are zero, the chain has grown only as far as needed, and size and loc have moved. On failure
        the file pointer and size stay, and a prefix of src may have been written. In both cases the
        clusters that joined the file were free, and nothing that was in use outside it has changed.
        The hint matters only to a write that needs a new cluster. */
    method FsWrite(src: seq<byte>) returns (r: Option<nat>)
      requires Valid() && |src| < WORD && (HintOk() || ChainLength(|chain|, loc, |src|) <= |chain|)
      modifies this, Repr()
      ensures Valid() && old(chain) <= chain
      ensures r.Some? ==>
                && (old(HintOk()) ==> HintOk()) && r.value == Moved(old(loc), |src|)
                && loc == MovedTo(old(loc), |src|) && size == Grown(old(size), old(loc), |src|)
                && |chain| == ChainLength(|old(chain)|, old(loc), |src|)
                && Content() == Written(old(Content()), CLUSTER_SIZE * |chain|, old(loc), src, r.value)
      ensures r.None? ==>
                && loc == old(loc) && size == old(size)
                && exists done: nat :: done < |src| + 1
                     && Content() == Written(old(Content()), CLUSTER_SIZE * |chain|, old(loc), src, done)
      ensures forall d :: d in chain && d !in old(chain) ==> Free(old(Fat()), d)
      ensures |Fat()| == |old(Fat())|
      ensures forall d :: 0 <= d < |Fat()| && d !in chain && Succ(old(Fat()), d) != 0 ==> Fat()[d] == old(Fat())[d]
      ensures forall d :: 2 <= d <= total + 1 && d !in chain && Succ(old(Fat()), d) != 0 ==>
                DataArea()[d - 2] == old(DataArea())[d - 2]
    {
      hide AreaReady, FatOk, Table, Area, BuffersOwn, IsChain, Succ, Free, Written, Flat, MovedTo, Grown, HintReady;
      ghost var fat0, area0, chain0 := Fat(), DataArea(), chain;
      NothingWritten(src);
      NoMove(size, loc);
      if |src| == 0 {
        return Some(0);
      }
      var curr := StartCluster();
      ChainStart();
      if curr == 0 {
        var a := Grow(0, fat0, area0, chain0, src, 0);
        if a.None? {
          return None;
        }
        curr := a.value;
      }
      var cc, ok := WriteFrom(curr, src, fat0, area0, chain0);
      if !ok {
        return None;
      }
      FinishWrite(|src|);
      r := Some(cc);
    }

    /** Writing leaves every other file alone: its chain, its entries and its bytes stay, and it
        shares no cluster with the file written. */
    method WriteBeside(src: seq<byte>, ghost start: nat, ghost other: seq<nat>) returns (r: Option<nat>)
      requires Valid() && |src| < WORD && (HintOk() || ChainLength(|chain|, loc, |src|) <= |chain|)
      requires IsChain(Fat(), total, start, other) && forall x :: x in other ==> x !in chain
      modifies this, Repr()
      ensures Valid() && IsChain(Fat(), total, start, other) && (forall x :: x in other ==> x !in chain)
      ensures forall x :: x in other ==> x < |Fat()| && x < |old(Fat())| && Fat()[x] == old(Fat())[x]
      ensures Flat(DataArea(), other) == old(Flat(DataArea(), other))
    {
      hide AreaReady, FatOk, Table, Area, Flat, Written, BuffersOwn, IsChain, AreaOk, Free;
      OtherReady(start, other);
      ghost var fat0, area0, chain0 := Fat(), DataArea(), chain;
      r := FsWrite(src);
      OthersUntouched(fat0, Fat(), area0, DataArea(), total, chain0, chain, start, other);
      OtherReady(start, other);
    }

    lemma OtherReady(start: nat, other: seq<nat>)
      requires Valid() && IsChain(Fat(), total, start, other)
      ensures TableOk(Fat(), total) && InArea(other, |DataArea()|) && |DataArea()| == total && AreaOk(DataArea())
    {
    }

    /** What every client relies on: after a successful write, seeking back and reading delivers the
        bytes written, whatever the cache evicted meanwhile. */
    method WriteSeekRead(src: seq<byte>, dst: array<byte>) returns (ok: bool)
      requires Valid() && loc + |src| < WORD && dst.Length >= |src|
      requires HintOk() || ChainLength(|chain|, loc, |src|) <= |chain|
      modifies this, Repr(), dst
      ensures Valid()
      ensures ok ==> dst[..|src|] == src && loc == old(loc) + |src| && dst[|src|..] == old(dst[|src|..])
    {
      hide AreaReady, FatOk, Table, Flat, Area, AreaOk, IsChain, Succ, BuffersOwn, Moved, MovedTo, Asked, Grown,
        Written;
      ghost var was := Content();
      SumIsMoved(size, loc, |src|);
      var at := loc;
      var r := FsWrite(src);
      if r.None? {
        return false;
      }
      WriteReadsBack(was, |Content()|, at, src, size, at, 0);
      FsLseek(at);
      ReadPromiseIff(size, at, |src|);
      var n := FsRead(dst, |src|);
      ok := true;
    }

    lemma NothingWritten(src: seq<byte>)
      requires Valid()
      ensures InArea(chain, |DataArea()|) && Wrote(Fat(), DataArea(), chain, src, 0)
    {
      assert Content() == Written(Content(), CLUSTER_SIZE * |chain|, loc, src, 0);
    }

    lemma ChainStart()
      requires Valid()
      ensures if chain == [] then StartCluster() == 0 else StartCluster() == chain[0] >= 2
    {
    }
  }
}
