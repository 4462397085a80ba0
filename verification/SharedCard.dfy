/** Several open files on one card. Every FILE has cluster buffers of its own (data_buf), and all of
    them read from and write back to the same device blocks (kernel/fs/fat/fat.c, fscache.c). */
module SharedCard {
  import opened SectorCache
  import opened Clusters
  import opened FileSpec
  import opened Volumes

  /** The buffers of one open file. */
  datatype Buffers = Buffers(slots: seq<Slot>, head: nat)

  /** The device, every file's buffers, and the blocks that belong to each file. */
  datatype Card = Card(dev: map<nat, Data>, files: seq<Buffers>, owned: seq<set<nat>>)

  function CacheOf(w: Card, i: nat): Cache
    requires i < |w.files|
  {
    Cache(w.files[i].slots, w.files[i].head, w.dev, 0)
  }

  /** Every file's buffers are consistent with the device, and no block belongs to two files. */
  ghost predicate CardOk(w: Card)
  {
    && |w.owned| == |w.files|
    && (forall i :: 0 <= i < |w.files| ==> Inv(CacheOf(w, i), w.owned[i]))
    && (forall i, j :: 0 <= i < j < |w.files| ==> w.owned[i] !! w.owned[j])
  }

  /** The blocks of a chain of clusters. */
  ghost function ChainBlocks(first: nat, ch: seq<nat>): set<nat>
    requires forall k :: 0 <= k < |ch| ==> ch[k] >= 2
  {
    set k: nat | k < |ch| :: DataSector(first, ch[k])
  }

  /** Files with disjoint chains own disjoint blocks. */
  lemma ChainsOwnApart(t: seq<nat>, total: nat, files: seq<seq<nat>>, first: nat, i: nat, j: nat)
    requires TableOk(t, total) && Chains(t, total, files) && i < j < |files|
    ensures forall k :: 0 <= k < |files[i]| ==> files[i][k] >= 2
    ensures forall k :: 0 <= k < |files[j]| ==> files[j][k] >= 2
    ensures ChainBlocks(first, files[i]) !! ChainBlocks(first, files[j])
  {
    assert IsChain(t, total, Start(files[i]), files[i]) && IsChain(t, total, Start(files[j]), files[j]);
    assert Apart(files[i], files[j]);
    forall a | a in ChainBlocks(first, files[i]) ensures a !in ChainBlocks(first, files[j]) {
      var k: nat :| k < |files[i]| && a == DataSector(first, files[i][k]);
      forall l: nat | l < |files[j]| ensures a != DataSector(first, files[j][l]) {
        assert files[i][k] in files[i] && files[j][l] in files[j];
      }
    }
  }

  // ----- operations -----

  /** fs_read's and fs_write's access to one block (a write loads the block first), the growth of a
      file by a block, closing a file, whose buffers the next fs_open empties, and removing it. */
  datatype Op =
    | ReadOp(file: nat, block: nat)
    | WriteOp(file: nat, block: nat, data: Data)
    | GrowOp(file: nat, block: nat, zeros: Data)
    | CloseOp(file: nat)
    | RemoveOp(file: nat)

  /** Files use blocks of their own and grow by blocks of no file; a file is removed while closed. */
  ghost predicate Allowed(w: Card, op: Op)
    requires CardOk(w)
  {
    op.file < |w.files| &&
    match op
    case ReadOp(i, a) => a in w.owned[i]
    case WriteOp(i, a, _) => a in w.owned[i]
    case GrowOp(i, a, _) => a != NO_SECTOR && a in w.dev && forall j :: 0 <= j < |w.owned| ==> a !in w.owned[j]
    case CloseOp(i) => true
    case RemoveOp(i) => forall k :: 0 <= k < |w.files[i].slots| ==> w.files[i].slots[k].cur == NO_SECTOR
  }

  /** The buffers as fs_open sets them up. */
  function Emptied(slots: seq<Slot>): seq<Slot>
  {
    seq(|slots|, k requires 0 <= k < |slots| => Slot(slots[k].data, NO_SECTOR, false, false))
  }

  function Access(c: Cache, op: Op): Cache
    requires c.head < |c.slots| && (op.ReadOp? || op.WriteOp? ==> op.block in c.dev)
  {
    match op
    case ReadOp(_, a) => Read(c, a).0
    case WriteOp(_, a, data) =>
      var (d, k) := Read(c, a);
      Put(d, k, data)
    case GrowOp(_, a, zeros) => Clear(c.(dev := c.dev[a := zeros]), a, zeros)
    case CloseOp(_) =>
      var d := FlushFrom(c, 0);
      d.(slots := Emptied(d.slots))
    case RemoveOp(_) => c
  }

  ghost function OwnedAfter(owned: set<nat>, op: Op): set<nat>
  {
    match op
    case GrowOp(_, a, _) => owned + {a}
    case RemoveOp(_) => {}
    case _ => owned
  }

  ghost function Step(w: Card, op: Op): Card
    requires CardOk(w) && Allowed(w, op)
  {
    var i := op.file;
    assert Inv(CacheOf(w, i), w.owned[i]);
    var c := Access(CacheOf(w, i), op);
    Card(c.dev, w.files[i := Buffers(c.slots, c.head)], w.owned[i := OwnedAfter(w.owned[i], op)])
  }

  /** What one file's blocks hold, without buffers or device. */
  function FlatAccess(f: map<nat, Data>, op: Op): map<nat, Data>
  {
    match op
    case WriteOp(_, a, data) => f[a := data]
    case GrowOp(_, a, zeros) => f[a := zeros]
    case RemoveOp(_) => map[]
    case _ => f
  }

  ghost predicate Shows(c: Cache, owned: set<nat>, f: map<nat, Data>)
    requires Blocks(c, owned)
  {
    f.Keys == owned && forall a :: a in owned ==> Logical(c, a) == f[a]
  }

  // ----- the device outside a file's blocks -----

  ghost predicate SameOutside(c: Cache, d: Cache, owned: set<nat>)
  {
    c.dev.Keys <= d.dev.Keys && forall a :: a in c.dev && a !in owned ==> d.dev[a] == c.dev[a]
  }

  lemma WriteBackOutside(c: Cache, i: nat, owned: set<nat>)
    requires Inv(c, owned) && c.mirror == 0 && i < |c.slots|
    ensures SameOutside(c, WriteBack(c, i), owned)
  {
    assert SlotOk(c, i, owned);
  }

  lemma EvictOutside(c: Cache, owned: set<nat>)
    requires Inv(c, owned) && c.mirror == 0
    ensures SameOutside(c, Evict(c).0, owned)
  {
    var v := ChooseVictim(c.slots, c.head);
    var d := VictimChoice(c.slots, c.head);
    ReferenceKeeps(c, v.slots, v.head, owned);
    WriteBackOutside(c.(slots := v.slots, head := v.head), v.index, owned);
  }

  lemma {:induction false} FlushOutside(c: Cache, i: nat, owned: set<nat>)
    requires Inv(c, owned) && c.mirror == 0 && i <= |c.slots|
    ensures SameOutside(c, FlushFrom(c, i), owned)
    decreases |c.slots| - i
  {
    if i < |c.slots| {
      WriteBackKeeps(c, i, owned);
      WriteBackOutside(c, i, owned);
      FlushOutside(WriteBack(c, i), i + 1, owned);
    }
  }

  // ----- one access -----

  /** An access keeps the file's buffers consistent, does to the file what it does to the flat blocks,
      and changes the device only at the file's blocks. */
  lemma AccessKeeps(c: Cache, owned: set<nat>, f: map<nat, Data>, op: Op)
    requires Inv(c, owned) && c.mirror == 0 && Shows(c, owned, f)
    requires op.ReadOp? || op.WriteOp? ==> op.block in owned
    requires op.GrowOp? ==> op.block != NO_SECTOR && op.block in c.dev && op.block !in owned
    requires op.RemoveOp? ==> forall k :: 0 <= k < |c.slots| ==> c.slots[k].cur == NO_SECTOR
    ensures var d, own := Access(c, op), OwnedAfter(owned, op);
      && Inv(d, own) && d.mirror == 0 && Shows(d, own, FlatAccess(f, op)) && SameOutside(c, d, owned + own)
  {
    hide Inv, Shows, SameOutside, Logical, Read, Put, Clear, FlushFrom, Emptied;
    match op
    case ReadOp(_, a) => ReadAccess(c, owned, f, a);
    case WriteOp(_, a, data) => WriteAccess(c, owned, f, a, data);
    case GrowOp(_, a, zeros) => GrowAccess(c, owned, f, a, zeros);
    case CloseOp(_) => CloseAccess(c, owned, f);
    case RemoveOp(_) => RemoveAccess(c, owned);
  }

  lemma ReadAccess(c: Cache, owned: set<nat>, f: map<nat, Data>, a: nat)
    requires Inv(c, owned) && c.mirror == 0 && Shows(c, owned, f) && a in owned
    ensures var (d, k) := Read(c, a);
      && Inv(d, owned) && d.mirror == 0 && Shows(d, owned, f) && SameOutside(c, d, owned + owned)
      && d.slots[k].cur == a && d.slots[k].data == f[a]
  {
    ReadKeeps(c, a, owned);
    EvictOutside(c, owned);
  }

  lemma WriteAccess(c: Cache, owned: set<nat>, f: map<nat, Data>, a: nat, data: Data)
    requires Inv(c, owned) && c.mirror == 0 && Shows(c, owned, f) && a in owned
    ensures var (e, k) := Read(c, a);
      var d := Put(e, k, data);
      && Inv(d, owned) && d.mirror == 0 && Shows(d, owned, f[a := data]) && SameOutside(c, d, owned + owned)
  {
    hide Read, Logical, SlotOk, SameOutside, Shows, Put;
    ReadAccess(c, owned, f, a);
    var (e, k) := Read(c, a);
    PutAccess(c, e, owned, f, a, k, data);
  }

  lemma PutAccess(c: Cache, e: Cache, owned: set<nat>, f: map<nat, Data>, a: nat, k: nat, data: Data)
    requires Inv(e, owned) && e.mirror == 0 && Shows(e, owned, f) && SameOutside(c, e, owned + owned)
    requires a in owned && k < |e.slots| && e.slots[k].cur == a
    ensures var d := Put(e, k, data);
      && Inv(d, owned) && d.mirror == 0 && Shows(d, owned, f[a := data]) && SameOutside(c, d, owned + owned)
  {
    hide Logical, SlotOk;
    PutKeeps(e, k, data, owned);
  }

  lemma GrowAccess(c: Cache, owned: set<nat>, f: map<nat, Data>, a: nat, zeros: Data)
    requires Inv(c, owned) && c.mirror == 0 && Shows(c, owned, f)
    requires a != NO_SECTOR && a in c.dev && a !in owned
    ensures var d := Clear(c.(dev := c.dev[a := zeros]), a, zeros);
      && Inv(d, owned + {a}) && d.mirror == 0 && Shows(d, owned + {a}, f[a := zeros])
      && SameOutside(c, d, owned + (owned + {a}))
  {
    var e, own := c.(dev := c.dev[a := zeros]), owned + {a};
    ErasedKeeps(c, owned, f, a, zeros);
    hide Find, SlotOk, Evict;
    ClearKeeps(e, a, zeros, own);
    EvictOutside(e, own);
  }

  /** Erasing a block of no file on the device. */
  lemma ErasedKeeps(c: Cache, owned: set<nat>, f: map<nat, Data>, a: nat, zeros: Data)
    requires Inv(c, owned) && c.mirror == 0 && Shows(c, owned, f)
    requires a != NO_SECTOR && a in c.dev && a !in owned
    ensures var e := c.(dev := c.dev[a := zeros]);
      Inv(e, owned + {a}) && Shows(e, owned + {a}, f[a := zeros]) && Find(e.slots, a) == |e.slots|
  {
    ErasedInv(c, owned, a, zeros);
    hide Inv, SlotOk;
    var e := c.(dev := c.dev[a := zeros]);
    forall b | b in owned ensures Logical(e, b) == f[b] { assert Logical(c, b) == f[b]; }
  }

  lemma ErasedInv(c: Cache, owned: set<nat>, a: nat, zeros: Data)
    requires Inv(c, owned) && c.mirror == 0 && a != NO_SECTOR && a in c.dev && a !in owned
    ensures var e := c.(dev := c.dev[a := zeros]); Inv(e, owned + {a}) && Find(e.slots, a) == |e.slots|
  {
    hide Logical;
    var e := c.(dev := c.dev[a := zeros]);
    forall i | 0 <= i < |c.slots| ensures SlotOk(e, i, owned + {a}) && c.slots[i].cur != a {
      assert SlotOk(c, i, owned);
    }
  }

  lemma CloseAccess(c: Cache, owned: set<nat>, f: map<nat, Data>)
    requires Inv(c, owned) && c.mirror == 0 && Shows(c, owned, f)
    ensures var e := FlushFrom(c, 0);
      var d := e.(slots := Emptied(e.slots));
      && Inv(d, owned) && d.mirror == 0 && Shows(d, owned, f) && SameOutside(c, d, owned + owned)
      && forall a :: a in owned ==> d.dev[a] == f[a]
  {
    FlushWritesAll(c, owned);
    FlushOutside(c, 0, owned);
    var e := FlushFrom(c, 0);
    var d := e.(slots := Emptied(e.slots));
    forall a | a in owned ensures Logical(d, a) == d.dev[a] { assert d.slots == Emptied(e.slots); }
  }

  lemma RemoveAccess(c: Cache, owned: set<nat>)
    requires Inv(c, owned) && c.mirror == 0 && forall k :: 0 <= k < |c.slots| ==> c.slots[k].cur == NO_SECTOR
    ensures Inv(c, {}) && Shows(c, {}, map[]) && SameOutside(c, c, owned + {})
  {
  }

  // ----- one step of the whole card -----

  /** Another file sees what it saw, as long as its own blocks did not change on the device. */
  lemma OtherKept(c: Cache, dev: map<nat, Data>, owned: set<nat>, f: map<nat, Data>)
    requires Inv(c, owned) && c.mirror == 0 && Shows(c, owned, f)
    requires forall a :: a in owned ==> a in dev && dev[a] == c.dev[a]
    ensures Inv(c.(dev := dev), owned) && Shows(c.(dev := dev), owned, f)
  {
    var d := c.(dev := dev);
    forall i | 0 <= i < |c.slots| ensures SlotOk(d, i, owned) { assert SlotOk(c, i, owned); }
    assert forall a :: a in owned ==> Logical(c, a) == Logical(d, a);
  }

  /** What every file's blocks hold. */
  ghost predicate ShowsAll(w: Card, f: seq<map<nat, Data>>)
    requires CardOk(w)
  {
    |f| == |w.files| && forall i :: 0 <= i < |w.files| ==> Shows(CacheOf(w, i), w.owned[i], f[i])
  }

  function FlatStep(f: seq<map<nat, Data>>, op: Op): seq<map<nat, Data>>
    requires op.file < |f|
  {
    f[op.file := FlatAccess(f[op.file], op)]
  }

  /** Every operation on one file does to it what it does to flat blocks, and leaves all the others. */
  lemma StepShows(w: Card, f: seq<map<nat, Data>>, op: Op)
    requires CardOk(w) && Allowed(w, op) && ShowsAll(w, f)
    ensures CardOk(Step(w, op)) && ShowsAll(Step(w, op), FlatStep(f, op))
  {
    hide Access, FlatAccess, SlotOk, Shows, SameOutside;
    var i, v := op.file, Step(w, op);
    var c, own := CacheOf(w, i), OwnedAfter(w.owned[i], op);
    AccessKeeps(c, w.owned[i], f[i], op);
    var d := Access(c, op);
    assert CacheOf(v, i) == d;
    forall j | 0 <= j < |w.files| && j != i
      ensures Inv(CacheOf(v, j), v.owned[j]) && Shows(CacheOf(v, j), v.owned[j], f[j])
      ensures own !! w.owned[j]
    {
      OwnedApart(w, op, j);
      OutsideSame(c, d, w.owned[i] + own, CacheOf(w, j), w.owned[j]);
      OtherKept(CacheOf(w, j), v.dev, w.owned[j], f[j]);
      assert CacheOf(v, j) == CacheOf(w, j).(dev := v.dev);
    }
  }

  lemma OwnedApart(w: Card, op: Op, j: nat)
    requires CardOk(w) && Allowed(w, op) && j < |w.files| && j != op.file
    ensures w.owned[op.file] + OwnedAfter(w.owned[op.file], op) !! w.owned[j]
  {
    assert if j < op.file then w.owned[j] !! w.owned[op.file] else w.owned[op.file] !! w.owned[j];
  }

  lemma OutsideSame(c: Cache, d: Cache, owned: set<nat>, other: Cache, others: set<nat>)
    requires SameOutside(c, d, owned) && Inv(other, others) && other.dev == c.dev && owned !! others
    ensures forall a :: a in others ==> a in d.dev && d.dev[a] == c.dev[a]
  {
  }

  // ----- runs -----

  /** The blocks of every file as the device holds them. */
  ghost function OnDevice(w: Card): seq<map<nat, Data>>
    requires forall i :: 0 <= i < |w.owned| ==> w.owned[i] <= w.dev.Keys
  {
    seq(|w.owned|, i requires 0 <= i < |w.owned| => map a | a in w.owned[i] :: w.dev[a])
  }

  /** Files just opened, with disjoint blocks, show what is on the device. */
  lemma FreshCard(w: Card)
    requires |w.owned| == |w.files| && forall i :: 0 <= i < |w.files| ==> w.files[i].head < |w.files[i].slots|
    requires forall i :: 0 <= i < |w.files| ==>
               w.files[i].slots == Emptied(w.files[i].slots) && w.owned[i] <= w.dev.Keys && NO_SECTOR !in w.owned[i]
    requires forall i, j :: 0 <= i < j < |w.files| ==> w.owned[i] !! w.owned[j]
    ensures CardOk(w) && ShowsAll(w, OnDevice(w))
  {
    forall i | 0 <= i < |w.files|
      ensures Inv(CacheOf(w, i), w.owned[i]) && Shows(CacheOf(w, i), w.owned[i], OnDevice(w)[i])
    {
      EmptiedShows(CacheOf(w, i), w.owned[i], OnDevice(w)[i]);
    }
  }

  lemma EmptiedShows(c: Cache, owned: set<nat>, f: map<nat, Data>)
    requires c.mirror == 0 && c.head < |c.slots| && c.slots == Emptied(c.slots)
    requires owned <= c.dev.Keys && NO_SECTOR !in owned && f == map a | a in owned :: c.dev[a]
    ensures Inv(c, owned) && Shows(c, owned, f)
  {
    assert forall k :: 0 <= k < |c.slots| ==> c.slots[k] == Emptied(c.slots)[k];
  }

  ghost predicate Reaches(w: Card, ops: seq<Op>, v: Card)
    decreases |ops|
  {
    if ops == [] then w == v
    else CardOk(w) && Allowed(w, ops[0]) && Reaches(Step(w, ops[0]), ops[1..], v)
  }

  ghost function FlatRun(f: seq<map<nat, Data>>, ops: seq<Op>): (r: seq<map<nat, Data>>)
    ensures |r| == |f|
    decreases |ops|
  {
    if ops == [] then f
    else FlatRun(if ops[0].file < |f| then FlatStep(f, ops[0]) else f, ops[1..])
  }

  lemma {:induction false} RunShows(w: Card, f: seq<map<nat, Data>>, ops: seq<Op>, v: Card)
    requires CardOk(w) && ShowsAll(w, f) && Reaches(w, ops, v)
    ensures CardOk(v) && ShowsAll(v, FlatRun(f, ops))
    decreases |ops|
  {
    hide Step, FlatStep, CardOk, ShowsAll;
    if ops != [] {
      SameCount(w, f);
      StepShows(w, f, ops[0]);
      RunShows(Step(w, ops[0]), FlatStep(f, ops[0]), ops[1..], v);
    }
  }

  lemma SameCount(w: Card, f: seq<map<nat, Data>>)
    requires CardOk(w) && ShowsAll(w, f)
    ensures |f| == |w.files|
  {
  }

  /** Operation m is the last one of the run that puts something into block a of file i. */
  ghost predicate LastPut(ops: seq<Op>, m: nat, i: nat, a: nat)
  {
    && m < |ops| && ops[m].file == i && (ops[m].WriteOp? || ops[m].GrowOp?) && ops[m].block == a
    && forall l :: m < l < |ops| ==> !Touches(ops[l], i, a)
  }

  predicate Touches(op: Op, i: nat, a: nat)
  {
    op.file == i && (op.RemoveOp? || ((op.WriteOp? || op.GrowOp?) && op.block == a))
  }

  function PutBy(op: Op): Data
    requires op.WriteOp? || op.GrowOp?
  {
    if op.WriteOp? then op.data else op.zeros
  }

  lemma {:induction false} FlatKeeps(f: seq<map<nat, Data>>, ops: seq<Op>, i: nat, a: nat)
    requires i < |f| && a in f[i] && forall l :: 0 <= l < |ops| ==> !Touches(ops[l], i, a)
    ensures a in FlatRun(f, ops)[i] && FlatRun(f, ops)[i][a] == f[i][a]
    decreases |ops|
  {
    if ops != [] {
      assert !Touches(ops[0], i, a);
      FlatKeeps(if ops[0].file < |f| then FlatStep(f, ops[0]) else f, ops[1..], i, a);
    }
  }

  lemma {:induction false} FlatLast(f: seq<map<nat, Data>>, ops: seq<Op>, m: nat, i: nat, a: nat)
    requires i < |f| && LastPut(ops, m, i, a)
    ensures a in FlatRun(f, ops)[i] && FlatRun(f, ops)[i][a] == PutBy(ops[m])
    decreases |ops|
  {
    var g := if ops[0].file < |f| then FlatStep(f, ops[0]) else f;
    if m == 0 {
      forall l | 0 <= l < |ops[1..]| ensures !Touches(ops[1..][l], i, a) { assert ops[1..][l] == ops[l + 1]; }
      FlatKeeps(g, ops[1..], i, a);
    } else {
      assert ops[1..][m - 1] == ops[m];
      FlatLast(g, ops[1..], m - 1, i, a);
    }
  }

  /** Over every run of reads, writes, growths, closings and removals on any number of files, whatever
      their buffers evict when: each file reads at every block of its own what was last written to it,
      and closing a file leaves just that on the device. */
  lemma CardRun(w: Card, f: seq<map<nat, Data>>, ops: seq<Op>, v: Card, i: nat, a: nat)
    requires CardOk(w) && ShowsAll(w, f) && Reaches(w, ops, v)
    requires i < |v.owned| && a in v.owned[i]
    ensures CardOk(v) && |FlatRun(f, ops)| == |v.files| && a in FlatRun(f, ops)[i] && a in v.dev
    ensures forall m: nat :: LastPut(ops, m, i, a) ==> FlatRun(f, ops)[i][a] == PutBy(ops[m])
    ensures a in f[i] && (forall l :: 0 <= l < |ops| ==> !Touches(ops[l], i, a)) ==> FlatRun(f, ops)[i][a] == f[i][a]
    ensures var (d, k) := Read(CacheOf(v, i), a); d.slots[k].cur == a && d.slots[k].data == FlatRun(f, ops)[i][a]
    ensures var e := FlushFrom(CacheOf(v, i), 0); a in e.dev && e.dev[a] == FlatRun(f, ops)[i][a]
  {
    RunShows(w, f, ops, v);
    forall m: nat | LastPut(ops, m, i, a) ensures FlatRun(f, ops)[i][a] == PutBy(ops[m]) {
      FlatLast(f, ops, m, i, a);
    }
    if a in f[i] && forall l :: 0 <= l < |ops| ==> !Touches(ops[l], i, a) { FlatKeeps(f, ops, i, a); }
    var g := FlatRun(f, ops)[i];
    hide Reaches, FlatRun, Logical, Read, FlushFrom;
    assert Inv(CacheOf(v, i), v.owned[i]) && Shows(CacheOf(v, i), v.owned[i], g);
    ReadAccess(CacheOf(v, i), v.owned[i], g, a);
    CloseAccess(CacheOf(v, i), v.owned[i], g);
  }

  // ----- removing a file that is still open -----

  ghost predicate NoneTwice(slots: seq<Slot>)
  {
    forall i, j :: 0 <= i < j < |slots| && slots[i].cur != NO_SECTOR ==> slots[i].cur != slots[j].cur
  }

  ghost predicate DirtyOn(slots: seq<Slot>, a: nat)
  {
    exists k :: 0 <= k < |slots| && slots[k].cur == a && slots[k].dirty
  }

  /** Closing a file writes every dirty buffer to its block, whoever owns that now. */
  lemma {:induction false} FlushDevice(c: Cache, i: nat, a: nat)
    requires c.mirror == 0 && NoneTwice(c.slots) && i <= |c.slots| && a != NO_SECTOR && a in c.dev
    ensures var d := FlushFrom(c, i);
      && a in d.dev
      && (forall k :: i <= k < |c.slots| && c.slots[k].cur == a && c.slots[k].dirty ==> d.dev[a] == c.slots[k].data)
      && ((forall k :: i <= k < |c.slots| && c.slots[k].cur == a ==> !c.slots[k].dirty) ==> d.dev[a] == c.dev[a])
    decreases |c.slots| - i
  {
    if i < |c.slots| {
      var w := WriteBack(c, i);
      assert forall k :: 0 <= k < |c.slots| && k != i ==> w.slots[k] == c.slots[k];
      FlushDevice(w, i + 1, a);
      if c.slots[i].cur == a && c.slots[i].dirty {
        assert w.dev[a] == c.slots[i].data && !w.slots[i].dirty;
        assert forall k :: i < k < |c.slots| ==> c.slots[k].cur != a;
      } else {
        assert w.dev[a] == c.dev[a];
      }
    }
  }

  /** Block a is not harmed by the dirty buffers of c: the file with the buffers d holds it dirty itself,
      or the bytes are those of the device anyway. */
  ghost predicate Unharmed(c: Cache, d: Cache, a: nat)
    requires a in d.dev
  {
    forall k :: 0 <= k < |c.slots| && c.slots[k].cur == a && c.slots[k].dirty ==>
      c.slots[k].data == d.dev[a] || DirtyOn(d.slots, a)
  }

  /** A file is removed while open, its blocks come to belong to the file with the buffers d, and then
      its buffers c are closed: the other file keeps its contents and the consistency of its buffers
      exactly when none of its blocks is harmed. */
  lemma StaleCloseIff(c: Cache, d: Cache, owned: set<nat>)
    requires c.dev == d.dev && c.mirror == d.mirror == 0 && NoneTwice(c.slots) && Inv(d, owned)
    ensures var e := d.(dev := FlushFrom(c, 0).dev);
      Inv(e, owned) && SameLogical(d, e, owned) <==> forall a :: a in owned ==> Unharmed(c, d, a)
  {
    var e := d.(dev := FlushFrom(c, 0).dev);
    forall a | a in owned
      ensures a in e.dev && (Unharmed(c, d, a) <==> e.dev[a] == d.dev[a] || DirtyOn(d.slots, a))
    {
      FlushDevice(c, 0, a);
    }
    hide FlushFrom, Unharmed;
    if forall a :: a in owned ==> Unharmed(c, d, a) {
      OwnerKept(d, e, owned);
    }
    forall a | a in owned && !Unharmed(c, d, a) ensures !(Inv(e, owned) && SameLogical(d, e, owned)) {
      OwnerHurt(d, e, owned, a);
    }
  }

  lemma OwnerKept(d: Cache, e: Cache, owned: set<nat>)
    requires Inv(d, owned) && d.mirror == 0 && e == d.(dev := e.dev)
    requires forall a :: a in owned ==> a in e.dev && (e.dev[a] == d.dev[a] || DirtyOn(d.slots, a))
    ensures Inv(e, owned) && SameLogical(d, e, owned)
  {
    forall i | 0 <= i < |d.slots| ensures SlotOk(e, i, owned) {
      assert SlotOk(d, i, owned);
      if d.slots[i].cur != NO_SECTOR && !d.slots[i].dirty { CleanOrDirty(d, owned, i); }
    }
    forall a | a in owned ensures Logical(d, a) == Logical(e, a) {
      assert Find(d.slots, a) == |d.slots| ==> !DirtyOn(d.slots, a);
    }
  }

  /** A block in a clean buffer is in no dirty one. */
  lemma CleanOrDirty(d: Cache, owned: set<nat>, i: nat)
    requires Inv(d, owned) && i < |d.slots| && d.slots[i].cur != NO_SECTOR && !d.slots[i].dirty
    ensures !DirtyOn(d.slots, d.slots[i].cur)
  {
  }

  lemma OwnerHurt(d: Cache, e: Cache, owned: set<nat>, a: nat)
    requires Inv(d, owned) && d.mirror == 0 && e == d.(dev := e.dev)
    requires a in owned && a in e.dev && e.dev[a] != d.dev[a] && !DirtyOn(d.slots, a)
    ensures !(Inv(e, owned) && SameLogical(d, e, owned))
  {
    var i := Find(d.slots, a);
    if i < |d.slots| {
      assert SlotOk(d, i, owned) && !SlotOk(e, i, owned);
    } else if Inv(e, owned) {
      assert Logical(d, a) != Logical(e, a);
    }
  }

  /** One block, one buffer each. A file writes 1 to it and is removed while open; the next owner clears
      the block, writes 2 and is closed; then the first file is closed, and 1 is on the device. */
  lemma RemovedWhileOpen()
    ensures var empty := Slot([], NO_SECTOR, false, false);
      var c := Put(Read(Cache([empty], 0, map[16 := [0]], 0), 16).0, 0, [1]);
      var d := Put(Clear(Cache([empty], 0, c.dev[16 := [0]], 0), 16, [0]), 0, [2]);
      var e := FlushFrom(d, 0);
      && 16 in e.dev && e.dev[16] == [2]
      && 16 in FlushFrom(c.(dev := e.dev), 0).dev && FlushFrom(c.(dev := e.dev), 0).dev[16] == [1]
  {
    var empty := Slot([], NO_SECTOR, false, false);
    var b := Cache([empty], 0, map[16 := [0]], 0);
    var v := ChooseVictim([empty], 0);
    assert v.index == 0;
    var c := Put(Read(b, 16).0, 0, [1]);
    var d := Put(Clear(Cache([empty], 0, c.dev[16 := [0]], 0), 16, [0]), 0, [2]);
    var e := FlushFrom(d, 0);
    assert e == FlushFrom(WriteBack(d, 0), 1) == WriteBack(d, 0);
    var g := c.(dev := e.dev);
    assert FlushFrom(g, 0) == FlushFrom(WriteBack(g, 0), 1) == WriteBack(g, 0);
  }
}
