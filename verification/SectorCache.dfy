/** The write-back buffer caches of kernel/fs/fscache/fscache.c on values: the CLOCK choice of
    a victim, and a cache of device blocks that must look like the device itself.

    The same code serves 512-byte sectors and 4096-byte clusters; a block is addressed by its
    first sector. The FAT cache of fat.c writes every block twice, mirror sectors apart. */
module SectorCache {

  const NO_SECTOR: nat := 0xFFFF_FFFF

  type byte = x: int | 0 <= x < 256
  type Data = seq<byte>

  /** BUF_512 or BUF_4K; state bit 0 is referenced, bit 1 is dirty. */
  datatype Slot = Slot(data: Data, cur: nat, referenced: bool, dirty: bool)
  {
    predicate Idle() { !referenced && !dirty }
  }

  /** A cache over the device blocks dev; mirror is 0 if blocks are written once. */
  datatype Cache = Cache(slots: seq<Slot>, head: nat, dev: map<nat, Data>, mirror: nat)

  // ----- the CLOCK victim -----

  /** ++*clock_head with wrap-around */
  function Next(h: nat, n: nat): nat
  {
    if h + 1 >= n then 0 else h + 1
  }

  /** The position d steps after h on a clock of n slots. */
  function Ahead(h: nat, d: nat, n: nat): nat
    requires h < n && d <= n
  {
    if h + d < n then h + d else h + d - n
  }

  function Unreference(slots: seq<Slot>, h: nat): seq<Slot>
    requires h < |slots|
  {
    slots[h := slots[h].(referenced := false)]
  }

  /** Sweep 1 with left steps to go: the slots, the hand, and whether the hand found a victim. */
  function Sweep1(slots: seq<Slot>, h: nat, left: nat): (r: (seq<Slot>, nat, bool))
    requires h < |slots|
    ensures |r.0| == |slots| && r.1 < |slots|
    decreases left
  {
    if left == 0 then (slots, h, false)
    else if slots[h].Idle() then (slots, h, true)
    else Sweep1(if slots[h].referenced then Unreference(slots, h) else slots, Next(h, |slots|), left - 1)
  }

  /** Sweep 2 looks only at the dirty bit. */
  function Sweep2(slots: seq<Slot>, h: nat, left: nat): (r: (nat, bool))
    requires h < |slots|
    ensures r.0 < |slots|
    decreases left
  {
    if left == 0 then (h, false)
    else if !slots[h].dirty then (h, true)
    else Sweep2(slots, Next(h, |slots|), left - 1)
  }

  datatype Victim = Victim(slots: seq<Slot>, index: nat, head: nat)

  /** fs_victim_512 and the CLOCK part of fs_victim_4k */
  function ChooseVictim(slots: seq<Slot>, head: nat): (v: Victim)
    requires head < |slots|
    ensures |v.slots| == |slots| && v.index < |slots| && v.head == Next(v.index, |slots|)
  {
    var (s1, h1, found1) := Sweep1(slots, head, |slots|);
    var index := if found1 then h1 else Sweep2(s1, h1, |slots|).0;
    Victim(s1, index, Next(index, |slots|))
  }

  lemma AheadNext(h: nat, d: nat, n: nat)
    requires h < n && d < n
    ensures Ahead(Next(h, n), d, n) == Ahead(h, d + 1, n)
  {
  }

  /** Sweep 1 stops at the first idle slot, having unreferenced the slots it passed. */
  lemma {:induction false} Sweep1Stops(slots: seq<Slot>, h: nat, left: nat) returns (d: nat)
    requires h < |slots| && left <= |slots|
    ensures d <= left
    ensures var (s, h', found) := Sweep1(slots, h, left);
      && h' == Ahead(h, d, |slots|) && (found <==> d < left)
      && (found ==> slots[h'].Idle())
      && (forall e :: 0 <= e < d ==> !slots[Ahead(h, e, |slots|)].Idle())
      && (forall e :: 0 <= e < d ==> s[Ahead(h, e, |slots|)] == slots[Ahead(h, e, |slots|)].(referenced := false))
      && (forall e :: d <= e < |slots| ==> s[Ahead(h, e, |slots|)] == slots[Ahead(h, e, |slots|)])
    decreases left
  {
    var n := |slots|;
    if left == 0 || slots[h].Idle() {
      d := 0;
    } else {
      var t := if slots[h].referenced then Unreference(slots, h) else slots;
      var d' := Sweep1Stops(t, Next(h, n), left - 1);
      d := d' + 1;
      var s := Sweep1(slots, h, left).0;
      forall e | 0 <= e < n
        ensures s[Ahead(h, e, n)] ==
                if e < d then slots[Ahead(h, e, n)].(referenced := false) else slots[Ahead(h, e, n)]
        ensures e < d ==> !slots[Ahead(h, e, n)].Idle()
      {
        if e > 0 {
          AheadNext(h, e - 1, n);
          assert t[Ahead(h, e, n)] == slots[Ahead(h, e, n)];
        } else {
          AheadNext(h, n - 1, n);
          assert Ahead(h, n, n) == h;
        }
      }
      AheadNext(h, d', n);
    }
  }

  lemma {:induction false} Sweep2Stops(slots: seq<Slot>, h: nat, left: nat) returns (d: nat)
    requires h < |slots| && left <= |slots|
    ensures d <= left
    ensures var (h', found) := Sweep2(slots, h, left);
      && h' == Ahead(h, d, |slots|) && (found <==> d < left) && (found ==> !slots[h'].dirty)
      && (forall e :: 0 <= e < d ==> slots[Ahead(h, e, |slots|)].dirty)
    decreases left
  {
    var n := |slots|;
    if left == 0 || !slots[h].dirty {
      d := 0;
    } else {
      var d' := Sweep2Stops(slots, Next(h, n), left - 1);
      d := d' + 1;
      forall e | 0 <= e < d ensures slots[Ahead(h, e, n)].dirty {
        if e > 0 { AheadNext(h, e - 1, n); }
      }
      AheadNext(h, d', n);
    }
  }

  /** Every slot is some number of steps ahead of the hand. */
  function Distance(h: nat, i: nat, n: nat): (d: nat)
    requires h < n && i < n
    ensures d < n && Ahead(h, d, n) == i
  {
    if i >= h then i - h else i + n - h
  }

  /** The CLOCK choice. If some slot is clean and unreferenced, the victim is the first such slot
      in clock order; otherwise, if some slot is clean, the first clean one; otherwise the slot
      under the hand. Slots lose at most their reference bit: those passed before an idle victim,
      and all of them when there was none. */
  lemma VictimChoice(slots: seq<Slot>, head: nat) returns (d: nat)
    requires head < |slots|
    ensures d < |slots| && ChooseVictim(slots, head).index == Ahead(head, d, |slots|)
    ensures var v := ChooseVictim(slots, head);
      if exists i :: 0 <= i < |slots| && slots[i].Idle() then
        && slots[v.index].Idle()
        && (forall e :: 0 <= e < d ==> !slots[Ahead(head, e, |slots|)].Idle())
        && (forall i :: 0 <= i < |slots| ==>
              v.slots[i] == if Distance(head, i, |slots|) < d then slots[i].(referenced := false) else slots[i])
      else
        && (forall i :: 0 <= i < |slots| ==> v.slots[i] == slots[i].(referenced := false))
        && if exists i :: 0 <= i < |slots| && !slots[i].dirty then
             && !slots[v.index].dirty
             && (forall e :: 0 <= e < d ==> slots[Ahead(head, e, |slots|)].dirty)
           else d == 0
  {
    var n := |slots|;
    var d1 := Sweep1Stops(slots, head, n);
    var (s1, h1, found) := Sweep1(slots, head, n);
    forall i | 0 <= i < n
      ensures s1[i] == if Distance(head, i, n) < d1 then slots[i].(referenced := false) else slots[i]
      ensures !found ==> !slots[i].Idle()
    {
      assert i == Ahead(head, Distance(head, i, n), n);
    }
    if found {
      d := d1;
    } else {
      assert h1 == head;
      var d2 := Sweep2Stops(s1, head, n);
      d := if d2 < n then d2 else 0;
      forall i | 0 <= i < n ensures d2 == n ==> slots[i].dirty {
        assert i == Ahead(head, Distance(head, i, n), n);
      }
    }
  }

  /** In particular: the victim is dirty only if every slot is, and it was referenced only if no
      slot was clean and unreferenced. */
  lemma VictimIsBest(slots: seq<Slot>, head: nat)
    requires head < |slots|
    ensures var v := ChooseVictim(slots, head);
      && (slots[v.index].dirty <==> forall i :: 0 <= i < |slots| ==> slots[i].dirty)
      && (slots[v.index].referenced ==> forall i :: 0 <= i < |slots| ==> !slots[i].Idle())
      && (forall i :: 0 <= i < |slots| ==> v.slots[i] == slots[i] || v.slots[i] == slots[i].(referenced := false))
      && v.slots[v.index].dirty == slots[v.index].dirty
  {
    var d := VictimChoice(slots, head);
  }

  // ----- reading, writing back and clearing blocks -----

  /** The search loop: the first slot that holds block a, or the number of slots. */
  function Find(slots: seq<Slot>, a: nat): (i: nat)
    ensures i <= |slots|
    ensures i < |slots| ==> slots[i].cur == a
    ensures forall j :: 0 <= j < i ==> slots[j].cur != a
  {
    if slots == [] then 0 else if slots[0].cur == a then 0 else 1 + Find(slots[1..], a)
  }

  /** fs_write_512, fs_write_4k, write_fat_sector */
  function WriteBack(c: Cache, i: nat): Cache
    requires i < |c.slots|
  {
    var s := c.slots[i];
    if s.cur != NO_SECTOR && s.dirty then
      c.(dev := c.dev[s.cur := s.data][s.cur + c.mirror := s.data], slots := c.slots[i := s.(dirty := false)])
    else c
  }

  /** The blocks the cache may be asked for exist on the device, and their mirrors apart. */
  ghost predicate Blocks(c: Cache, primary: set<nat>)
  {
    forall a :: a in primary ==>
      a != NO_SECTOR && a in c.dev && a + c.mirror in c.dev && (c.mirror != 0 ==> a + c.mirror !in primary)
  }

  /** No block is cached twice, and a clean slot agrees with the device. */
  ghost predicate Inv(c: Cache, primary: set<nat>)
  {
    && Blocks(c, primary) && c.head < |c.slots|
    && (forall i :: 0 <= i < |c.slots| ==> SlotOk(c, i, primary))
    && (forall i, j :: 0 <= i < j < |c.slots| && c.slots[i].cur != NO_SECTOR ==> c.slots[i].cur != c.slots[j].cur)
  }

  ghost predicate SlotOk(c: Cache, i: int, primary: set<nat>)
    requires 0 <= i < |c.slots|
  {
    var s := c.slots[i];
    s.cur != NO_SECTOR ==> s.cur in primary && s.cur in c.dev && (!s.dirty ==> s.data == c.dev[s.cur])
  }

  /** What a reader of block a sees: the cached copy if there is one, else the device. */
  function Logical(c: Cache, a: nat): Data
    requires a in c.dev
  {
    var i := Find(c.slots, a);
    if i < |c.slots| then c.slots[i].data else c.dev[a]
  }

  ghost predicate SameLogical(c: Cache, d: Cache, primary: set<nat>)
    requires Blocks(c, primary) && Blocks(d, primary)
  {
    forall a :: a in primary ==> Logical(c, a) == Logical(d, a)
  }

  /** Both copies of every block agree on the device. */
  ghost predicate Mirrored(c: Cache, primary: set<nat>)
    requires Blocks(c, primary)
  {
    forall a :: a in primary ==> c.dev[a + c.mirror] == c.dev[a]
  }

  function Evict(c: Cache): (r: (Cache, nat))
    requires c.head < |c.slots|
    ensures r.1 < |r.0.slots| == |c.slots| && r.0.mirror == c.mirror
  {
    var v := ChooseVictim(c.slots, c.head);
    (WriteBack(c.(slots := v.slots, head := v.head), v.index), v.index)
  }

  /** fs_read_512, fs_read_4k, read_fat_sector: the cache afterwards and the slot holding a. */
  function Read(c: Cache, a: nat): (r: (Cache, nat))
    requires c.head < |c.slots| && a in c.dev
    ensures r.1 < |r.0.slots| == |c.slots| && r.0.mirror == c.mirror
  {
    var i := Find(c.slots, a);
    if i < |c.slots| then
      (c.(slots := c.slots[i := c.slots[i].(referenced := true)]), i)
    else
      var (e, k) := Evict(c);
      EvictKeys(c);
      (e.(slots := e.slots[k := Slot(e.dev[a], a, true, false)]), k)
  }

  lemma EvictKeys(c: Cache)
    requires c.head < |c.slots|
    ensures c.dev.Keys <= Evict(c).0.dev.Keys
  {
  }

  /** fs_clr_512, fs_clr_4k: a slot of zeros for block a, without reading the device. */
  function Clear(c: Cache, a: nat, zeros: Data): (r: Cache)
    requires c.head < |c.slots|
    ensures |r.slots| == |c.slots| && r.mirror == c.mirror
  {
    var (e, k) := Evict(c);
    e.(slots := e.slots[k := Slot(zeros, a, false, false)])
  }

  /** A caller changes the data of a slot and sets its state to 3. */
  function Put(c: Cache, i: nat, data: Data): Cache
    requires i < |c.slots|
  {
    c.(slots := c.slots[i := Slot(data, c.slots[i].cur, true, true)])
  }

  /** Writing back slots i, i + 1, ... in turn, as fs_fflush and fs_close do. */
  function FlushFrom(c: Cache, i: nat): (r: Cache)
    requires i <= |c.slots|
    ensures |r.slots| == |c.slots| && r.mirror == c.mirror
    decreases |c.slots| - i
  {
    if i == |c.slots| then c else FlushFrom(WriteBack(c, i), i + 1)
  }

  // ----- what the operations keep -----

  lemma FindUnique(c: Cache, primary: set<nat>, i: nat)
    requires Inv(c, primary) && i < |c.slots| && c.slots[i].cur != NO_SECTOR
    ensures Find(c.slots, c.slots[i].cur) == i
  {
    var j := Find(c.slots, c.slots[i].cur);
    assert j <= i && c.slots[j].cur == c.slots[i].cur;
  }

  /** Changing reference bits changes nothing a reader sees. */
  lemma {:induction false} FindSameCurs(s: seq<Slot>, t: seq<Slot>, a: nat)
    requires |s| == |t| && forall i :: 0 <= i < |s| ==> s[i].cur == t[i].cur
    ensures Find(s, a) == Find(t, a)
  {
    if s != [] { FindSameCurs(s[1..], t[1..], a); }
  }

  lemma ReferenceKeeps(c: Cache, t: seq<Slot>, h: nat, primary: set<nat>)
    requires Inv(c, primary) && |t| == |c.slots| && h < |t|
    requires forall i :: 0 <= i < |t| ==>
               t[i].cur == c.slots[i].cur && t[i].data == c.slots[i].data && t[i].dirty == c.slots[i].dirty
    ensures var d := c.(slots := t, head := h); Inv(d, primary) && SameLogical(c, d, primary)
  {
    var d := c.(slots := t, head := h);
    forall i | 0 <= i < |t| ensures SlotOk(d, i, primary) { assert SlotOk(c, i, primary); }
    forall a | a in primary ensures Logical(c, a) == Logical(d, a) { FindSameCurs(c.slots, t, a); }
  }

  lemma WriteBackKeeps(c: Cache, i: nat, primary: set<nat>)
    requires Inv(c, primary) && i < |c.slots|
    ensures var d := WriteBack(c, i);
      && Inv(d, primary) && SameLogical(c, d, primary) && (Mirrored(c, primary) ==> Mirrored(d, primary))
      && (d.slots[i].cur == NO_SECTOR || !d.slots[i].dirty)
      && c.dev.Keys <= d.dev.Keys
  {
    hide Find;
    var d := WriteBack(c, i);
    var s := c.slots[i];
    assert SlotOk(c, i, primary);
    if s.cur != NO_SECTOR && s.dirty {
      forall j | 0 <= j < |d.slots| ensures SlotOk(d, j, primary) { assert SlotOk(c, j, primary); }
      forall a | a in primary ensures Logical(c, a) == Logical(d, a) {
        FindSameCurs(c.slots, d.slots, a);
        FindUnique(c, primary, i);
      }
    }
  }

  /** Eviction frees a slot whose contents the device now has. */
  lemma EvictKeeps(c: Cache, primary: set<nat>)
    requires Inv(c, primary)
    ensures var (e, k) := Evict(c);
      && Inv(e, primary) && SameLogical(c, e, primary) && (Mirrored(c, primary) ==> Mirrored(e, primary))
      && (e.slots[k].cur == NO_SECTOR || !e.slots[k].dirty)
      && c.dev.Keys <= e.dev.Keys
      && forall i :: 0 <= i < |c.slots| ==> e.slots[i].cur == c.slots[i].cur
  {
    var v := ChooseVictim(c.slots, c.head);
    var d := VictimChoice(c.slots, c.head);
    ReferenceKeeps(c, v.slots, v.head, primary);
    WriteBackKeeps(c.(slots := v.slots, head := v.head), v.index, primary);
  }

  /** Replacing a slot that need not be written back by a clean copy of an uncached block. */
  lemma ReplaceKeeps(c: Cache, k: nat, a: nat, data: Data, primary: set<nat>)
    requires Inv(c, primary) && k < |c.slots| && a in primary && data == c.dev[a]
    requires Find(c.slots, a) == |c.slots| && (c.slots[k].cur == NO_SECTOR || !c.slots[k].dirty)
    ensures forall referenced: bool ::
              var d := c.(slots := c.slots[k := Slot(data, a, referenced, false)]);
              Inv(d, primary) && SameLogical(c, d, primary) && Logical(d, a) == Logical(c, a) == data
                && Find(d.slots, a) == k
  {
    forall referenced: bool
      ensures var d := c.(slots := c.slots[k := Slot(data, a, referenced, false)]);
        Inv(d, primary) && SameLogical(c, d, primary) && Find(d.slots, a) == k
    {
      var d := c.(slots := c.slots[k := Slot(data, a, referenced, false)]);
      forall j | 0 <= j < |d.slots| ensures SlotOk(d, j, primary) { assert SlotOk(c, j, primary); }
      assert Inv(d, primary);
      FindUnique(d, primary, k);
      assert SlotOk(c, k, primary);
      forall b | b in primary ensures Logical(c, b) == Logical(d, b) {
        var i, j := Find(c.slots, b), Find(d.slots, b);
        if j < |d.slots| && j != k { FindUnique(c, primary, j); }
        if i < |c.slots| && i != k { FindUnique(d, primary, i); }
      }
    }
  }

  /** Reading a block returns a slot with its logical content and leaves the logical device, the
      mirror and the absence of duplicates intact, whatever has to be evicted. */
  lemma ReadKeeps(c: Cache, a: nat, primary: set<nat>)
    requires Inv(c, primary) && a in primary
    ensures var (d, k) := Read(c, a);
      && Inv(d, primary) && SameLogical(c, d, primary) && (Mirrored(c, primary) ==> Mirrored(d, primary))
      && d.slots[k].cur == a && d.slots[k].data == Logical(c, a)
      && c.dev.Keys <= d.dev.Keys
  {
    var i := Find(c.slots, a);
    if i < |c.slots| {
      ReferenceKeeps(c, c.slots[i := c.slots[i].(referenced := true)], c.head, primary);
    } else {
      EvictKeeps(c, primary);
      var (e, k) := Evict(c);
      FindSameCurs(c.slots, e.slots, a);
      ReplaceKeeps(e, k, a, e.dev[a], primary);
    }
  }

  /** What an access leaves in the slots. A hit sets the reference bit of its slot and changes nothing
      else; a miss puts the block, referenced and clean, in the victim's place; clearing puts zeros there,
      with neither bit set. Slots in between may lose their reference bits, and nothing more. */
  lemma AccessBits(c: Cache, a: nat, zeros: Data)
    requires c.head < |c.slots| && a in c.dev
    ensures var (d, k) := Read(c, a);
      && d.slots[k].cur == a && d.slots[k].referenced
      && (if Find(c.slots, a) < |c.slots| then
            k == Find(c.slots, a) && d == c.(slots := c.slots[k := c.slots[k].(referenced := true)])
          else k == ChooseVictim(c.slots, c.head).index && !d.slots[k].dirty && OthersKept(c, d, k))
    ensures var d := Clear(c, a, zeros);
      var k := ChooseVictim(c.slots, c.head).index;
      && d.slots[k] == Slot(zeros, a, false, false) && OthersKept(c, d, k)
  {
    var d := VictimChoice(c.slots, c.head);
  }

  ghost predicate OthersKept(c: Cache, d: Cache, k: nat)
  {
    |d.slots| == |c.slots| && forall i :: 0 <= i < |c.slots| && i != k ==>
      d.slots[i] == c.slots[i] || d.slots[i] == c.slots[i].(referenced := false)
  }

  /** Writing back keeps blocks, data and reference bits, and leaves no used slot dirty. */
  lemma {:induction false} FlushBits(c: Cache, i: nat)
    requires i <= |c.slots|
    ensures var d := FlushFrom(c, i);
      && d.head == c.head && forall j :: 0 <= j < |c.slots| ==>
        d.slots[j] == if i <= j && c.slots[j].cur != 0xFFFF_FFFF then c.slots[j].(dirty := false) else c.slots[j]
    decreases |c.slots| - i
  {
    if i < |c.slots| { FlushBits(WriteBack(c, i), i + 1); }
  }

  /** Clearing a block that is not cached and that the device holds as zeros changes nothing. */
  lemma ClearKeeps(c: Cache, a: nat, zeros: Data, primary: set<nat>)
    requires Inv(c, primary) && a in primary && Find(c.slots, a) == |c.slots| && c.dev[a] == zeros && c.mirror == 0
    ensures var d := Clear(c, a, zeros);
      && Inv(d, primary) && SameLogical(c, d, primary) && Find(d.slots, a) < |d.slots| && c.dev.Keys <= d.dev.Keys
  {
    EvictKeeps(c, primary);
    var (e, k) := Evict(c);
    FindSameCurs(c.slots, e.slots, a);
    assert Logical(e, a) == Logical(c, a);
    ReplaceKeeps(e, k, a, zeros, primary);
  }

  /** Changing a cached block changes that block and no other. */
  lemma PutKeeps(c: Cache, i: nat, data: Data, primary: set<nat>)
    requires Inv(c, primary) && i < |c.slots| && c.slots[i].cur != NO_SECTOR
    ensures var d := Put(c, i, data);
      && Inv(d, primary) && (Mirrored(c, primary) ==> Mirrored(d, primary))
      && d.slots[i] == Slot(data, c.slots[i].cur, true, true)
      && forall b :: b in primary ==> Logical(d, b) == if b == c.slots[i].cur then data else Logical(c, b)
  {
    var d := Put(c, i, data);
    forall j | 0 <= j < |d.slots| ensures SlotOk(d, j, primary) { assert SlotOk(c, j, primary); }
    forall b | b in primary ensures Logical(d, b) == if b == c.slots[i].cur then data else Logical(c, b) {
      FindSameCurs(c.slots, d.slots, b);
      FindUnique(c, primary, i);
    }
  }

  lemma {:induction false} FlushKeeps(c: Cache, i: nat, primary: set<nat>)
    requires Inv(c, primary) && i <= |c.slots|
    requires forall j :: 0 <= j < i ==> c.slots[j].cur == NO_SECTOR || !c.slots[j].dirty
    ensures var d := FlushFrom(c, i);
      && Inv(d, primary) && SameLogical(c, d, primary) && (Mirrored(c, primary) ==> Mirrored(d, primary))
      && forall j :: 0 <= j < |d.slots| ==> d.slots[j].cur == NO_SECTOR || !d.slots[j].dirty
    decreases |c.slots| - i
  {
    if i < |c.slots| {
      WriteBackKeeps(c, i, primary);
      FlushKeeps(WriteBack(c, i), i + 1, primary);
    }
  }

  /** After writing back every slot, the device itself holds what readers saw before; with a
      mirror, so does the mirror. */
  lemma FlushWritesAll(c: Cache, primary: set<nat>)
    requires Inv(c, primary)
    ensures var d := FlushFrom(c, 0);
      && Inv(d, primary)
      && forall a :: a in primary ==>
           d.dev[a] == Logical(c, a) && (Mirrored(c, primary) ==> d.dev[a + d.mirror] == Logical(c, a))
  {
    FlushKeeps(c, 0, primary);
    var d := FlushFrom(c, 0);
    forall a | a in primary ensures d.dev[a] == Logical(c, a) {
      assert Logical(d, a) == Logical(c, a);
      var i := Find(d.slots, a);
      if i < |d.slots| { assert SlotOk(d, i, primary); }
    }
  }
}
