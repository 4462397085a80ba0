/** The revoke table of kernel/fs/fat/revoke.c and recovery.c as the code keeps it: an array of
    list heads, with the records chained by their embedded nodes. */
module Revoke {
  import opened Bits
  import opened IntrusiveList
  import opened SectorCache
  import opened FatEntries
  import opened FatBuffers
  import R = RevokeSpec

  class Record {
    const blocknr: nat
    var sequence: nat

    constructor (blocknr: nat, sequence: nat)
      ensures this.blocknr == blocknr && this.sequence == sequence
    {
      this.blocknr, this.sequence := blocknr, sequence;
    }
  }

  type Node = ListHead<Record>

  class RevokeTable {
    const heads: seq<Node>           // hash_table
    const shift: nat                 // hash_shift
    ghost var lists: seq<seq<Node>>  // the records on each chain, head first
    ghost var repr: set<object>      // heads, nodes and records

    /** The nodes of a chain and their records belong to the table. */
    ghost predicate ChainIn(s: seq<Node>)
      reads this
    {
      forall i :: 0 <= i < |s| ==> s[i] in repr && s[i].item in repr && s[i] !in heads
    }

    ghost predicate Valid()
      reads this, repr
    {
      && |heads| > 0 && |lists| == |heads| && this !in repr
      && (forall k :: 0 <= k < |heads| ==> heads[k] in repr)
      && (forall j, k :: 0 <= j < k < |heads| ==> heads[j] != heads[k])
      && (forall k :: 0 <= k < |lists| ==> ChainIn(lists[k]) && Ring(heads[k], lists[k]))
      && (forall k, i :: 0 <= k < |lists| && 0 <= i < |lists[k]| ==> Bucket(lists[k][i].item.blocknr) == k)
      && (forall k, i, j :: 0 <= k < |lists| && 0 <= i < j < |lists[k]| ==>
            lists[k][i].item.blocknr != lists[k][j].item.blocknr)
    }

    ghost function Bucket(blocknr: nat): int
      requires |heads| > 0
    {
      And(R.Mix(shift, blocknr), |heads| - 1)
    }

    ghost function ChainOf(s: seq<Node>): (r: seq<R.Entry>)
      requires ChainIn(s)
      reads this, repr
      ensures |r| == |s| && forall i :: 0 <= i < |s| ==> r[i] == R.Entry(s[i].item.blocknr, s[i].item.sequence)
    {
      if s == [] then []
      else
        assert s[0].item in repr;
        assert forall i :: 0 <= i < |s| - 1 ==> s[1..][i] == s[i + 1];
        [R.Entry(s[0].item.blocknr, s[0].item.sequence)] + ChainOf(s[1..])
    }

    ghost function State(): (t: R.Table)
      requires Valid()
      reads this, repr
      ensures |t.chains| == |heads| > 0 && t.shift == shift
      ensures forall k :: 0 <= k < |lists| ==> t.chains[k] == ChainOf(lists[k])
    {
      R.Table(Chains(), shift)
    }

    ghost function Chains(): (r: seq<seq<R.Entry>>)
      requires Valid()
      reads this, repr
      ensures |r| == |lists| && forall k :: 0 <= k < |lists| ==> r[k] == ChainOf(lists[k])
    {
      ChainsFrom(lists)
    }

    ghost function ChainsFrom(ls: seq<seq<Node>>): (r: seq<seq<R.Entry>>)
      requires forall k :: 0 <= k < |ls| ==> ChainIn(ls[k])
      reads this, repr
      ensures |r| == |ls| && forall k :: 0 <= k < |ls| ==> r[k] == ChainOf(ls[k])
    {
      if ls == [] then [] else [ChainOf(ls[0])] + ChainsFrom(ls[1..])
    }

    /** The INIT_LIST_HEAD loop of journal_init_revoke_table. */
    static method NewHeads(n: nat) returns (hs: seq<Node>, ghost objects: set<object>)
      ensures |hs| == n && fresh(objects) && forall k :: 0 <= k < n ==> hs[k] in objects && hs[k].Alone()
      ensures forall j, k :: 0 <= j < k < n ==> hs[j] != hs[k]
    {
      hs, objects := [], {};
      var none := new Record(0, 0);
      while |hs| < n
        invariant |hs| <= n && fresh(objects)
        invariant forall k :: 0 <= k < |hs| ==> hs[k] in objects && hs[k].Alone()
        invariant forall j, k :: 0 <= j < k < |hs| ==> hs[j] != hs[k]
      {
        var head := new ListHead<Record>(none);
        hs := hs + [head];
        objects := objects + {head};
      }
    }

    /** The loop of journal_init_revoke_table that computes hash_shift. */
    static method FloorLog(n: nat) returns (shift: nat)
      ensures shift == R.FloorLog(n)
    {
      shift := 0;
      var tmp: nat := n / 2;
      while tmp != 0
        invariant shift + (if tmp == 0 then 0 else 1 + R.FloorLog(tmp)) == R.FloorLog(n)
        decreases tmp
      {
        shift := shift + 1;
        tmp := tmp / 2;
      }
    }

    /** journal_init_revoke_table */
    constructor (hashSize: nat)
      requires hashSize > 0
      ensures Valid() && fresh(repr) && State() == R.EmptyTable(hashSize)
    {
      ghost var objects;
      var hs: seq<Node>;
      hs, objects := NewHeads(hashSize);
      heads := hs;
      var log := FloorLog(hashSize);
      shift := log;
      lists := seq(hashSize, _ => []);
      repr := objects;
      new;
      forall k | 0 <= k < |heads| ensures Ring(heads[k], lists[k]) { assert heads[k].Alone(); }
      assert Valid();
      assert State().chains == R.EmptyTable(hashSize).chains;
    }

    /** hash */
    method Hash(blocknr: nat) returns (h: nat)
      requires Valid()
      ensures h == R.Hash(State(), blocknr) == Bucket(blocknr) < |heads|
    {
      AndBound(R.Mix(shift, blocknr), |heads| - 1);
      h := And(R.Mix(shift, blocknr), |heads| - 1);
    }

    /** find_revoke_record */
    method FindRecord(blocknr: nat) returns (record: Record?, ghost i: nat)
      requires Valid()
      ensures i == R.Locate(State().chains[R.Hash(State(), blocknr)], blocknr)
      ensures record == null <==> i == |State().chains[R.Hash(State(), blocknr)]|
      ensures record != null ==>
                i < |lists[Bucket(blocknr)]| && record == lists[Bucket(blocknr)][i].item && record in repr
    {
      hide And;
      var h := Hash(blocknr);
      ghost var s, chain := lists[h], State().chains[h];
      assert chain == ChainOf(s);
      var node := heads[h].next;
      i := 0;
      assert At(heads[h], s, 0).next == At(heads[h], s, 1);
      while node != heads[h]
        invariant i <= |s| && node == At(heads[h], s, i + 1)
        invariant i + R.Locate(chain[i..], blocknr) == R.Locate(chain, blocknr)
        decreases |s| - i
      {
        assert i < |s| && node == s[i] && chain[i] == R.Entry(node.item.blocknr, node.item.sequence);
        assert chain[i..][1..] == chain[i + 1..];
        if node.item.blocknr == blocknr {
          record := node.item;
          return;
        }
        assert At(heads[h], s, i + 1).next == At(heads[h], s, i + 2);
        node := node.next;
        i := i + 1;
      }
      assert i == |s|;
      record := null;
    }

    /** The chains are apart: their records hash to different buckets. */
    lemma ChainsApart(h: nat, k: nat)
      requires Valid() && h < |lists| && k < |lists| && h != k
      ensures heads[k] !in lists[h] && heads[h] !in lists[k] && heads[h] != heads[k]
      ensures forall x :: x in lists[k] ==> x !in lists[h]
    {
      forall x | x in lists[k] ensures x !in lists[h] {
        assert Bucket(x.item.blocknr) == k;
        assert forall y :: y in lists[h] ==> Bucket(y.item.blocknr) == h;
      }
      assert forall y :: y in lists[h] ==> y !in heads;
      assert forall y :: y in lists[k] ==> y !in heads;
    }

    /** list_add of a new record to chain h. */
    method LinkRecord(record: Record, h: nat) returns (node: Node)
      requires Valid() && h < |lists| == |heads| && h == Bucket(record.blocknr) && record !in repr
      requires forall i :: 0 <= i < |lists[h]| ==> lists[h][i].item.blocknr != record.blocknr
      modifies this`lists, this`repr, repr
      ensures fresh(node) && node.item == record && lists == old(lists)[h := [node] + old(lists)[h]]
      ensures repr == old(repr) + {node, record} && record.sequence == old(record.sequence)
      ensures forall r: Record :: r in old(repr) ==> r.sequence == old(r.sequence)
      ensures Valid()
    {
      hide And, R.Mix, Ring, ChainOf, ChainsFrom;
      node := new ListHead<Record>(record);
      forall k: nat | k < |lists| && k != h ensures heads[k] !in lists[h] && heads[k] != heads[h] { ChainsApart(h, k); }
      forall k: nat, x | k < |lists| && k != h && x in lists[k]
        ensures x !in lists[h] && x != heads[h]
      {
        ChainsApart(h, k);
      }
      FirstIn(h);
      ghost var was := lists;
      ListAdd(node, heads[h], lists[h]);
      lists := lists[h := [node] + lists[h]];
      repr := repr + {record, node};
      forall k | 0 <= k < |lists| && k != h ensures Ring(heads[k], lists[k]) { assert lists[k] == was[k]; }
    }

    /** What Valid says of one chain. */
    lemma Chain(k: nat)
      requires Valid() && k < |heads|
      ensures |lists| == |heads| && ChainIn(lists[k]) && State().chains[k] == ChainOf(lists[k])
      ensures forall i :: 0 <= i < |lists[k]| ==> lists[k][i].item in repr
    {
      hide And, R.Mix, Ring;
    }

    /** The chains after list_add, as values. */
    method AddRecord(record: Record, h: nat)
      requires Valid() && h < |lists| == |heads| && h == Bucket(record.blocknr) && record !in repr
      requires forall i :: 0 <= i < |lists[h]| ==> lists[h][i].item.blocknr != record.blocknr
      modifies this`lists, this`repr, repr
      ensures Valid() && fresh(repr - old(repr) - {record}) && h < |old(State()).chains|
      ensures var t := old(State());
        State() == t.(chains := t.chains[h := [R.Entry(record.blocknr, record.sequence)] + t.chains[h]])
    {
      hide Valid, Bucket, ChainOf, State;
      Chain(h);
      ghost var t, was := State(), lists;
      forall k: nat | k < |heads| ensures ChainIn(was[k]) && t.chains[k] == ChainOf(was[k]) { Chain(k); }
      var node := LinkRecord(record, h);
      forall k: nat | k < |heads|
        ensures State().chains[k] ==
                if k == h then [R.Entry(record.blocknr, record.sequence)] + t.chains[h] else t.chains[k]
      {
        Chain(k);
      }
      assert State().chains == t.chains[h := [R.Entry(record.blocknr, record.sequence)] + t.chains[h]];
    }

    /** Locate reaching the end of its chain means that no node there holds the block. */
    lemma AbsentIn(blocknr: nat)
      requires Valid() && R.Locate(State().chains[R.Hash(State(), blocknr)], blocknr) ==
          |State().chains[R.Hash(State(), blocknr)]|
      ensures |lists| == |heads| && R.Hash(State(), blocknr) == Bucket(blocknr) < |heads|
      ensures forall i :: 0 <= i < |lists[Bucket(blocknr)]| ==> lists[Bucket(blocknr)][i].item.blocknr != blocknr
    {
      hide And, R.Mix, Ring;
      Chain(R.Hash(State(), blocknr));
    }

    /** insert_revoke_hash */
    method InsertRevokeHash(blocknr: nat, sequence: nat)
      requires Valid() && R.Locate(State().chains[R.Hash(State(), blocknr)], blocknr) ==
          |State().chains[R.Hash(State(), blocknr)]|
      modifies this`lists, this`repr, repr
      ensures Valid() && fresh(repr - old(repr))
      ensures var t := old(State()); var h := R.Hash(t, blocknr);
        State() == t.(chains := t.chains[h := [R.Entry(blocknr, sequence)] + t.chains[h]])
    {
      hide Valid, R.Hash, R.Locate, Bucket, ChainOf, State;
      AbsentIn(blocknr);
      var record := new Record(blocknr, sequence);
      var h := Hash(blocknr);
      AddRecord(record, h);
    }

    lemma FirstIn(h: nat)
      requires Valid() && h < |lists|
      ensures heads[h].next == heads[h] || heads[h].next in lists[h]
      ensures heads[h].next in repr
    {
      assert At(heads[h], lists[h], 0).next == At(heads[h], lists[h], 1);
    }

    /** record->sequence = sequence */
    method Raise(record: Record, ghost h: nat, ghost i: nat, sequence: nat)
      requires Valid() && h < |lists| && i < |lists[h]| && record == lists[h][i].item && record in repr
      modifies record
      ensures Valid() && lists == old(lists) && repr == old(repr)
      ensures i < |old(State()).chains[h]|
      ensures var t := old(State());
        State() == t.(chains := t.chains[h := t.chains[h][i := R.Entry(record.blocknr, sequence)]])
    {
      hide And, R.Mix, Ring, ChainOf, ChainsFrom;
      ghost var t := State();
      record.sequence := sequence;
      forall k, j | 0 <= k < |lists| && 0 <= j < |lists[k]| && (k != h || j != i) ensures lists[k][j].item != record {
        assert Bucket(lists[k][j].item.blocknr) == k;
      }
      forall k | 0 <= k < |lists|
        ensures ChainOf(lists[k]) == if k == h then t.chains[h][i := R.Entry(record.blocknr, sequence)] else t.chains[k]
      {
      }
    }

    /** journal_set_revoke */
    method SetRevoke(blocknr: nat, sequence: nat)
      requires Valid()
      modifies this`lists, this`repr, repr
      ensures Valid() && fresh(repr - old(repr))
      ensures State() == R.SetRevoke(old(State()), blocknr, sequence)
    {
      hide And, R.Mix, Ring, ChainOf, ChainsFrom;
      ghost var t := State();
      var record, i := FindRecord(blocknr);
      ghost var h := R.Hash(t, blocknr);
      assert h == Bucket(blocknr) && t.chains[h] == ChainOf(lists[h]);
      if record != null {
        if R.TidGt(sequence, record.sequence) {
          Raise(record, h, i, sequence);
        }
        return;
      }
      InsertRevokeHash(blocknr, sequence);
    }

    /** journal_test_revoke */
    method TestRevoke(blocknr: nat, sequence: nat) returns (r: int)
      requires Valid()
      ensures r == R.TestRevoke(State(), blocknr, sequence)
    {
      hide And, R.Mix, Ring, ChainOf, ChainsFrom;
      ghost var h := R.Hash(State(), blocknr);
      assert h == Bucket(blocknr) && State().chains[h] == ChainOf(lists[h]);
      var record, i := FindRecord(blocknr);
      if record == null {
        return 0;
      }
      if R.TidGt(sequence, record.sequence) {
        return 0;
      }
      r := 1;
    }

    /** One block number of a revoke record. */
    method ScanWord(bh: Data, k: nat, max: nat, tid: nat)
      requires Valid() && max <= |bh| == SECTOR_SIZE && R.HEADER + 4 * k < max
      modifies this`lists, this`repr, repr
      ensures Valid() && fresh(repr - old(repr)) && |R.Listed(bh, k, max)| == 1 + |R.Listed(bh, k + 1, max)|
      ensures R.SetAll(State(), R.CallsFor(R.Listed(bh, k + 1, max), tid)) ==
              R.SetAll(old(State()), R.CallsFor(R.Listed(bh, k, max), tid))
    {
      hide Valid, State, GetU32, R.SetAll, R.CallsFor, R.SetRevoke, R.Listed;
      ScanStep(State(), bh, k, max, tid);
      var blocknr := LoadU32(bh, R.HEADER + 4 * k);
      SetRevoke(blocknr, tid);
    }

    /** The loop of scan_revoke_records, reading word k of the list at offset HEADER + 4k. */
    method ScanLoop(bh: Data, max: nat, tid: nat) returns (nrRevokes: nat)
      requires Valid() && max <= |bh| == SECTOR_SIZE
      modifies this`lists, this`repr, repr
      ensures Valid() && fresh(repr - old(repr))
      ensures nrRevokes == |R.Listed(bh, 0, max)|
      ensures State() == R.SetAll(old(State()), R.CallsFor(R.Listed(bh, 0, max), tid))
    {
      hide Valid, State, GetU32, R.SetAll, R.CallsFor, R.SetRevoke, R.Listed;
      ghost var goal := R.SetAll(State(), R.CallsFor(R.Listed(bh, 0, max), tid));
      ghost var first := repr;
      var offset: nat := R.HEADER;
      nrRevokes := 0;
      while offset < max
        invariant offset == R.HEADER + 4 * nrRevokes
        invariant Valid() && fresh(repr - first)
        invariant nrRevokes + |R.Listed(bh, nrRevokes, max)| == |R.Listed(bh, 0, max)|
        invariant R.SetAll(State(), R.CallsFor(R.Listed(bh, nrRevokes, max), tid)) == goal
        decreases max - offset
      {
        ScanWord(bh, nrRevokes, max, tid);
        offset := offset + 4;
        nrRevokes := nrRevokes + 1;
      }
      ScanEnd(State(), bh, nrRevokes, max, tid);
    }

    /** scan_revoke_records; the sequence is passed on as a tid_t. */
    method ScanRevokeRecords(bh: Data, sequence: nat) returns (nrRevokes: nat)
      requires Valid() && |bh| == SECTOR_SIZE && GetU32(bh, 12) <= SECTOR_SIZE
      modifies this`lists, this`repr, repr
      ensures Valid() && fresh(repr - old(repr))
      ensures State() == R.ScanRecord(old(State()), bh, sequence)
      ensures nrRevokes == |R.Listed(bh, 0, GetU32(bh, 12))|
    {
      hide GetU32, Valid, State;
      var max := LoadU32(bh, 12);
      nrRevokes := ScanLoop(bh, max, sequence % R.TID);
    }
  }

  lemma ScanStep(t: R.Table, d: Data, k: nat, max: nat, s: nat)
    requires |t.chains| > 0 && max <= |d| == SECTOR_SIZE && R.HEADER + 4 * k < max
    ensures R.HEADER + 4 * k + 4 <= |d| && |R.Listed(d, k, max)| == 1 + |R.Listed(d, k + 1, max)|
    ensures R.SetAll(t, R.CallsFor(R.Listed(d, k, max), s)) ==
            R.SetAll(R.SetRevoke(t, GetU32(d, R.HEADER + 4 * k), s), R.CallsFor(R.Listed(d, k + 1, max), s))
  {
    hide GetU32, R.SetRevoke;
    var b, rest := GetU32(d, R.HEADER + 4 * k), R.Listed(d, k + 1, max);
    assert R.Listed(d, k, max) == [b] + rest && ([b] + rest)[1..] == rest;
    var calls := R.CallsFor([b] + rest, s);
    assert calls[0] == R.Call(b, s) && calls[1..] == R.CallsFor(rest, s);
  }

  lemma ScanEnd(t: R.Table, d: Data, k: nat, max: nat, s: nat)
    requires |t.chains| > 0 && max <= |d| == SECTOR_SIZE && R.HEADER + 4 * k >= max
    ensures R.Listed(d, k, max) == [] && R.SetAll(t, R.CallsFor(R.Listed(d, k, max), s)) == t
  {
  }
}
