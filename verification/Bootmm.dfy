/** The boot allocator of kernel/mm/bootmm.c as the code keeps it: the page bitmap and the
    segment table, updated in place. */
module Bootmm {
  import opened Bits
  import opened BootSpec
  import opened Options

  class BootMemory {
    const sMap: array<nat>     // s_map, with one cell past the last page
    const maxPfn: nat
    var lastAllocEnd: nat
    const info: array<Info>    // info[MAX_INFO]
    var cntInfos: nat

    ghost predicate Shape()
      reads this
    {
      && maxPfn < sMap.Length && maxPfn * PAGE_SIZE < WORD
      && info.Length == MAX_INFO && cntInfos <= MAX_INFO
    }

    ghost function State(): Boot
      requires Shape()
      reads this, sMap, info
    {
      Boot(sMap[..], maxPfn, lastAllocEnd, info[..cntInfos])
    }

    ghost predicate Valid()
      reads this, sMap, info
    {
      Shape() && MapOk(State())
    }

    /** init_bootmm */
    constructor ()
      ensures Valid() && State() == InitBoot()
      ensures maxPfn == 32768 && lastAllocEnd == 4095 && State().infos == [Info(0, 0xFF_FFFF, 0)]
      ensures forall p :: 0 <= p < 32768 ==> sMap[p] == if p < 4096 then 0xFF else 0x00
      ensures fresh(sMap) && fresh(info)
    {
      sMap := new nat[MAX_PFN + 1](_ => PAGE_FREE);
      maxPfn := MAX_PFN;
      info := new Info[MAX_INFO](_ => Info(0, 0, 0));
      cntInfos := 0;
      lastAllocEnd := KERNEL_PAGES - 1;
      new;
      assert info[..cntInfos] == [];
      var code := InsertInfo(0, KERNEL_PAGES * PAGE_SIZE - 1, MM_KERNEL);
      assert info[..cntInfos] == [Info(0, KERNEL_PAGES * PAGE_SIZE - 1, MM_KERNEL)];
      var index := 0;
      while index < KERNEL_PAGES
        invariant index <= KERNEL_PAGES
        invariant forall p :: 0 <= p < sMap.Length ==> sMap[p] == if p < index then PAGE_USED else PAGE_FREE
        invariant cntInfos == 1 && info[..1] == [Info(0, KERNEL_PAGES * PAGE_SIZE - 1, MM_KERNEL)]
            && lastAllocEnd == KERNEL_PAGES - 1
      {
        sMap[index] := PAGE_USED;
        index := index + 1;
      }
      assert sMap[..] == InitBoot().map_;
      InitOk();
    }

    /** set_maps */
    method SetMaps(sPfn: nat, cnt: nat, value: nat)
      requires sPfn + cnt <= sMap.Length
      modifies sMap
      ensures sMap[..] == Fill(old(sMap[..]), sPfn, cnt, value)
    {
      var p, left := sPfn, cnt;
      while left > 0
        invariant p + left == sPfn + cnt
        invariant Fill(sMap[..], p, left, value) == Fill(old(sMap[..]), sPfn, cnt, value)
      {
        sMap[p] := value;
        left := left - 1;
        p := p + 1;
      }
    }

    /** remove_mminfo */
    method RemoveInfo(index: nat)
      requires Shape()
      modifies this`cntInfos, info
      ensures Shape() && info[..cntInfos] == RemoveAt(old(info[..cntInfos]), index)
    {
      if index >= cntInfos {
        return;
      }
      ghost var was := info[..cntInfos];
      var i := index + 1;
      while i < cntInfos
        invariant index + 1 <= i <= cntInfos == |was|
        invariant forall j :: 0 <= j < index ==> info[j] == was[j]
        invariant forall j :: index + 1 <= j < i ==> info[j - 1] == was[j]
        invariant forall j :: i - 1 <= j < cntInfos ==> info[j] == was[j]
      {
        info[i - 1] := info[i];
        i := i + 1;
      }
      cntInfos := cntInfos - 1;
      forall j | 0 <= j < cntInfos ensures info[j] == (was[..index] + was[index + 1..])[j] {
        assert j >= index ==> info[(j + 1) - 1] == was[j + 1];
      }
    }

    /** insert_mminfo */
    method InsertInfo(start: nat, end: nat, kind: nat) returns (code: nat)
      requires Shape()
      modifies this`cntInfos, info
      ensures Shape() && (info[..cntInfos], code) == Insert(old(info[..cntInfos]), start, end, kind)
    {
      ghost var was := info[..cntInfos];
      var i := 0;
      while i < cntInfos
        invariant i <= cntInfos == |was| && info[..cntInfos] == was
        invariant InsertFrom(was, i, start, end, kind) == Insert(was, start, end, kind)
      {
        assert info[i] == was[i];
        if info[i].kind == kind {
          if info[i].end == Before(start) {
            if i + 1 < cntInfos {
              assert info[i + 1] == was[i + 1];
              if info[i + 1].kind != kind {
                info[i] := info[i].(end := end);
                assert info[..cntInfos] == was[i := was[i].(end := end)];
                return 2;
              } else if Before(info[i + 1].start) == end {
                info[i] := info[i].(end := info[i + 1].end);
                assert info[..cntInfos] == was[i := was[i].(end := was[i + 1].end)];
                RemoveInfo(i + 1);
                return 7;
              }
            } else {
              info[i] := info[i].(end := end);
              assert info[..cntInfos] == was[i := was[i].(end := end)];
              return 6;
            }
          }
          if Before(info[i].start) == end {
            info[i] := info[i].(start := start);
            assert info[..cntInfos] == was[i := was[i].(start := start)];
            return 4;
          }
        }
        i := i + 1;
      }
      if cntInfos >= MAX_INFO {
        return 0;
      }
      info[cntInfos] := Info(start, end, kind);
      cntInfos := cntInfos + 1;
      assert info[..cntInfos] == was + [Info(start, end, kind)];
      code := 1;
    }

    /** find_pages with one-page alignment: the first page of the run found and marked, if any. Asked for
        no page, it finds the first free one and marks nothing. */
    method FindPages(pageCnt: nat, sPfn: nat, ePfn: nat) returns (r: Option<nat>)
      requires Valid() && ePfn <= maxPfn
      modifies this`lastAllocEnd, sMap
      ensures Shape() && r == FirstRun(old(sMap[..]), if pageCnt == 0 then 1 else pageCnt, sPfn, ePfn)
      ensures r.Some? ==>
                && r.value > 0 && lastAllocEnd == r.value + pageCnt - 1
                && sMap[..] == Fill(old(sMap[..]), r.value, pageCnt, PAGE_USED)
      ensures r.None? ==> sMap[..] == old(sMap[..]) && lastAllocEnd == old(lastAllocEnd)
    {
      hide Fill, FirstRun, Agree;
      ghost var was := sMap[..];
      ghost var len := if pageCnt == 0 then 1 else pageCnt;
      var index := sPfn;
      while index < ePfn
        invariant sPfn <= index && Shape() && MapOk(State()) && sMap[..] == was && lastAllocEnd == old(lastAllocEnd)
        invariant FirstRun(was, len, index, ePfn) == FirstRun(was, len, sPfn, ePfn)
        decreases ePfn - index
      {
        if sMap[index] == PAGE_USED {
          SkipRun(was, len, index, index, ePfn);
          index := index + 1;
          continue;
        }
        var cnt, tmp := pageCnt, index;
        while cnt > 0
          invariant cnt + tmp == pageCnt + index && index <= tmp <= ePfn && cnt >= 0
          invariant forall j :: index <= j < tmp ==> was[j] == PAGE_FREE
          decreases cnt
        {
          if tmp >= ePfn {
            NoRoom(was, len, index, ePfn);
            return None;
          }
          if sMap[tmp] == PAGE_FREE {
            tmp := tmp + 1;
            cnt := cnt - 1;
          }
          if sMap[tmp] == PAGE_USED {
            break;
          }
        }
        if cnt == 0 {
          RunFound(was, len, index, ePfn);
          lastAllocEnd := tmp - 1;
          SetMaps(index, pageCnt, PAGE_USED);
          return Some(index);
        } else {
          if tmp < ePfn { SkipRun(was, len, index, tmp, ePfn); } else { NoRoom(was, len, index, ePfn); }
          index := tmp + 1;
        }
      }
      NoRoom(was, len, index, ePfn);
      r := None;
    }

    /** bootmm_alloc_pages with one-page alignment; code is what insert_mminfo returned. */
    method AllocPages(size: nat, kind: nat) returns (r: Option<nat>, ghost code: nat)
      requires Valid() && size < WORD
      modifies this`lastAllocEnd, this`cntInfos, sMap, info
      ensures Shape() && (State(), r, code) == Alloc(old(State()), size, kind)
      ensures 0 < size <= 0xFFFF_F000 ==>
                if r.Some? then Reserved(old(State()), State(), r.value, size) && Lowest(old(State()), r.value, size)
                else !RunFor(old(State()), size)
    {
      hide FirstRun, Fill, InsertFrom, Reserved, RunFor, Lowest;
      if Proper(size) { AllocReserves(State(), size, kind); }
      var rounded := RoundUp(size);
      var sizeInPages := rounded / PAGE_SIZE;
      code := 0;
      r := FindPages(sizeInPages, lastAllocEnd + 1, maxPfn);
      if r.None? {
        r := FindPages(sizeInPages, 0, lastAllocEnd);
      }
      if r.Some? {
        var res := r.value * PAGE_SIZE;
        var c := InsertInfo(res, res + rounded - 1, kind);
        code := c;
      }
    }
  }

  /** (size + 4095) & ~4095 on 32 bits */
  method RoundUp(size: nat) returns (r: nat)
    requires size < WORD
    ensures r == Pages(size) * PAGE_SIZE
  {
    hide And;
    var s := (size + PAGE_SIZE - 1) % WORD;
    Pow2Values();
    AndHighMask(s, 12, 32);
    r := And(s, WORD - PAGE_SIZE);
  }

  /** No run of k pages starts between from and a page that is not free, if a run from from
      would reach that page. */
  lemma {:induction false} SkipRun(m: seq<nat>, k: nat, from: nat, used: nat, upto: nat)
    requires from <= used < upto <= |m| && used < from + k && m[used] != PAGE_FREE
    ensures FirstRun(m, k, from, upto) == FirstRun(m, k, used + 1, upto)
    decreases used - from
  {
    assert !RunAt(m, from, k);
    if from < used {
      SkipRun(m, k, from + 1, used, upto);
    }
  }

  lemma RunFound(m: seq<nat>, k: nat, from: nat, upto: nat)
    requires RunAt(m, from, k) && from + k <= upto
    ensures FirstRun(m, k, from, upto) == Some(from)
  {
  }

  lemma NoRoom(m: seq<nat>, k: nat, from: nat, upto: nat)
    requires from + k > upto
    ensures FirstRun(m, k, from, upto) == None
    ensures forall later: nat :: later >= from ==> FirstRun(m, k, later, upto) == None
  {
  }
}
