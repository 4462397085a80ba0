/** The boot page allocator of kernel/mm/bootmm.c on values: the search of the page bitmap, the
    merging segment table, and their agreement. Alignment is one page. */
module BootSpec {
  import opened Bits
  import opened Options

  const PAGE_FREE: nat := 0x00
  const PAGE_USED: nat := 0xff
  const PAGE_SIZE: nat := 4096
  const MAX_INFO: nat := 10

  // ----- runs of free pages -----

  predicate RunAt(m: seq<nat>, i: nat, k: nat)
  {
    i + k <= |m| && forall j :: i <= j < i + k ==> m[j] == PAGE_FREE
  }

  /** The lowest run of k free pages inside from..upto. */
  function FirstRun(m: seq<nat>, k: nat, from: nat, upto: nat): (r: Option<nat>)
    ensures r.Some? ==> from <= r.value && r.value + k <= upto && RunAt(m, r.value, k)
    ensures forall i :: from <= i && i + k <= upto && (r.Some? ==> i < r.value) ==> !RunAt(m, i, k)
    decreases upto + 1 - from
  {
    if from + k > upto then None
    else if RunAt(m, from, k) then Some(from)
    else FirstRun(m, k, from + 1, upto)
  }

  function Fill(m: seq<nat>, i: nat, k: nat, v: nat): (r: seq<nat>)
    requires i + k <= |m|
    ensures |r| == |m| && forall j :: 0 <= j < |m| ==> r[j] == if i <= j < i + k then v else m[j]
    decreases k
  {
    if k == 0 then m else Fill(m[i := v], i + 1, k - 1, v)
  }

  // ----- the segment table -----

  /** struct bootmm_info: addresses start..end, both included. */
  datatype Info = Info(start: nat, end: nat, kind: nat)

  /** x - 1 on unsigned words */
  function Before(x: nat): nat
  {
    (x + WORD - 1) % WORD
  }

  /** remove_mminfo */
  function RemoveAt(infos: seq<Info>, i: nat): seq<Info>
  {
    if i >= |infos| then infos else infos[..i] + infos[i + 1..]
  }

  /** insert_mminfo from index i on: the table and the return code. */
  function InsertFrom(infos: seq<Info>, i: nat, start: nat, end: nat, kind: nat): (r: (seq<Info>, nat))
    decreases |infos| - i
  {
    if i >= |infos| then
      if |infos| >= MAX_INFO then (infos, 0) else (infos + [Info(start, end, kind)], 1)
    else
      var s := infos[i];
      if s.kind != kind then InsertFrom(infos, i + 1, start, end, kind)
      else if s.end == Before(start) && i + 1 == |infos| then (infos[i := s.(end := end)], 6)
      else if s.end == Before(start) && infos[i + 1].kind != kind then (infos[i := s.(end := end)], 2)
      else if s.end == Before(start) && Before(infos[i + 1].start) == end then
        (RemoveAt(infos[i := s.(end := infos[i + 1].end)], i + 1), 7)
      else if Before(s.start) == end then (infos[i := s.(start := start)], 4)
      else InsertFrom(infos, i + 1, start, end, kind)
  }

  function Insert(infos: seq<Info>, start: nat, end: nat, kind: nat): (seq<Info>, nat)
  {
    InsertFrom(infos, 0, start, end, kind)
  }

  /** Segment i takes the interval in: the interval follows it, and fits the gap to the next segment
      if that is of its kind, or precedes it. */
  predicate Joins(infos: seq<Info>, i: int, start: nat, end: nat, kind: nat)
    requires 0 <= i < |infos|
  {
    infos[i].kind == kind &&
    (Before(infos[i].start) == end ||
     (infos[i].end == Before(start)
      && (i + 1 == |infos| || infos[i + 1].kind != kind || Before(infos[i + 1].start) == end)))
  }

  /** The table has a free entry, or some segment takes the interval in. */
  predicate Insertable(infos: seq<Info>, start: nat, end: nat, kind: nat)
  {
    |infos| < MAX_INFO || exists i :: 0 <= i < |infos| && Joins(infos, i, start, end, kind)
  }

  /** insert_mminfo returns 0, and changes nothing, exactly when the table is full and no segment
      takes the interval in; with a free entry and no such segment it appends. */
  lemma {:induction false} InsertCode(infos: seq<Info>, i: nat, start: nat, end: nat, kind: nat)
    requires i <= |infos|
    ensures var (r, code) := InsertFrom(infos, i, start, end, kind);
      var none := forall j :: i <= j < |infos| ==> !Joins(infos, j, start, end, kind);
      && (code == 0 <==> |infos| >= MAX_INFO && none) && (code == 0 ==> r == infos)
      && (|infos| < MAX_INFO && none ==> r == infos + [Info(start, end, kind)] && code == 1)
    decreases |infos| - i
  {
    if i < |infos| && !Joins(infos, i, start, end, kind) {
      InsertCode(infos, i + 1, start, end, kind);
    }
  }

  /** What the code of a merge says about segment j: 2 or 6, it grew at its end, with another kind or
      nothing behind it; 4, it grew at its start; 7, it and the next one became one. */
  ghost predicate MergedAt(infos: seq<Info>, r: seq<Info>, code: nat, j: nat, start: nat, end: nat, kind: nat)
  {
    j < |infos| && infos[j].kind == kind &&
    match code
    case 2 => j + 1 < |infos| && infos[j + 1].kind != kind && r == infos[j := infos[j].(end := end)]
    case 4 => r == infos[j := infos[j].(start := start)]
    case 6 => j + 1 == |infos| && r == infos[j := infos[j].(end := end)]
    case 7 => j + 1 < |infos| && infos[j + 1].kind == kind
      && r == infos[..j] + [Info(infos[j].start, infos[j + 1].end, kind)] + infos[j + 2..]
    case _ => false
  }

  lemma {:induction false} InsertMerges(infos: seq<Info>, i: nat, start: nat, end: nat, kind: nat)
    requires i <= |infos|
    ensures var (r, code) := InsertFrom(infos, i, start, end, kind);
      code > 1 ==> exists j: nat :: MergedAt(infos, r, code, j, start, end, kind)
    decreases |infos| - i
  {
    hide Before;
    if i < |infos| {
      var (r, code) := InsertFrom(infos, i, start, end, kind);
      if code > 1 && !MergedAt(infos, r, code, i, start, end, kind) {
        InsertMerges(infos, i + 1, start, end, kind);
      }
    }
  }

  lemma InsertFailsIff(infos: seq<Info>, start: nat, end: nat, kind: nat)
    ensures Insert(infos, start, end, kind).1 == 0 <==> !Insertable(infos, start, end, kind)
  {
    InsertCode(infos, 0, start, end, kind);
  }

  ghost predicate Holds(s: Info, a: int)
  {
    s.start <= a <= s.end
  }

  /** Address a lies in some segment of the given kind. */
  ghost predicate Covers(infos: seq<Info>, kind: nat, a: int)
  {
    exists i :: 0 <= i < |infos| && infos[i].kind == kind && Holds(infos[i], a)
  }

  /** Segments are whole pages below the limit, and no two share an address. */
  ghost predicate Segments(infos: seq<Info>, limit: nat)
  {
    && (forall i :: 0 <= i < |infos| ==>
          infos[i].start <= infos[i].end < limit
          && infos[i].start % PAGE_SIZE == 0 && (infos[i].end + 1) % PAGE_SIZE == 0)
    && (forall i, j :: 0 <= i < j < |infos| ==> Apart(infos[i], infos[j]))
  }

  ghost predicate Apart(s: Info, t: Info)
  {
    s.end < t.start || t.end < s.start
  }

  lemma CoversAfterChange(infos: seq<Info>, i: nat, s: Info, kind: nat, a: int)
    requires i < |infos|
    ensures Covers(infos[i := s], kind, a) <==>
              (s.kind == kind && Holds(s, a)) ||
              exists j :: 0 <= j < |infos| && j != i && infos[j].kind == kind && Holds(infos[j], a)
  {
    var t := infos[i := s];
    if s.kind == kind && Holds(s, a) { assert t[i] == s; }
    if j :| 0 <= j < |infos| && j != i && infos[j].kind == kind && Holds(infos[j], a) { assert t[j] == infos[j]; }
  }

  lemma CoversAfterRemove(infos: seq<Info>, i: nat, kind: nat, a: int)
    requires i < |infos|
    ensures Covers(RemoveAt(infos, i), kind, a) <==>
              exists j :: 0 <= j < |infos| && j != i && infos[j].kind == kind && Holds(infos[j], a)
  {
    var t := RemoveAt(infos, i);
    if j :| 0 <= j < |infos| && j != i && infos[j].kind == kind && Holds(infos[j], a) {
      assert t[if j < i then j else j - 1] == infos[j];
    }
    if Covers(t, kind, a) {
      var j :| 0 <= j < |t| && t[j].kind == kind && Holds(t[j], a);
      assert t[j] == infos[if j < i then j else j + 1];
    }
  }

  /** Case 7: the new interval closes the gap between two segments of its kind. */
  lemma MergeThree(infos: seq<Info>, i: nat, start: nat, end: nat, k: nat, a: int)
    requires i + 1 < |infos| && infos[i].kind == infos[i + 1].kind && infos[i].start <= infos[i].end
    requires infos[i].end + 1 == start <= end && infos[i + 1].start == end + 1 <= infos[i + 1].end
    ensures Covers(RemoveAt(infos[i := infos[i].(end := infos[i + 1].end)], i + 1), k, a) <==>
              Covers(infos, k, a) || (k == infos[i].kind && start <= a <= end)
  {
    var merged := infos[i].(end := infos[i + 1].end);
    var t := infos[i := merged];
    CoversAfterRemove(t, i + 1, k, a);
    assert Holds(merged, a) <==> Holds(infos[i], a) || start <= a <= end || Holds(infos[i + 1], a);
    if Covers(infos, k, a) {
      var j :| 0 <= j < |infos| && infos[j].kind == k && Holds(infos[j], a);
      assert t[if j == i + 1 then i else j] == if j == i || j == i + 1 then merged else infos[j];
    }
    if k == infos[i].kind && start <= a <= end { assert t[i] == merged; }
    if j :| 0 <= j < |t| && j != i + 1 && t[j].kind == k && Holds(t[j], a) {
      assert t[j] == if j == i then merged else infos[j];
    }
  }

  /** Below the top address, e == x - 1 on unsigned words means that x follows e. */
  lemma Adjacent(e: nat, x: nat, limit: nat)
    requires e < limit < WORD && x < WORD
    ensures e == Before(x) <==> e + 1 == x
  {
  }

  /** Every merge of insert_mminfo (codes 2, 4, 6, 7) and the plain insertion (code 1) add exactly
      the new interval to the addresses covered for its kind; code 0 changes nothing. */
  lemma {:induction false} InsertCovers(infos: seq<Info>, i: nat, start: nat, end: nat, kind: nat, limit: nat,
          k: nat, a: int)
    requires Segments(infos, limit) && limit < WORD && start <= end < limit && i <= |infos|
    ensures var (r, code) := InsertFrom(infos, i, start, end, kind);
      if code == 0 then r == infos
      else Covers(r, k, a) <==> Covers(infos, k, a) || (k == kind && start <= a <= end)
    decreases |infos| - i
  {
    hide Before;
    var (r, code) := InsertFrom(infos, i, start, end, kind);
    if i == |infos| {
      if code == 1 { AppendCovers(infos, Info(start, end, kind), k, a); }
    } else {
      var s := infos[i];
      Adjacent(s.end, start, limit);
      Adjacent(end, s.start, limit);
      if i + 1 < |infos| { Adjacent(end, infos[i + 1].start, limit); }
      if s.kind == kind && s.end + 1 == start && (i + 1 == |infos| || infos[i + 1].kind != kind) {
        GrowCovers(infos, i, s.(end := end), start, end, k, a);
      } else if s.kind == kind && s.end + 1 == start && end + 1 == infos[i + 1].start {
        MergeThree(infos, i, start, end, k, a);
      } else if s.kind == kind && end + 1 == s.start {
        GrowCovers(infos, i, s.(start := start), start, end, k, a);
      } else {
        InsertCovers(infos, i + 1, start, end, kind, limit, k, a);
      }
    }
  }

  lemma AppendCovers(infos: seq<Info>, s: Info, k: nat, a: int)
    ensures Covers(infos + [s], k, a) <==> Covers(infos, k, a) || (k == s.kind && Holds(s, a))
  {
    var r := infos + [s];
    assert r[|infos|] == s && forall j :: 0 <= j < |infos| ==> r[j] == infos[j];
  }

  /** Cases 2, 4 and 6: a segment grows by the new interval. */
  lemma GrowCovers(infos: seq<Info>, i: nat, s: Info, start: nat, end: nat, k: nat, a: int)
    requires i < |infos| && s.kind == infos[i].kind
    requires Holds(s, a) <==> Holds(infos[i], a) || start <= a <= end
    ensures Covers(infos[i := s], k, a) <==> Covers(infos, k, a) || (k == s.kind && start <= a <= end)
  {
    CoversAfterChange(infos, i, s, k, a);
    assert infos[i := s][i] == s;
  }

  ghost predicate SegmentOk(s: Info, limit: nat)
  {
    s.start <= s.end < limit && s.start % PAGE_SIZE == 0 && (s.end + 1) % PAGE_SIZE == 0
  }

  /** The new interval shares no address with any segment. */
  ghost predicate Outside(infos: seq<Info>, s: Info)
  {
    forall i :: 0 <= i < |infos| ==> Apart(infos[i], s)
  }

  lemma ChangeKeepsSegments(infos: seq<Info>, i: nat, s: Info, limit: nat)
    requires Segments(infos, limit) && i < |infos| && SegmentOk(s, limit)
    requires forall j :: 0 <= j < |infos| && j != i ==> Apart(infos[j], s)
    ensures Segments(infos[i := s], limit)
  {
  }

  lemma RemoveKeepsSegments(infos: seq<Info>, i: nat, limit: nat)
    requires Segments(infos, limit) && i < |infos|
    ensures Segments(RemoveAt(infos, i), limit)
  {
    var t := RemoveAt(infos, i);
    assert forall j :: 0 <= j < |t| ==> t[j] == infos[if j < i then j else j + 1];
  }

  lemma JoinKeepsSegments(infos: seq<Info>, i: nat, limit: nat)
    requires Segments(infos, limit) && i + 1 < |infos|
    requires forall j :: 0 <= j < |infos| && j != i && j != i + 1 ==>
        Apart(infos[j], infos[i].(end := infos[i + 1].end))
    requires infos[i].end < infos[i + 1].start
    ensures Segments(RemoveAt(infos[i := infos[i].(end := infos[i + 1].end)], i + 1), limit)
  {
    var merged := infos[i].(end := infos[i + 1].end);
    var rest := RemoveAt(infos, i + 1);
    RemoveKeepsSegments(infos, i + 1, limit);
    assert RemoveAt(infos[i := merged], i + 1) == rest[i := merged];
    assert forall j :: 0 <= j < |rest| ==> rest[j] == infos[if j < i + 1 then j else j + 1];
    ChangeKeepsSegments(rest, i, merged, limit);
  }

  /** Inserting an interval of free pages keeps the segments disjoint, whichever case applies. */
  lemma {:induction false} InsertKeepsSegments(infos: seq<Info>, i: nat, start: nat, end: nat, kind: nat, limit: nat)
    requires Segments(infos, limit) && limit < WORD && i <= |infos|
    requires SegmentOk(Info(start, end, kind), limit) && Outside(infos, Info(start, end, kind))
    ensures Segments(InsertFrom(infos, i, start, end, kind).0, limit)
    decreases |infos| - i
  {
    if i < |infos| {
      hide Before;
      var s := infos[i];
      Adjacent(s.end, start, limit);
      Adjacent(end, s.start, limit);
      if i + 1 < |infos| { Adjacent(end, infos[i + 1].start, limit); }
      if s.kind == kind && s.end + 1 == start && (i + 1 == |infos| || infos[i + 1].kind != kind) {
        ChangeKeepsSegments(infos, i, s.(end := end), limit);
      } else if s.kind == kind && s.end + 1 == start && end + 1 == infos[i + 1].start {
        JoinKeepsSegments(infos, i, limit);
      } else if s.kind == kind && end + 1 == s.start {
        ChangeKeepsSegments(infos, i, s.(start := start), limit);
      } else {
        InsertKeepsSegments(infos, i + 1, start, end, kind, limit);
      }
    }
  }

  // ----- the allocator -----

  datatype Boot = Boot(map_: seq<nat>, maxPfn: nat, lastEnd: nat, infos: seq<Info>)

  /** The page bitmap: cells are FREE or USED, page 0 and page last_alloc_end are USED. */
  ghost predicate MapOk(b: Boot)
  {
    && b.lastEnd < b.maxPfn <= |b.map_| && b.maxPfn * PAGE_SIZE < WORD
    && (forall p :: 0 <= p < b.maxPfn ==> b.map_[p] == PAGE_FREE || b.map_[p] == PAGE_USED)
    && b.map_[0] == PAGE_USED && b.map_[b.lastEnd] == PAGE_USED
  }

  /** The segment that address a lies in, over all kinds. */
  ghost predicate CoveredOnce(infos: seq<Info>, a: int)
  {
    exists i :: 0 <= i < |infos| && Holds(infos[i], a) && forall j :: 0 <= j < |infos| && Holds(infos[j], a) ==> j == i
  }

  /** A page is USED exactly when its addresses lie in exactly one segment, and otherwise in none. */
  ghost predicate Agree(b: Boot)
    requires b.maxPfn <= |b.map_|
  {
    forall p, a :: 0 <= p < b.maxPfn && p * PAGE_SIZE <= a < (p + 1) * PAGE_SIZE ==>
      (b.map_[p] == PAGE_USED <==> CoveredOnce(b.infos, a))
  }

  ghost predicate BootInv(b: Boot)
  {
    MapOk(b) && Segments(b.infos, b.maxPfn * PAGE_SIZE) && Agree(b)
  }

  /** The two-phase search of bootmm_alloc_pages. */
  function Search(b: Boot, k: nat): (r: Option<nat>)
  {
    var r := FirstRun(b.map_, k, b.lastEnd + 1, b.maxPfn);
    if r.Some? then r else FirstRun(b.map_, k, 0, b.lastEnd)
  }

  /** The size rounded up to pages, on 32 bits: 0 for a size of 0, and where the rounding wraps. */
  function Pages(size: nat): (k: nat)
    ensures Proper(size) ==> k > 0
    ensures size < WORD && !Proper(size) ==> k == 0
  {
    (size + PAGE_SIZE - 1) % WORD / PAGE_SIZE
  }

  predicate Proper(size: nat)
  {
    0 < size && size + PAGE_SIZE <= WORD
  }

  /** bootmm_alloc_pages: the new state, the first page, and insert_mminfo's return code. A request of
      no pages is answered with the first free page, without marking it. */
  function Alloc(b: Boot, size: nat, kind: nat): (r: (Boot, Option<nat>, nat))
    requires b.lastEnd <= b.maxPfn <= |b.map_| && |b.map_| > 0 && b.map_[0] == PAGE_USED
  {
    var k := Pages(size);
    var r := Search(b, if k == 0 then 1 else k);
    if r.None? then (b, None, 0)
    else
      var i := r.value;
      var (infos, code) := Insert(b.infos, i * PAGE_SIZE, (i + k) * PAGE_SIZE - 1, kind);
      (Boot(Fill(b.map_, i, k, PAGE_USED), b.maxPfn, i + k - 1, infos), Some(i), code)
  }

  /** The segment table can take in the pages that the search is going to find. */
  predicate Room(b: Boot, size: nat, kind: nat)
    requires Proper(size)
  {
    var k := Pages(size);
    var r := Search(b, k);
    r.Some? ==> Insertable(b.infos, r.value * PAGE_SIZE, (r.value + k) * PAGE_SIZE - 1, kind)
  }

  /** The search is complete: it fails exactly when no run of k free pages exists anywhere. No run
      straddles the split of the two phases, because page last_alloc_end is USED. */
  lemma SearchFailsIff(b: Boot, k: nat)
    requires MapOk(b) && k > 0
    ensures Search(b, k).None? <==> !exists i :: 0 <= i && i + k <= b.maxPfn && RunAt(b.map_, i, k)
  {
    var r := Search(b, k);
    if r.None? {
      forall i | 0 <= i && i + k <= b.maxPfn ensures !RunAt(b.map_, i, k) {
        if i <= b.lastEnd < i + k { assert b.map_[b.lastEnd] != PAGE_FREE; }
      }
    } else {
      assert RunAt(b.map_, r.value, k);
    }
  }

  /** What is found is the lowest run of the phase that succeeds. */
  lemma SearchIsLowest(b: Boot, k: nat)
    requires MapOk(b) && k > 0 && Search(b, k).Some?
    ensures var i := Search(b, k).value;
      && RunAt(b.map_, i, k) && 0 < i && i + k <= b.maxPfn
      && (if i > b.lastEnd then forall j :: b.lastEnd < j < i ==> !RunAt(b.map_, j, k)
          else (forall j :: b.lastEnd < j && j + k <= b.maxPfn ==> !RunAt(b.map_, j, k))
               && forall j :: 0 <= j < i ==> !RunAt(b.map_, j, k))
  {
    assert !RunAt(b.map_, 0, k);
  }

  // ----- the bitmap and the segment table describe the same memory -----

  ghost predicate CoveredAny(infos: seq<Info>, a: int)
  {
    exists i :: 0 <= i < |infos| && Holds(infos[i], a)
  }

  lemma OnceIsAny(infos: seq<Info>, limit: nat, a: int)
    requires Segments(infos, limit)
    ensures CoveredOnce(infos, a) <==> CoveredAny(infos, a)
  {
    if i :| 0 <= i < |infos| && Holds(infos[i], a) {
      forall j | 0 <= j < |infos| && Holds(infos[j], a) ensures j == i {
        assert j < i ==> Apart(infos[j], infos[i]);
        assert i < j ==> Apart(infos[i], infos[j]);
      }
    }
  }

  lemma InsertCoversAny(infos: seq<Info>, start: nat, end: nat, kind: nat, limit: nat, a: int)
    requires Segments(infos, limit) && limit < WORD && start <= end < limit
    ensures var (r, code) := Insert(infos, start, end, kind);
      code != 0 ==> (CoveredAny(r, a) <==> CoveredAny(infos, a) || start <= a <= end)
  {
    hide InsertFrom;
    var (r, code) := Insert(infos, start, end, kind);
    forall k ensures code != 0 ==> (Covers(r, k, a) <==> Covers(infos, k, a) || (k == kind && start <= a <= end)) {
      InsertCovers(infos, 0, start, end, kind, limit, k, a);
    }
    if i :| 0 <= i < |r| && Holds(r[i], a) { assert Covers(r, r[i].kind, a); }
    if i :| 0 <= i < |infos| && Holds(infos[i], a) { assert Covers(infos, infos[i].kind, a); }
    if start <= a <= end && code != 0 { assert Covers(r, kind, a); }
  }

  /** A run of free pages touches no segment. */
  lemma RunOutside(b: Boot, i: nat, k: nat, kind: nat)
    requires BootInv(b) && RunAt(b.map_, i, k) && i + k <= b.maxPfn && k > 0
    ensures Outside(b.infos, Info(i * PAGE_SIZE, (i + k) * PAGE_SIZE - 1, kind))
  {
    var start, end := i * PAGE_SIZE, (i + k) * PAGE_SIZE - 1;
    forall a | start <= a <= end ensures !CoveredAny(b.infos, a) {
      var p := a / PAGE_SIZE;
      assert b.map_[p] == PAGE_FREE;
      OnceIsAny(b.infos, b.maxPfn * PAGE_SIZE, a);
    }
    forall j | 0 <= j < |b.infos| ensures Apart(b.infos[j], Info(start, end, kind)) {
      var a := if b.infos[j].start < start then start else b.infos[j].start;
      assert Holds(b.infos[j], a) ==> CoveredAny(b.infos, a);
    }
  }

  /** The pages from i to the new last_alloc_end were FREE and are USED now, and hold the size bytes
      requested with less than a page to spare; no other page has changed. */
  ghost predicate Reserved(b: Boot, r: Boot, i: nat, size: nat)
  {
    && i <= r.lastEnd < b.maxPfn <= |b.map_| == |r.map_|
    && size <= 4096 * (r.lastEnd + 1 - i) < size + 4096
    && (forall p :: 0 <= p < |b.map_| ==>
          if i <= p <= r.lastEnd then b.map_[p] == PAGE_FREE && r.map_[p] == PAGE_USED else r.map_[p] == b.map_[p])
    && (forall a :: 4096 * i <= a < 4096 * i + size ==>
          a / 4096 < |b.map_| && b.map_[a / 4096] == PAGE_FREE && r.map_[a / 4096] == PAGE_USED)
  }

  /** Some run of FREE pages holds size bytes. */
  ghost predicate RunFor(b: Boot, size: nat)
  {
    exists i: nat, n: nat :: size <= 4096 * n && i + n <= b.maxPfn && RunAt(b.map_, i, n)
  }

  /** The answer is the lowest run that holds size bytes behind last_alloc_end, or, if there is none
      behind it, the lowest of all. */
  ghost predicate Lowest(b: Boot, i: nat, size: nat)
  {
    forall j: nat, n: nat :: size <= 4096 * n && j + n <= b.maxPfn && RunAt(b.map_, j, n) ==>
      if i > b.lastEnd then j < b.lastEnd || i <= j else j < b.lastEnd && i <= j
  }

  lemma PagesHold(size: nat)
    requires Proper(size)
    ensures size <= 4096 * Pages(size) < size + 4096
  {
    assert (size + PAGE_SIZE - 1) % WORD == size + PAGE_SIZE - 1;
  }

  /** What a request reserves, and when it fails. */
  lemma AllocReserves(b: Boot, size: nat, kind: nat)
    requires MapOk(b) && Proper(size)
    ensures var (r, page, code) := Alloc(b, size, kind);
      if page.Some? then Reserved(b, r, page.value, size) && Lowest(b, page.value, size) else !RunFor(b, size)
  {
    hide Search, FirstRun, Fill, Pages, InsertFrom;
    var k := Pages(size);
    PagesHold(size);
    SearchFailsIff(b, k);
    if Search(b, k).Some? {
      SearchIsLowest(b, k);
      forall j: nat, n: nat | size <= 4096 * n && j + n <= b.maxPfn && RunAt(b.map_, j, n)
        ensures RunAt(b.map_, j, k) && j != b.lastEnd
      {
      }
    } else {
      forall i: nat, n: nat | size <= 4096 * n && i + n <= b.maxPfn ensures !RunAt(b.map_, i, n) {
        assert RunAt(b.map_, i, n) ==> RunAt(b.map_, i, k);
      }
    }
  }

  lemma ReservedRun(b: Boot, r: Boot, i: nat, size: nat)
    requires Reserved(b, r, i, size)
    ensures RunFor(b, size)
  {
    var n := r.lastEnd + 1 - i;
    assert RunAt(b.map_, i, n);
  }

  /** One allocation. When it fails nothing changes, and no run of FREE pages holds as many bytes. When
      it succeeds such pages are reserved, the bitmap and the segments stay well formed, and they still
      agree exactly when the segment table had room beforehand, which is when insert_mminfo does not
      return 0. */
  lemma AllocKeeps(b: Boot, size: nat, kind: nat)
    requires BootInv(b) && Proper(size)
    ensures var (r, page, code) := Alloc(b, size, kind);
      if page.Some? then Reserved(b, r, page.value, size) && Lowest(b, page.value, size)
      else r == b && !RunFor(b, size)
    ensures var (r, page, code) := Alloc(b, size, kind);
      && MapOk(r) && r.maxPfn == b.maxPfn && Segments(r.infos, r.maxPfn * PAGE_SIZE)
      && (page.Some? ==> (Agree(r) <==> Room(b, size, kind)) && (code != 0 <==> Room(b, size, kind)))
  {
    hide Search, InsertFrom, FirstRun, Fill, Agree, Insertable, Pages, Reserved, RunFor, Lowest;
    AllocReserves(b, size, kind);
    var k := Pages(size);
    var found := Search(b, k);
    if found.Some? {
      SearchIsLowest(b, k);
      var i := found.value;
      RunOutside(b, i, k, kind);
      var start, end, limit := i * PAGE_SIZE, (i + k) * PAGE_SIZE - 1, b.maxPfn * PAGE_SIZE;
      InsertKeepsSegments(b.infos, 0, start, end, kind, limit);
      var (r, page, code) := Alloc(b, size, kind);
      AgreeAfter(b, r, i, k, kind);
      InsertFailsIff(b.infos, start, end, kind);
    }
  }

  /** The segment table records the pages reserved, and nothing else, for the kind requested; without
      room it stays as it was. */
  lemma AllocCovers(b: Boot, size: nat, kind: nat, k: nat, a: int)
    requires BootInv(b) && Proper(size) && Alloc(b, size, kind).1.Some?
    ensures var (r, page, code) := Alloc(b, size, kind);
      if Room(b, size, kind) then
        Covers(r.infos, k, a) <==>
        Covers(b.infos, k, a) || (k == kind && 4096 * page.value <= a < 4096 * (r.lastEnd + 1))
      else r.infos == b.infos
  {
    hide Search, InsertFrom, FirstRun, Fill, Agree, Insertable, Pages, Covers;
    var n, i := Pages(size), Search(b, Pages(size)).value;
    SearchIsLowest(b, n);
    InsertCovers(b.infos, 0, i * PAGE_SIZE, (i + n) * PAGE_SIZE - 1, kind, b.maxPfn * PAGE_SIZE, k, a);
    InsertFailsIff(b.infos, i * PAGE_SIZE, (i + n) * PAGE_SIZE - 1, kind);
  }

  lemma AgreeAfter(b: Boot, r: Boot, i: nat, k: nat, kind: nat)
    requires BootInv(b) && k > 0 && RunAt(b.map_, i, k) && i + k <= b.maxPfn == r.maxPfn
    requires r.map_ == Fill(b.map_, i, k, PAGE_USED) && Segments(r.infos, b.maxPfn * PAGE_SIZE)
    requires r.infos == Insert(b.infos, i * PAGE_SIZE, (i + k) * PAGE_SIZE - 1, kind).0
    ensures Agree(r) <==> Insert(b.infos, i * PAGE_SIZE, (i + k) * PAGE_SIZE - 1, kind).1 != 0
  {
    hide InsertFrom, Fill;
    var start, end, limit := i * PAGE_SIZE, (i + k) * PAGE_SIZE - 1, b.maxPfn * PAGE_SIZE;
    if Insert(b.infos, start, end, kind).1 != 0 {
      forall p, a | 0 <= p < b.maxPfn && p * PAGE_SIZE <= a < (p + 1) * PAGE_SIZE
        ensures r.map_[p] == PAGE_USED <==> CoveredOnce(r.infos, a)
      {
        OnceIsAny(r.infos, limit, a);
        OnceIsAny(b.infos, limit, a);
        InsertCoversAny(b.infos, start, end, kind, limit, a);
      }
    } else {
      InsertCovers(b.infos, 0, start, end, kind, limit, kind, start);
      OnceIsAny(b.infos, limit, start);
      assert b.map_[i] == PAGE_FREE && r.map_[i] == PAGE_USED;
      assert !CoveredOnce(r.infos, start);
    }
  }

  // ----- requests of no pages -----

  /** The empty interval before a free page: some segment of its kind ends there already, or an empty
      segment is appended, or the table is full. */
  lemma {:induction false} InsertEmpty(infos: seq<Info>, j: nat, start: nat, kind: nat, limit: nat)
    requires Segments(infos, limit) && limit < WORD && 0 < start < limit && j <= |infos|
    requires !CoveredAny(infos, start)
    ensures var t := InsertFrom(infos, j, start, start - 1, kind).0;
      t == infos || t == infos + [Info(start, start - 1, kind)]
    decreases |infos| - j
  {
    if j < |infos| {
      hide Before;
      var s := infos[j];
      assert !Holds(s, start) && (j + 1 < |infos| ==> !Holds(infos[j + 1], start));
      Adjacent(s.end, start, limit);
      Adjacent(start - 1, s.start, limit);
      if j + 1 < |infos| { Adjacent(start - 1, infos[j + 1].start, limit); }
      assert infos[j := s.(end := s.end)] == infos;
      InsertEmpty(infos, j + 1, start, kind, limit);
    }
  }

  /** The pages of the answer are USED afterwards exactly when the size is not 0 and its rounding does
      not wrap. Otherwise bitmap and coverage stay as they were, and the next request of one page, of
      whatever kind, is answered with the same page. */
  lemma ReservedIff(b: Boot, size: nat, kind: nat, next: nat)
    requires BootInv(b) && size < WORD && Alloc(b, size, kind).1.Some?
    ensures var (r, page, code) := Alloc(b, size, kind);
      && MapOk(r) && page.value < b.maxPfn && b.map_[page.value] == PAGE_FREE
      && (r.map_[page.value] == PAGE_USED <==> 0 < size <= 0xFFFF_F000)
      && (!Proper(size) ==> r.map_ == b.map_ && (forall a :: CoveredOnce(r.infos, a) <==> CoveredOnce(b.infos, a))
                            && Agree(r) && Alloc(r, PAGE_SIZE, next).1 == page)
  {
    if Proper(size) {
      AllocKeeps(b, size, kind);
      SearchIsLowest(b, Pages(size));
    } else {
      UnreservedAnswer(b, size, kind);
      SameAnswer(b, size, kind, next);
    }
  }

  lemma UnreservedAnswer(b: Boot, size: nat, kind: nat)
    requires BootInv(b) && size < WORD && !Proper(size) && Alloc(b, size, kind).1.Some?
    ensures var (r, page, code) := Alloc(b, size, kind);
      && MapOk(r) && r.map_ == b.map_ && Agree(r) && page == Search(b, 1) && r.lastEnd == page.value - 1
      && page.value < b.maxPfn && b.map_[page.value] == PAGE_FREE
      && forall a :: CoveredOnce(r.infos, a) <==> CoveredOnce(b.infos, a)
  {
    var i := Search(b, 1).value;
    SearchIsLowest(b, 1);
    LowestAfterUsed(b, i);
    OnceIsAny(b.infos, b.maxPfn * PAGE_SIZE, i * PAGE_SIZE);
    InsertEmpty(b.infos, 0, i * PAGE_SIZE, kind, b.maxPfn * PAGE_SIZE);
    hide InsertFrom, FirstRun, Segments, Search;
    EmptyCovers(b.infos, Info(i * PAGE_SIZE, i * PAGE_SIZE - 1, kind));
  }

  /** The page before the lowest free page is USED. */
  lemma LowestAfterUsed(b: Boot, i: nat)
    requires MapOk(b) && Search(b, 1) == Some(i)
    ensures 0 < i < b.maxPfn && b.map_[i] == PAGE_FREE && b.map_[i - 1] == PAGE_USED
  {
    SearchIsLowest(b, 1);
    assert RunAt(b.map_, i, 1) && (i - 1 != b.lastEnd && i != 0 ==> !RunAt(b.map_, i - 1, 1));
  }

  lemma EmptyCovers(infos: seq<Info>, s: Info)
    requires s.end < s.start
    ensures forall a :: CoveredOnce(infos + [s], a) <==> CoveredOnce(infos, a)
  {
    forall a ensures CoveredOnce(infos + [s], a) <==> CoveredOnce(infos, a) {
      if i: int :| OnlyAt(infos, i, a) { assert OnlyAt(infos + [s], i, a); }
      if i: int :| OnlyAt(infos + [s], i, a) { OnlyBefore(infos, s, i, a); }
      OnceIsOnly(infos, a);
      OnceIsOnly(infos + [s], a);
    }
  }

  ghost predicate OnlyAt(infos: seq<Info>, i: int, a: int)
  {
    0 <= i < |infos| && Holds(infos[i], a) && forall j :: 0 <= j < |infos| && Holds(infos[j], a) ==> j == i
  }

  lemma OnceIsOnly(infos: seq<Info>, a: int)
    ensures CoveredOnce(infos, a) <==> exists i: int :: OnlyAt(infos, i, a)
  {
    if i :| 0 <= i < |infos| && Holds(infos[i], a) && forall j :: 0 <= j < |infos| && Holds(infos[j], a) ==> j == i {
      assert OnlyAt(infos, i, a);
    }
  }

  lemma OnlyBefore(infos: seq<Info>, s: Info, i: int, a: int)
    requires s.end < s.start && OnlyAt(infos + [s], i, a)
    ensures OnlyAt(infos, i, a)
  {
    var t := infos + [s];
    assert i < |infos| && t[i] == infos[i];
    forall j | 0 <= j < |infos| && Holds(infos[j], a) ensures j == i { assert Holds(t[j], a); }
  }

  lemma SameAnswer(b: Boot, size: nat, kind: nat, next: nat)
    requires BootInv(b) && size < WORD && !Proper(size) && Alloc(b, size, kind).1.Some?
    ensures MapOk(Alloc(b, size, kind).0) && Alloc(Alloc(b, size, kind).0, PAGE_SIZE, next).1 == Alloc(b, size, kind).1
  {
    UnreservedAnswer(b, size, kind);
    var r, i := Alloc(b, size, kind).0, Search(b, 1).value;
    SearchAgain(r, i);
    hide Search, Insert, Agree, Segments, CoveredOnce;
    assert Pages(PAGE_SIZE) == 1;
  }

  lemma SearchAgain(r: Boot, i: nat)
    requires MapOk(r) && i < r.maxPfn && r.map_[i] == PAGE_FREE && r.lastEnd == i - 1
    ensures Search(r, 1) == Some(i)
  {
    assert RunAt(r.map_, i, 1);
  }

  // ----- initialisation and runs -----

  const KERNEL_PAGES: nat := 4096 // 16 MB
  const MAX_PFN: nat := 32768     // 128 MB
  const MM_KERNEL: nat := 0

  /** init_bootmm */
  function InitBoot(): Boot
  {
    Boot(seq(MAX_PFN + 1, p => if p < KERNEL_PAGES then PAGE_USED else PAGE_FREE), MAX_PFN, KERNEL_PAGES - 1,
         [Info(0, KERNEL_PAGES * PAGE_SIZE - 1, MM_KERNEL)])
  }

  lemma InitOk()
    ensures BootInv(InitBoot())
  {
    var b := InitBoot();
    forall p, a | 0 <= p < b.maxPfn && p * PAGE_SIZE <= a < (p + 1) * PAGE_SIZE
      ensures b.map_[p] == PAGE_USED <==> CoveredOnce(b.infos, a)
    {
      assert Holds(b.infos[0], a) <==> p < KERNEL_PAGES;
    }
  }

  datatype Request = Request(size: nat, kind: nat)

  /** t is reached from b by the requests, each made while the segment table has room for it. */
  ghost predicate Reaches(b: Boot, requests: seq<Request>, t: Boot)
    requires BootInv(b)
    decreases |requests|
  {
    if requests == [] then b == t
    else
      var q := requests[0];
      Proper(q.size) &&
      var (r, page, code) := Alloc(b, q.size, q.kind);
      Room(b, q.size, q.kind) && (AllocKeeps(b, q.size, q.kind); Reaches(r, requests[1..], t))
  }

  /** Over every such run from init_bootmm, a page is USED exactly when one segment covers it, and
      the next request fails exactly when no free run is long enough. */
  lemma {:induction false} EveryBootRun(b: Boot, requests: seq<Request>, t: Boot)
    requires BootInv(b) && Reaches(b, requests, t)
    ensures BootInv(t)
    ensures forall size: nat, kind: nat :: Proper(size) ==>
              (Alloc(t, size, kind).1.None? <==> !RunFor(t, size))
    decreases |requests|
  {
    if requests == [] {
      forall size: nat, kind: nat | Proper(size)
        ensures Alloc(t, size, kind).1.None? <==> !RunFor(t, size)
      {
        AllocReserves(t, size, kind);
        if Alloc(t, size, kind).1.Some? { ReservedRun(t, Alloc(t, size, kind).0, Alloc(t, size, kind).1.value, size); }
      }
    } else {
      AllocKeeps(b, requests[0].size, requests[0].kind);
      EveryBootRun(Alloc(b, requests[0].size, requests[0].kind).0, requests[1..], t);
    }
  }

  // ----- a run that fills the segment table -----

  function AlternateKind(i: nat): nat
  {
    if i % 2 == 0 then 1 else MM_KERNEL
  }

  /** The state after k one-page requests of alternating kinds: one segment for each. */
  function Filled(k: nat): Boot
    requires k < MAX_INFO
  {
    Boot(seq(MAX_PFN + 1, p => if p < KERNEL_PAGES + k then PAGE_USED else PAGE_FREE), MAX_PFN, KERNEL_PAGES + k - 1,
         InitBoot().infos + seq(k, i requires 0 <= i < k => PageInfo(i)))
  }

  function PageInfo(i: nat): Info
  {
    Info((KERNEL_PAGES + i) * PAGE_SIZE, (KERNEL_PAGES + i + 1) * PAGE_SIZE - 1, AlternateKind(i))
  }

  /** Neighbouring segments differ in kind, so none takes the next page in. */
  lemma FilledJoinsNone(k: nat)
    requires k < MAX_INFO
    ensures var q := PageInfo(k); forall j :: 0 <= j < |Filled(k).infos| ==>
        !Joins(Filled(k).infos, j, q.start, q.end, q.kind)
  {
    var q, infos := PageInfo(k), Filled(k).infos;
    forall j | 0 <= j < |infos| ensures !Joins(infos, j, q.start, q.end, q.kind) {
      assert infos[j] == if j == 0 then InitBoot().infos[0] else PageInfo(j - 1);
      assert j == k ==> infos[j].kind != q.kind;
    }
  }

  lemma FilledNext(k: nat)
    requires k < MAX_INFO
    ensures Search(Filled(k), 1) == Some(KERNEL_PAGES + k)
    ensures Insert(Filled(k).infos, PageInfo(k).start, PageInfo(k).end, PageInfo(k).kind) ==
            if k < MAX_INFO - 1 then (Filled(k).infos + [PageInfo(k)], 1) else (Filled(k).infos, 0)
    ensures Room(Filled(k), PAGE_SIZE, AlternateKind(k)) <==> k < MAX_INFO - 1
  {
    var b := Filled(k);
    assert RunAt(b.map_, KERNEL_PAGES + k, 1);
    FilledJoinsNone(k);
    InsertCode(b.infos, 0, PageInfo(k).start, PageInfo(k).end, PageInfo(k).kind);
    hide InsertFrom, FirstRun, Joins;
    assert Pages(PAGE_SIZE) == 1;
  }

  lemma FilledStep(k: nat)
    requires k < MAX_INFO - 1
    ensures var (r, page, code) := Alloc(Filled(k), PAGE_SIZE, AlternateKind(k));
      r == Filled(k + 1) && page == Some(KERNEL_PAGES + k) && code == 1
  {
    var b, i := Filled(k), KERNEL_PAGES + k;
    FilledNext(k);
    hide InsertFrom, FirstRun, Search;
    assert Pages(PAGE_SIZE) == 1;
    assert Fill(b.map_, i, 1, PAGE_USED) == Filled(k + 1).map_;
    assert b.infos + [PageInfo(k)] == Filled(k + 1).infos;
  }

  function Alternating(k: nat): seq<Request>
    requires k < MAX_INFO
    decreases MAX_INFO - k
  {
    if k == MAX_INFO - 1 then [] else [Request(PAGE_SIZE, AlternateKind(k))] + Alternating(k + 1)
  }

  lemma {:induction false} FilledReaches(k: nat)
    requires k < MAX_INFO && BootInv(Filled(k))
    ensures Reaches(Filled(k), Alternating(k), Filled(MAX_INFO - 1))
    decreases MAX_INFO - k
  {
    if k < MAX_INFO - 1 {
      FilledStep(k);
      FilledNext(k);
      AllocKeeps(Filled(k), PAGE_SIZE, AlternateKind(k));
      FilledReaches(k + 1);
      hide Alloc, Room;
      assert Alternating(k)[0] == Request(PAGE_SIZE, AlternateKind(k)) && Alternating(k)[1..] == Alternating(k + 1);
    }
  }

  /** From init_bootmm, nine requests of one page each, of alternating kinds, fill the table; the
      tenth gets its page, insert_mminfo returns 0, and the page is USED in no segment. */
  lemma TenthRequestLost()
    ensures BootInv(InitBoot()) && Reaches(InitBoot(), Alternating(0), Filled(MAX_INFO - 1))
    ensures var (r, page, code) := Alloc(Filled(MAX_INFO - 1), PAGE_SIZE, AlternateKind(MAX_INFO - 1));
      page == Some(KERNEL_PAGES + MAX_INFO - 1) && code == 0 && r.maxPfn <= |r.map_| && !Agree(r)
  {
    InitOk();
    assert Filled(0) == InitBoot();
    hide Alloc, Agree, Segments, MapOk;
    FilledReaches(0);
    EveryBootRun(InitBoot(), Alternating(0), Filled(MAX_INFO - 1));
    TenthAnswer();
  }

  lemma TenthAnswer()
    requires BootInv(Filled(MAX_INFO - 1))
    ensures var (r, page, code) := Alloc(Filled(MAX_INFO - 1), PAGE_SIZE, AlternateKind(MAX_INFO - 1));
      page == Some(KERNEL_PAGES + MAX_INFO - 1) && code == 0 && r.maxPfn <= |r.map_| && !Agree(r)
  {
    FilledNext(MAX_INFO - 1);
    AllocKeeps(Filled(MAX_INFO - 1), PAGE_SIZE, AlternateKind(MAX_INFO - 1));
    hide Search, InsertFrom, Segments, Agree, Room, Filled;
    assert Pages(PAGE_SIZE) == 1;
  }
}
