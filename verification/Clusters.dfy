/** Cluster chains in a flat FAT: releasing a chain (kernel/fs/fat/usr.c) and allocating a
    cluster (kernel/fs/fat/fat.c). The hint is that of the Microsoft FAT32 File System
    Specification 1.03, section "FAT32 FSInfo Sector Structure". */
module Clusters {
  import opened Bits
  import opened FatEntries
  import opened Options

  const NOT_FOUND: nat := 0xFFFF_FFFF

  /** Changing the low 28 bits of one entry. */
  function Set(t: seq<nat>, c: nat, v: nat): seq<nat>
    requires c < |t|
  {
    t[c := NewEntry(t[c], v)]
  }

  function Succ(t: seq<nat>, c: nat): nat
    requires c < |t|
  {
    Low28(t[c])
  }

  predicate Free(t: seq<nat>, c: nat)
  {
    c < |t| && Succ(t, c) == 0
  }

  /** The guard of the release loop; it admits cluster 1. */
  predicate InChain(c: nat, total: nat)
  {
    c != 0 && c <= total + 1
  }

  ghost function Used(t: seq<nat>, total: nat): set<nat>
    requires total + 2 <= |t|
  {
    set d: nat | d < total + 2 && InChain(d, total) && Succ(t, d) != 0
  }

  // ----- releasing a chain -----

  lemma SetUsed(t: seq<nat>, total: nat, c: nat, v: nat)
    requires total + 2 <= |t| && InChain(c, total)
    ensures Used(Set(t, c, v), total) == if Low28(v) == 0 then Used(t, total) - {c} else Used(t, total) + {c}
  {
    NewEntryLow(t[c], v);
  }

  lemma NewEntryLow(e: nat, v: nat)
    ensures NewEntry(e, v) >= 0 && Low28(NewEntry(e, v)) == Low28(v)
  {
  }

  /** The release loop of fs_rm and fs_rmdir. It ends on every FAT: a step that goes on to another
      cluster has zeroed an entry that was not zero. */
  ghost function Release(t: seq<nat>, total: nat, c: nat): (r: seq<nat>)
    requires total + 2 <= |t|
    ensures |r| == |t|
    decreases |Used(t, total)|, if c == 0 then 0 else 1
  {
    if !InChain(c, total) then t
    else
      SetUsed(t, total, c, 0);
      Release(Set(t, c, 0), total, Succ(t, c))
  }

  /** d is n links after c. */
  ghost predicate ReachesIn(t: seq<nat>, total: nat, c: nat, d: nat, n: nat)
    requires total + 2 <= |t|
    decreases n
  {
    InChain(c, total) && if n == 0 then c == d else ReachesIn(t, total, Succ(t, c), d, n - 1)
  }

  ghost predicate Reaches(t: seq<nat>, total: nat, c: nat, d: nat)
    requires total + 2 <= |t|
  {
    exists n: nat :: ReachesIn(t, total, c, d, n)
  }

  ghost predicate ReachesWithin(t: seq<nat>, total: nat, c: nat, d: nat, n: nat)
    requires total + 2 <= |t|
  {
    exists m: nat :: m < n && ReachesIn(t, total, c, d, m)
  }

  /** Walking from x in t either never leaves c, and is a walk in the FAT with c zeroed, or it
      passes c and contains a shorter walk from the successor of c. */
  lemma {:induction false} WalkPastZeroed(t: seq<nat>, total: nat, c: nat, x: nat, d: nat, n: nat)
    requires total + 2 <= |t| && InChain(c, total) && d != c && ReachesIn(t, total, x, d, n)
    ensures Reaches(Set(t, c, 0), total, x, d) || ReachesWithin(t, total, Succ(t, c), d, n)
    decreases n
  {
    var u := Set(t, c, 0);
    if x == c {
      assert ReachesIn(t, total, Succ(t, c), d, n - 1);
      assert ReachesWithin(t, total, Succ(t, c), d, n);
    } else if n == 0 {
      assert ReachesIn(u, total, x, d, 0);
    } else {
      WalkPastZeroed(t, total, c, Succ(t, x), d, n - 1);
      if Reaches(u, total, Succ(t, x), d) {
        var m: nat :| ReachesIn(u, total, Succ(t, x), d, m);
        assert ReachesIn(u, total, x, d, m + 1);
      } else {
        assert ReachesWithin(t, total, Succ(t, c), d, n - 1);
      }
    }
  }

  lemma {:induction false} WalkAfterZeroing(t: seq<nat>, total: nat, c: nat, d: nat, n: nat)
    requires total + 2 <= |t| && InChain(c, total) && d != c && ReachesIn(t, total, Succ(t, c), d, n)
    ensures Reaches(Set(t, c, 0), total, Succ(t, c), d)
    decreases n
  {
    WalkPastZeroed(t, total, c, Succ(t, c), d, n);
    if !Reaches(Set(t, c, 0), total, Succ(t, c), d) {
      var m: nat :| m < n && ReachesIn(t, total, Succ(t, c), d, m);
      WalkAfterZeroing(t, total, c, d, m);
    }
  }

  lemma {:induction false} WalkBeforeZeroing(t: seq<nat>, total: nat, c: nat, x: nat, d: nat, n: nat)
    requires total + 2 <= |t| && InChain(c, total) && ReachesIn(Set(t, c, 0), total, x, d, n)
    ensures ReachesIn(t, total, x, d, n)
    decreases n
  {
    if n > 0 {
      NewEntryLow(t[c], 0);
      WalkBeforeZeroing(t, total, c, Succ(Set(t, c, 0), x), d, n - 1);
    }
  }

  /** Zeroing the first cluster of a walk: what is reachable from it is itself and what is still
      reachable from its old successor. */
  lemma ReachSplit(t: seq<nat>, total: nat, c: nat, d: nat)
    requires total + 2 <= |t| && InChain(c, total)
    ensures Reaches(t, total, c, d) <==> d == c || Reaches(Set(t, c, 0), total, Succ(t, c), d)
  {
    if d == c {
      assert ReachesIn(t, total, c, d, 0);
    } else if Reaches(t, total, c, d) {
      var n: nat :| ReachesIn(t, total, c, d, n);
      WalkAfterZeroing(t, total, c, d, n - 1);
    } else if Reaches(Set(t, c, 0), total, Succ(t, c), d) {
      var n: nat :| ReachesIn(Set(t, c, 0), total, Succ(t, c), d, n);
      WalkBeforeZeroing(t, total, c, Succ(t, c), d, n);
      assert ReachesIn(t, total, c, d, n + 1);
    }
  }

  /** Releasing from c zeroes the low 28 bits of exactly the entries reachable from c, cycles or
      not, and leaves every other entry as it was. */
  lemma {:induction false} ReleaseZeroesReachable(t: seq<nat>, total: nat, c: nat, d: nat)
    requires total + 2 <= |t| && d < |t|
    ensures Release(t, total, c)[d] == if Reaches(t, total, c, d) then NewEntry(t[d], 0) else t[d]
    decreases |Used(t, total)|, if c == 0 then 0 else 1
  {
    if InChain(c, total) {
      SetUsed(t, total, c, 0);
      var u := Set(t, c, 0);
      ReleaseZeroesReachable(u, total, Succ(t, c), d);
      ReachSplit(t, total, c, d);
      NewEntryLow(t[c], 0);
    }
  }

  /** The used clusters afterwards are those not reachable; the number of free entries rises by
      the number of used clusters released. */
  lemma ReleaseFrees(t: seq<nat>, total: nat, c: nat)
    requires total + 2 <= |t|
    ensures var r := Release(t, total, c);
      var released := set d | d in Used(t, total) && Reaches(t, total, c, d);
      Used(r, total) == Used(t, total) - released && |Used(r, total)| + |released| == |Used(t, total)|
  {
    var r := Release(t, total, c);
    var released := set d | d in Used(t, total) && Reaches(t, total, c, d);
    forall d: nat ensures d in Used(r, total) <==> d in Used(t, total) - released {
      if d < total + 2 {
        ReleaseZeroesReachable(t, total, c, d);
        NewEntryLow(t[d], 0);
      }
    }
    assert Used(t, total) == Used(r, total) + released;
  }

  /** A chain that shares no cluster with the released one keeps every link. */
  lemma {:induction false} ReleaseLeavesDisjoint(t: seq<nat>, total: nat, c: nat, x: nat, d: nat, n: nat)
    requires total + 2 <= |t|
    requires forall y :: Reaches(t, total, x, y) ==> !Reaches(t, total, c, y)
    ensures ReachesIn(t, total, x, d, n) <==> ReachesIn(Release(t, total, c), total, x, d, n)
    decreases n
  {
    if InChain(x, total) && n > 0 {
      assert ReachesIn(t, total, x, x, 0);
      ReleaseZeroesReachable(t, total, c, x);
      forall y | Reaches(t, total, Succ(t, x), y) ensures !Reaches(t, total, c, y) {
        var m: nat :| ReachesIn(t, total, Succ(t, x), y, m);
        assert ReachesIn(t, total, x, y, m + 1);
      }
      ReleaseLeavesDisjoint(t, total, c, Succ(t, x), d, n - 1);
    }
  }

  /** Where the release starts: cluster 0 and numbers beyond the volume release nothing, any other
      cluster, 1 included, is freed. */
  lemma ReleaseStart(t: seq<nat>, total: nat, c: nat)
    requires total + 2 <= |t|
    ensures if 1 <= c <= total + 1 then Succ(Release(t, total, c), c) == 0 else Release(t, total, c) == t
  {
    if 1 <= c <= total + 1 {
      ReleaseZeroesReachable(t, total, c, c);
      assert ReachesIn(t, total, c, c, 0);
      NewEntryLow(t[c], 0);
    }
  }

  // ----- allocating a cluster -----

  /** The FSInfo words at offsets 488 and 492. */
  datatype FsInfo = FsInfo(freeCount: nat, nextFree: nat)

  const END_OF_CHAIN: nat := 0xFFFF_FFFF

  predicate TableOk(t: seq<nat>, total: nat)
  {
    total + 2 <= |t| <= LOW28 && total + 2 < LOW28
  }

  /** Cluster c is the lowest free one from start on. */
  ghost predicate IsLowestFree(t: seq<nat>, total: nat, start: nat, c: nat)
    requires TableOk(t, total)
  {
    start <= c <= total + 1 && Succ(t, c) == 0 && forall d :: start <= d < c ==> Succ(t, d) != 0
  }

  /** fs_next_free: the first free cluster from start on, or 0xFFFFFFFF. */
  function NextFree(t: seq<nat>, total: nat, start: nat): (r: nat)
    requires TableOk(t, total)
    ensures r <= total + 1 ==> start <= r && Succ(t, r) == 0
    ensures r > total + 1 ==> r == 0xFFFF_FFFF
    ensures forall d :: start <= d < r && d <= total + 1 ==> Succ(t, d) != 0
    decreases total + 2 - start
  {
    if start > total + 1 then NOT_FOUND
    else if Succ(t, start) == 0 then start
    else NextFree(t, total, start + 1)
  }

  /** The hint is taken as illegal when it exceeds the free count; both sums wrap. */
  predicate UsesFallback(info: FsInfo)
  {
    (info.nextFree + 1) % WORD > (info.freeCount + 1) % WORD
  }

  function Candidate(t: seq<nat>, total: nat, info: FsInfo): nat
    requires TableOk(t, total)
  {
    if UsesFallback(info) then NextFree(t, total, 2) else (info.nextFree + 1) % WORD
  }

  datatype Allocation = Allocation(table: seq<nat>, info: FsInfo, clus: Option<nat>)

  /** fs_alloc. It marks the candidate before it looks for the next free cluster, and leaves it
      marked when there is none. */
  function Alloc(t: seq<nat>, total: nat, info: FsInfo): (r: Allocation)
    requires TableOk(t, total) && Candidate(t, total, info) < |t|
    ensures |r.table| == |t|
  {
    var c := Candidate(t, total, info);
    var marked := Set(t, c, END_OF_CHAIN);
    var next := NextFree(marked, total, c);
    if next > total + 1 then Allocation(marked, info, None)
    else
      NewEntryLow(t[c], END_OF_CHAIN);
      assert next != c;
      Allocation(marked, info.(nextFree := next - 1), Some(c))
  }

  /** The cluster after the hint exists and is free. */
  predicate HintFree(t: seq<nat>, total: nat, info: FsInfo)
    requires total + 2 <= |t|
  {
    2 <= info.nextFree + 1 <= total + 1 && Succ(t, info.nextFree + 1) == 0
  }

  /** A successful allocation changes the entry of the cluster it returns, to an end-of-chain
      mark, and no other; afterwards the hint again points before a free cluster. */
  lemma AllocEffect(t: seq<nat>, total: nat, info: FsInfo)
    requires TableOk(t, total) && Candidate(t, total, info) < |t|
    ensures var r := Alloc(t, total, info);
      var c := Candidate(t, total, info);
      && (forall d :: 0 <= d < |t| && d != c ==> r.table[d] == t[d])
      && Succ(r.table, c) == 0x0FFF_FFFF && Succ(r.table, c) > total + 1
      && (r.clus.Some? ==> r.clus.value == c && (c > 0 ==> HintFree(r.table, total, r.info)))
      && (r.clus.Some? ==> IsLowestFree(t, total, c + 1, r.info.nextFree + 1))
      && r.info == info.(nextFree := r.info.nextFree) && (r.clus.None? ==> r.info == info)
      && (r.clus.Some? <==> exists d :: c < d <= total + 1 && Succ(t, d) == 0)
  {
    var c := Candidate(t, total, info);
    NewEntryLow(t[c], END_OF_CHAIN);
    var marked := Set(t, c, END_OF_CHAIN);
    var next := NextFree(marked, total, c);
    assert Succ(marked, c) == 0x0FFF_FFFF;
    if next <= total + 1 {
      assert c < next && Succ(t, next) == 0;
      forall d | c < d < next ensures Succ(t, d) != 0 { assert Succ(marked, d) == Succ(t, d); }
    } else {
      forall d | c < d <= total + 1 ensures Succ(t, d) != 0 { assert Succ(marked, d) == Succ(t, d); }
    }
  }

  /** The hint is followed when it is at most the free count, or is 0xFFFFFFFF; a free count of
      0xFFFFFFFF ("unknown") makes every other hint illegal. */
  predicate Followed(info: FsInfo)
  {
    (info.nextFree <= info.freeCount && info.freeCount < 0xFFFF_FFFF) || info.nextFree == 0xFFFF_FFFF
  }

  lemma FallbackIff(info: FsInfo)
    requires info.nextFree <= 0xFFFF_FFFF && info.freeCount <= 0xFFFF_FFFF
    ensures UsesFallback(info) <==> !Followed(info)
  {
  }

  /** What a successful allocation returns, on the FSInfo words: the lowest free cluster for an illegal
      hint, and otherwise the one behind the hint, or cluster 0 behind 0xFFFFFFFF. */
  lemma AllocReturns(t: seq<nat>, total: nat, info: FsInfo)
    requires TableOk(t, total) && Candidate(t, total, info) < |t|
    requires info.nextFree <= 0xFFFF_FFFF && info.freeCount <= 0xFFFF_FFFF && Alloc(t, total, info).clus.Some?
    ensures var c := Alloc(t, total, info).clus.value;
      if !Followed(info) then IsLowestFree(t, total, 2, c)
      else if info.nextFree < 0xFFFF_FFFF then c == info.nextFree + 1 else c == 0
  {
  }

  /** Exactly when a successful allocation returns a free data cluster: the hint is not followed, or is
      good. */
  lemma AllocFreshIff(t: seq<nat>, total: nat, info: FsInfo)
    requires TableOk(t, total) && Candidate(t, total, info) < |t|
    requires info.nextFree <= 0xFFFF_FFFF && info.freeCount <= 0xFFFF_FFFF && Alloc(t, total, info).clus.Some?
    ensures var c := Alloc(t, total, info).clus.value;
      (2 <= c <= total + 1 && Succ(t, c) == 0) <==> !Followed(info) || HintFree(t, total, info)
  {
    AllocReturns(t, total, info);
  }

  /** With a good hint the candidate is a free data cluster; marking it twice is marking it once. */
  lemma CandidateReady(t: seq<nat>, total: nat, info: FsInfo)
    requires TableOk(t, total) && HintFree(t, total, info)
    ensures var c := Candidate(t, total, info);
      && 2 <= c <= total + 1 && Succ(t, c) == 0
      && Set(Set(t, c, END_OF_CHAIN), c, END_OF_CHAIN) == Set(t, c, END_OF_CHAIN)
  {
  }

  /** The cluster that fs_alloc takes next is a free data cluster. */
  predicate HintReady(t: seq<nat>, total: nat, info: FsInfo)
    requires TableOk(t, total)
  {
    var c := Candidate(t, total, info);
    2 <= c <= total + 1 && Succ(t, c) == 0
  }

  /** That is so exactly when the hint is good, or is not followed and there is a free cluster. */
  lemma HintReadyIff(t: seq<nat>, total: nat, info: FsInfo)
    requires TableOk(t, total) && info.nextFree <= 0xFFFF_FFFF && info.freeCount <= 0xFFFF_FFFF
    ensures HintReady(t, total, info) <==>
            HintFree(t, total, info) || (!Followed(info) && exists d :: 2 <= d <= total + 1 && Succ(t, d) == 0)
  {
    var c := Candidate(t, total, info);
    if HintReady(t, total, info) { assert 2 <= c <= total + 1 && Succ(t, c) == 0; }
  }

  /** A volume more than half full, its hint beyond the free count: while two clusters are free, fs_alloc
      hands out the lowest. */
  lemma HalfFull(t: seq<nat>, total: nat, info: FsInfo, c: nat, d: nat)
    requires TableOk(t, total) && info.freeCount < info.nextFree < 0xFFFF_FFFF
    requires 2 <= c < d <= total + 1 && Succ(t, c) == 0 && Succ(t, d) == 0
    ensures HintReady(t, total, info) && Candidate(t, total, info) < |t| && Alloc(t, total, info).clus.Some?
    ensures IsLowestFree(t, total, 2, Alloc(t, total, info).clus.value)
  {
    HintReadyIff(t, total, info);
    AllocEffect(t, total, info);
    var e := Candidate(t, total, info);
    assert IsLowestFree(t, total, 2, e) && e <= c;
  }

  lemma MarkTwice(t: seq<nat>, c: nat)
    requires c < |t|
    ensures Set(Set(t, c, END_OF_CHAIN), c, END_OF_CHAIN) == Set(t, c, END_OF_CHAIN)
  {
  }

  /** Linking behind a cluster in use leaves the free clusters free. */
  lemma LinkReady(t: seq<nat>, total: nat, info: FsInfo, c: nat, v: nat)
    requires TableOk(t, total) && HintReady(t, total, info) && c < |t| && Succ(t, c) != 0
    ensures TableOk(Set(t, c, v), total) && HintReady(Set(t, c, v), total, info)
  {
    HintReadyKept(t, Set(t, c, v), total, info);
  }

  /** It stays so as long as free clusters stay free. */
  lemma HintReadyKept(t: seq<nat>, u: seq<nat>, total: nat, info: FsInfo)
    requires TableOk(t, total) && HintReady(t, total, info) && |u| == |t|
    requires forall d :: 2 <= d <= total + 1 && Succ(t, d) == 0 ==> Succ(u, d) == 0
    ensures TableOk(u, total) && HintReady(u, total, info)
  {
  }

  /** FSInfo's "unknown" value 0xFFFFFFFF is not taken as illegal: 1 is added, the sum wraps to 0,
      and the reserved entry of cluster 0 is handed out. */
  lemma UnknownHintTakesClusterZero(t: seq<nat>, total: nat, freeCount: nat)
    requires TableOk(t, total) && (exists d :: 0 < d <= total + 1 && Succ(t, d) == 0)
    ensures Candidate(t, total, FsInfo(freeCount, 0xFFFF_FFFF)) < |t|
    ensures Alloc(t, total, FsInfo(freeCount, 0xFFFF_FFFF)).clus == Some(0)
  {
    AllocEffect(t, total, FsInfo(freeCount, 0xFFFF_FFFF));
  }
}
