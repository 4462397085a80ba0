/** How init_buddy (kernel/mm/buddy.c) takes memory over from the boot allocator: it requests the
    array of page structures, finds the last boot page, and manages the whole largest blocks above it. */
module BuddyBoot {
  import opened Bits
  import opened BootSpec
  import opened Bootmm
  import opened Options
  import BuddyRuns
  import BuddySpec

  const PAGE_STRUCT: nat := 28 // sizeof(struct page)

  // ----- the last boot page -----

  function MaxEnd(infos: seq<Info>): (r: nat)
    ensures forall i :: 0 <= i < |infos| ==> infos[i].end <= r
    ensures infos != [] ==> exists i :: 0 <= i < |infos| && infos[i].end == r
  {
    if infos == [] then 0
    else
      var n := |infos| - 1;
      var m := MaxEnd(infos[..n]);
      assert infos[n].end <= m ==> n > 0 || m == infos[n].end;
      if infos[n].end > m then infos[n].end else m
  }

  /** kernel_end_pfn */
  function LastPage(b: Boot): nat
  {
    MaxEnd(b.infos) / PAGE_SIZE
  }

  /** It is the last page that is USED. */
  lemma LastPageIsUsed(b: Boot)
    requires BootInv(b)
    ensures LastPage(b) < b.maxPfn && b.map_[LastPage(b)] == PAGE_USED
    ensures forall p :: LastPage(b) < p < b.maxPfn ==> b.map_[p] == PAGE_FREE
  {
    hide MaxEnd;
    var limit, e, last := b.maxPfn * PAGE_SIZE, MaxEnd(b.infos), LastPage(b);
    assert b.infos != [] by {
      assert b.map_[0] == PAGE_USED && CoveredOnce(b.infos, 0) by { assert 0 * PAGE_SIZE <= 0; }
    }
    var i :| 0 <= i < |b.infos| && b.infos[i].end == e;
    assert Holds(b.infos[i], e);
    OnceIsAny(b.infos, limit, e);
    forall p | last < p < b.maxPfn ensures b.map_[p] == PAGE_FREE {
      OnceIsAny(b.infos, limit, p * PAGE_SIZE);
      assert !CoveredAny(b.infos, p * PAGE_SIZE);
    }
  }

  // ----- the managed range -----

  /** buddy_start_pfn and buddy_end_pfn: the last boot page rounded up, and the number of pages
      rounded down, to a multiple of 16. */
  function StartPfn(b: Boot): nat
    requires LastPage(b) + 15 < WORD
  {
    And(LastPage(b) + 15, WORD - 16)
  }

  function EndPfn(b: Boot): nat
    requires b.maxPfn < WORD
  {
    And(b.maxPfn, WORD - 16)
  }

  predicate Managed(p: nat, b: Boot)
    requires LastPage(b) + 15 < WORD && b.maxPfn < WORD
  {
    StartPfn(b) <= p < EndPfn(b)
  }

  lemma RangeAligned(b: Boot)
    requires LastPage(b) + 15 < WORD && b.maxPfn < WORD
    ensures StartPfn(b) % 16 == 0 && EndPfn(b) % 16 == 0
    ensures LastPage(b) <= StartPfn(b) < LastPage(b) + 16 && b.maxPfn - 16 < EndPfn(b) <= b.maxPfn
  {
    hide And, LastPage;
    RoundDown(LastPage(b) + 15);
    RoundDown(b.maxPfn);
  }

  lemma RoundDown(x: nat)
    requires x < WORD
    ensures And(x, WORD - 16) == x - x % 16
  {
    hide And;
    AndHighMask(x, 4, 32) by { Pow2Values(); }
    Pow2Values();
  }

  /** Every managed page is free for the boot allocator. */
  ghost predicate ManagedAreFree(b: Boot)
    requires MapOk(b) && LastPage(b) + 15 < WORD
  {
    forall p: nat :: p < b.maxPfn && Managed(p, b) ==> b.map_[p] == PAGE_FREE
  }

  /** The last boot page is rounded up, not the page after it; so every managed page is free exactly
      when its number is not a multiple of 16 or the range ends at or before it. It is the only page
      that can be both managed and USED. */
  lemma ManagedFreeIff(b: Boot)
    requires BootInv(b)
    ensures LastPage(b) + 15 < WORD
    ensures ManagedAreFree(b) <==> LastPage(b) % 16 != 0 || EndPfn(b) <= LastPage(b)
    ensures forall p: nat :: p < b.maxPfn && Managed(p, b) && b.map_[p] == PAGE_USED ==> p == LastPage(b)
  {
    LastPageIsUsed(b);
    RangeAligned(b);
    hide StartPfn, EndPfn, LastPage, Agree, Segments;
    assert Managed(LastPage(b), b) <==> LastPage(b) % 16 == 0 && LastPage(b) < EndPfn(b);
  }

  // ----- the allocator's clients -----

  /** The number of pages freed by init_buddy. */
  function Count(b: Boot): (r: nat)
    requires LastPage(b) + 15 < WORD && b.maxPfn < WORD
    ensures r % 16 == 0
  {
    RangeAligned(b);
    if EndPfn(b) <= StartPfn(b) then 0 else EndPfn(b) - StartPfn(b)
  }

  /** Page p of the machine is in a block that a client of the allocator holds. */
  ghost predicate HandedOut(t: BuddyRuns.System, b: Boot, p: nat)
    requires LastPage(b) + 15 < WORD
  {
    exists x :: x in t.held && p >= StartPfn(b) && BuddySpec.Contains(x, p - StartPfn(b))
  }

  /** Over every run after init_buddy, every managed page is in a block that is on a list or handed out;
      clients hold only pages that the boot allocator left free, or the last boot page is among the
      managed ones. */
  lemma BootPagesKept(b: Boot, ops: seq<BuddyRuns.Op>, t: BuddyRuns.System)
    requires BootInv(b) && LastPage(b) + 15 < WORD
    requires BuddyRuns.Reaches(BuddyRuns.System(BuddyRuns.InitLoop(Count(b), Count(b)), {}), ops, t)
    ensures ManagedAreFree(b) ==>
              forall p: nat :: HandedOut(t, b, p) ==> p < b.maxPfn && b.map_[p] == PAGE_FREE
    ensures forall p: nat :: Managed(p, b) ==>
              BuddySpec.Covered(BuddySpec.FreeBlocks(t.buddy) + t.held, p - StartPfn(b))
    ensures !ManagedAreFree(b) ==> BuddySpec.Shape(t.buddy) && StartPfn(b) == LastPage(b)
                                   && BuddySpec.Covered(BuddySpec.FreeBlocks(t.buddy) + t.held, 0)
  {
    RangeAligned(b);
    ManagedFreeIff(b);
    hide StartPfn, EndPfn, LastPage, Agree, Segments, BuddySpec.Lists, BuddySpec.FreeBlocks;
    BuddyRuns.EveryRun(Count(b), ops, t);
    if ManagedAreFree(b) {
      forall p: nat | HandedOut(t, b, p) ensures p < b.maxPfn && b.map_[p] == PAGE_FREE {
        var x :| x in t.held && p >= StartPfn(b) && BuddySpec.Contains(x, p - StartPfn(b));
        assert x in BuddySpec.FreeBlocks(t.buddy) + t.held && BuddySpec.WellPlaced(x, Count(b));
        assert Managed(p, b);
      }
    }
  }

  // ----- runs of kernel requests -----

  /** The state after requests of k pages in all, each of the kernel's kind: one segment. */
  function KernelBoot(k: nat): Boot
  {
    Boot(seq(MAX_PFN + 1, p => if p < KERNEL_PAGES + k then PAGE_USED else PAGE_FREE), MAX_PFN, KERNEL_PAGES + k - 1,
         [Info(0, (KERNEL_PAGES + k) * PAGE_SIZE - 1, MM_KERNEL)])
  }

  lemma KernelNext(k: nat, size: nat)
    requires Proper(size) && KERNEL_PAGES + k + Pages(size) <= MAX_PFN
    ensures Room(KernelBoot(k), size, MM_KERNEL)
    ensures var (r, page, code) := Alloc(KernelBoot(k), size, MM_KERNEL);
      r == KernelBoot(k + Pages(size)) && page == Some(KERNEL_PAGES + k) && code == 6
  {
    var b, i, n := KernelBoot(k), KERNEL_PAGES + k, Pages(size);
    assert RunAt(b.map_, i, n);
    assert FirstRun(b.map_, n, i, MAX_PFN) == Some(i);
    assert Fill(b.map_, i, n, PAGE_USED) == KernelBoot(k + n).map_;
    assert Joins(b.infos, 0, i * PAGE_SIZE, (i + n) * PAGE_SIZE - 1, MM_KERNEL);
  }

  lemma KernelKeeps(k: nat, size: nat)
    requires Proper(size) && KERNEL_PAGES + k + Pages(size) <= MAX_PFN && BootInv(KernelBoot(k))
    ensures BootInv(KernelBoot(k + Pages(size)))
  {
    AllocKeeps(KernelBoot(k), size, MM_KERNEL);
    KernelNext(k, size);
    hide Alloc, Room, KernelBoot, Pages, Segments, Agree, Search;
  }

  lemma KernelLast(k: nat)
    ensures LastPage(KernelBoot(k)) == KERNEL_PAGES + k - 1
  {
    assert MaxEnd(KernelBoot(k).infos) == KernelBoot(k).infos[0].end;
  }

  function TotalPages(requests: seq<Request>): nat
  {
    if requests == [] then 0 else Pages(requests[0].size) + TotalPages(requests[1..])
  }

  ghost predicate KernelRequests(requests: seq<Request>)
  {
    forall i :: 0 <= i < |requests| ==> Proper(requests[i].size) && requests[i].kind == MM_KERNEL
  }

  lemma {:induction false} KernelRun(k: nat, requests: seq<Request>)
    requires KernelRequests(requests) && KERNEL_PAGES + k + TotalPages(requests) <= MAX_PFN
    requires BootInv(KernelBoot(k))
    ensures Reaches(KernelBoot(k), requests, KernelBoot(k + TotalPages(requests)))
    decreases |requests|
  {
    hide Alloc, Room, BootInv, Search, KernelBoot, Pages;
    if requests != [] {
      var q := requests[0];
      KernelNext(k, q.size);
      KernelKeeps(k, q.size);
      KernelRun(k + Pages(q.size), requests[1..]);
    }
  }

  /** The run that ends with init_buddy's own request, for the page structures. */
  function WithOwn(requests: seq<Request>): seq<Request>
  {
    requests + [Request(PAGE_STRUCT * MAX_PFN, MM_KERNEL)]
  }

  lemma {:induction false} TotalWithOwn(requests: seq<Request>)
    ensures TotalPages(WithOwn(requests)) == TotalPages(requests) + 224
  {
    if requests != [] {
      TotalWithOwn(requests[1..]);
      assert WithOwn(requests)[1..] == WithOwn(requests[1..]);
    }
  }

  /** From init_bootmm, any requests for kernel pages and then init_buddy's own: every managed page is
      free exactly when the pages requested before init_buddy are not 1 modulo 16. The kernel's boot
      path requests none, and the last boot page is 4319; after one page it is 4320, and is managed. */
  lemma KernelHandover(requests: seq<Request>)
    requires KernelRequests(requests) && KERNEL_PAGES + TotalPages(requests) + 224 <= MAX_PFN
    ensures BootInv(InitBoot())
    ensures var t := KernelBoot(TotalPages(requests) + 224);
      && Reaches(InitBoot(), WithOwn(requests), t) && BootInv(t) && LastPage(t) == 4319 + TotalPages(requests)
      && (ManagedAreFree(t) <==> TotalPages(requests) % 16 != 1)
  {
    hide BootInv, Reaches, ManagedAreFree, KernelBoot, InitBoot, TotalPages, WithOwn;
    OwnReaches(requests);
    HandoverIff(TotalPages(requests) + 224);
  }

  lemma OwnReaches(requests: seq<Request>)
    requires KernelRequests(requests) && KERNEL_PAGES + TotalPages(requests) + 224 <= MAX_PFN
    ensures BootInv(InitBoot())
    ensures var t := KernelBoot(TotalPages(requests) + 224);
      Reaches(InitBoot(), WithOwn(requests), t) && BootInv(t)
  {
    InitOk();
    assert KernelBoot(0) == InitBoot();
    TotalWithOwn(requests);
    hide Alloc, BootInv, Reaches, KernelBoot, InitBoot, TotalPages;
    KernelRun(0, WithOwn(requests));
    EveryBootRun(InitBoot(), WithOwn(requests), KernelBoot(TotalPages(requests) + 224));
  }

  lemma HandoverIff(k: nat)
    requires BootInv(KernelBoot(k)) && KERNEL_PAGES + k <= MAX_PFN
    ensures LastPage(KernelBoot(k)) == KERNEL_PAGES + k - 1
    ensures ManagedAreFree(KernelBoot(k)) <==> k % 16 != 1
  {
    KernelLast(k);
    ManagedFreeIff(KernelBoot(k));
    RangeAligned(KernelBoot(k));
    hide BootInv, ManagedAreFree, StartPfn, EndPfn, LastPage;
  }

  /** Where nine requests of alternating kinds have filled the segment table, the array of page
      structures is in no segment, and most of its pages are managed. */
  lemma PageArrayManaged()
    ensures BootInv(Filled(MAX_INFO - 1))
    ensures var (r, page, code) := Alloc(Filled(MAX_INFO - 1), PAGE_STRUCT * MAX_PFN, MM_KERNEL);
      && page == Some(4105) && code == 0 && LastPage(r) == 4104
      && forall p :: 4112 <= p < 4105 + 224 ==> Managed(p, r) && r.map_[p] == PAGE_USED
  {
    FilledOwn();
    FilledLast();
    TenthRequestLost();
    hide Alloc, Reaches, Managed, StartPfn, EndPfn, LastPage, Alternating, Filled, FirstRun, InsertFrom;
    EveryBootRun(InitBoot(), Alternating(0), Filled(MAX_INFO - 1));
    ManagedAfterOwn();
  }

  lemma FilledOwn()
    ensures var b := Filled(MAX_INFO - 1);
      var (r, page, code) := Alloc(b, PAGE_STRUCT * MAX_PFN, MM_KERNEL);
      && page == Some(4105) && code == 0
      && r == Boot(Fill(b.map_, 4105, 224, PAGE_USED), MAX_PFN, 4328, b.infos)
  {
    var b := Filled(MAX_INFO - 1);
    assert RunAt(b.map_, 4105, 224);
    FilledJoinsNot();
    InsertCode(b.infos, 0, 4105 * PAGE_SIZE, (4105 + 224) * PAGE_SIZE - 1, MM_KERNEL);
    hide InsertFrom, Fill, Joins, Filled, RunAt;
    assert FirstRun(b.map_, 224, 4105, MAX_PFN) == Some(4105);
    assert Pages(PAGE_STRUCT * MAX_PFN) == 224;
  }

  /** The pages of the array. */
  function Own(): Info
  {
    Info(4105 * PAGE_SIZE, (4105 + 224) * PAGE_SIZE - 1, MM_KERNEL)
  }

  lemma FilledJoinsNot()
    ensures var infos, q := Filled(MAX_INFO - 1).infos, Own();
      |infos| == MAX_INFO && forall j :: 0 <= j < |infos| ==> !Joins(infos, j, q.start, q.end, q.kind)
  {
    var infos, q := Filled(MAX_INFO - 1).infos, Own();
    forall j | 0 <= j < |infos| ensures !Joins(infos, j, q.start, q.end, q.kind) {
      assert infos[j] == if j == 0 then InitBoot().infos[0] else PageInfo(j - 1);
    }
  }

  lemma FilledLast()
    ensures MaxEnd(Filled(MAX_INFO - 1).infos) == 4105 * PAGE_SIZE - 1
  {
    var infos := Filled(MAX_INFO - 1).infos;
    assert infos[9] == PageInfo(8);
    assert forall j :: 0 <= j < |infos| ==> infos[j] == if j == 0 then InitBoot().infos[0] else PageInfo(j - 1);
    hide MaxEnd;
  }

  lemma ManagedAfterOwn()
    ensures var r := Alloc(Filled(MAX_INFO - 1), PAGE_STRUCT * MAX_PFN, MM_KERNEL).0;
      && LastPage(r) == 4104 && |r.map_| > MAX_PFN == r.maxPfn
      && forall p :: 4112 <= p < 4105 + 224 ==> Managed(p, r) && r.map_[p] == PAGE_USED
  {
    FilledOwn();
    FilledLast();
    hide Alloc, FirstRun, InsertFrom, MaxEnd, StartPfn, EndPfn;
    var r := Alloc(Filled(MAX_INFO - 1), PAGE_STRUCT * MAX_PFN, MM_KERNEL).0;
    assert LastPage(r) == 4104;
    RangeAligned(r);
    assert StartPfn(r) == 4112 && EndPfn(r) == 32768;
  }

  // ----- the code -----

  /** The loop over the segments and the shift. */
  method KernelEndPfn(mm: BootMemory) returns (r: nat)
    requires mm.Shape()
    ensures r == LastPage(mm.State())
  {
    r := 0;
    var i := 0;
    while i < mm.cntInfos
      invariant i <= mm.cntInfos && r == MaxEnd(mm.info[..i])
    {
      assert mm.info[..i + 1][..i] == mm.info[..i];
      if mm.info[i].end > r {
        r := mm.info[i].end;
      }
      i := i + 1;
    }
    r := r / PAGE_SIZE;
  }

  lemma LastPageBound(b: Boot)
    requires BootInv(b)
    ensures LastPage(Alloc(b, PAGE_STRUCT * b.maxPfn, MM_KERNEL).0) + 15 < WORD
  {
    AllocKeeps(b, PAGE_STRUCT * b.maxPfn, MM_KERNEL);
    hide Alloc, Agree;
  }

  /** init_buddy up to the bounds of the managed range; None is its endless loop. */
  method TakeOver(mm: BootMemory) returns (r: Option<(nat, nat)>)
    requires mm.Valid() && BootInv(mm.State())
    modifies mm`lastAllocEnd, mm`cntInfos, mm.sMap, mm.info
    ensures mm.Shape() && mm.State() == Alloc(old(mm.State()), PAGE_STRUCT * mm.maxPfn, MM_KERNEL).0
    ensures r.None? <==> Alloc(old(mm.State()), PAGE_STRUCT * mm.maxPfn, MM_KERNEL).1.None?
    ensures LastPage(mm.State()) + 15 < WORD
    ensures r.Some? ==> r.value == (StartPfn(mm.State()), EndPfn(mm.State()))
  {
    hide Alloc, Agree, MaxEnd, And;
    LastPageBound(mm.State());
    var page;
    ghost var code;
    page, code := mm.AllocPages(PAGE_STRUCT * mm.maxPfn, MM_KERNEL);
    if page.None? {
      r := None;
      return;
    }
    var last := KernelEndPfn(mm);
    r := Some((And(last + 15, WORD - 16), And(mm.maxPfn, WORD - 16)));
  }
}
