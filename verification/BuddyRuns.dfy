/** Initialisation of the buddy system, and every run of allocations and frees after it
    (init_buddy, __alloc_pages and __free_pages in kernel/mm/buddy.c). */
module BuddyRuns {
  import opened Bits
  import opened BuddySpec
  import opened Options

  // ----- initialisation -----

  function Empty(n: nat): Buddy
  {
    Buddy(seq(n, _ => NO_LEVEL), [[], [], [], [], []], [0, 0, 0, 0, 0])
  }

  /** The loop of init_buddy after it has freed the first i pages. */
  function InitLoop(n: nat, i: nat): (b: Buddy)
    requires n % 16 == 0 && i <= n
    ensures Shape(b) && |b.level| == n
  {
    if i == 0 then Empty(n) else Free(InitLoop(n, i - 1), i - 1, 0)
  }

  /** 16 * (q - 1), ..., 16, 0 */
  function TopList(q: nat): seq<nat>
  {
    if q == 0 then [] else [16 * (q - 1)] + TopList(q - 1)
  }

  /** The list of order k < 4 after i pages: one block if bit k of i is set, none otherwise. */
  function DigitList(i: nat, k: nat): seq<nat>
  {
    ModBound(i, Pow2(k + 1));
    if Bit(i, k) == 1 then [i - i % Pow2(k + 1)] else []
  }

  /** The free lists spell i in binary: digits below 16 in orders 0 to 3, sixteens in order 4. */
  ghost predicate Counts(b: Buddy, i: nat, from: nat)
  {
    && |b.free| == MAX_BUDDY_ORDER + 1
    && (forall k :: from <= k < MAX_BUDDY_ORDER ==> b.free[k] == DigitList(i, k))
    && b.free[MAX_BUDDY_ORDER] == TopList(i / 16)
  }

  /** During initialisation a page carries an order exactly when it heads a free block. */
  ghost predicate LevelsExact(b: Buddy, i: nat)
    requires Shape(b)
  {
    && (forall p :: 0 <= p < |b.level| && b.level[p] <= MAX_BUDDY_ORDER ==> p in b.free[b.level[p]])
    && (forall p :: i <= p < |b.level| ==> b.level[p] == NO_LEVEL)
  }

  lemma Successor(i: nat, m: nat)
    requires m > 0
    ensures (i + 1) % m == if i % m == m - 1 then 0 else i % m + 1
  {
    ModBound(i, m);
    if i % m == m - 1 {
      ModUnique(i + 1, m, i / m + 1, 0);
    } else {
      ModUnique(i + 1, m, i / m, i % m + 1);
    }
  }

  /** Adding one to a number whose lowest clear bit is k sets that bit, clears the bits below
      and leaves the bits above alone. */
  lemma Carry(i: nat, k: nat, j: nat)
    requires i % Pow2(k + 1) == Pow2(k) - 1
    ensures j < k ==> Bit(i + 1, j) == 0
    ensures j == k ==> Bit(i + 1, j) == 1 && (i + 1) % Pow2(k + 1) == Pow2(k)
    ensures j > k ==> Bit(i + 1, j) == Bit(i, j) && (i + 1) % Pow2(j + 1) == i % Pow2(j + 1) + 1
  {
    Successor(i, Pow2(k + 1));
    BitMod(i + 1, j);
    BitMod(i, j);
    if j < k {
      BitMod(i + 1, k);
      AlignedDown(i + 1, j + 1, k);
    } else if j == k {
      ModBound(i + 1, Pow2(k));
    } else {
      Successor(i, Pow2(j));
      Successor(i, Pow2(j + 1));
      if i % Pow2(j) == Pow2(j) - 1 { AlignedDown(i + 1, k + 1, j); }
      ModBound(i, Pow2(j));
    }
  }

  lemma OnesBelow(i: nat, k: nat)
    requires i % Pow2(k) == Pow2(k) - 1
    ensures i >= Pow2(k) - 1 && (i - (Pow2(k) - 1)) % Pow2(k) == 0
    ensures Bit(i, k) == 1 ==> i % Pow2(k + 1) == Pow2(k + 1) - 1
    ensures Bit(i, k) == 0 ==> i % Pow2(k + 1) == Pow2(k) - 1
  {
    var p := Pow2(k);
    BitFits(i, k);
    BitMod(i, k);
    ModBound(i, p);
    ModUnique(i - (p - 1), p, i / p, 0);
  }

  /** i ends in k ones: the block of order k that ends at page i, and its sibling. */
  lemma ChainSibling(i: nat, k: nat)
    requires i % Pow2(k) == Pow2(k) - 1
    ensures i >= Pow2(k) - 1 && (i - (Pow2(k) - 1)) % Pow2(k) == 0
    ensures Bit(i, k) == 1 ==>
              && i >= Pow2(k + 1) - 1
              && Sibling(i - (Pow2(k) - 1), k) == i - i % Pow2(k + 1)
              && Combined(i - (Pow2(k) - 1), k) == i - (Pow2(k + 1) - 1)
              && i % Pow2(k + 1) == Pow2(k + 1) - 1
    ensures Bit(i, k) == 0 ==> i % Pow2(k + 1) == Pow2(k) - 1 && Sibling(i - (Pow2(k) - 1), k) == i + 1
  {
    hide Bit;
    OnesBelow(i, k);
    var p, m := Pow2(k), Pow2(k + 1);
    BitFits(i, k);
    ModBound(i, m);
    var x := i - (p - 1);
    BitFits(x, k);
    ModUnique(x, m, i / m, if Bit(i, k) == 1 then p else 0);
  }

  lemma TopPush(i: nat)
    requires i % 16 == 15
    ensures [i - 15] + TopList(i / 16) == TopList((i + 1) / 16)
  {
    assert (i + 1) / 16 == i / 16 + 1 && i - 15 == 16 * (i / 16);
  }

  lemma TopSame(i: nat)
    requires i % 16 != 15
    ensures (i + 1) / 16 == i / 16
  {
  }

  lemma DigitsAfterTop(i: nat, j: nat)
    requires i % 16 == 15 && j < MAX_BUDDY_ORDER
    ensures DigitList(i + 1, j) == []
  {
    Pow2Values();
    Successor(i, 16);
    BitMod(i + 1, j);
    AlignedDown(i + 1, j + 1, 4);
  }

  lemma DigitsAfterLow(i: nat, k: nat, j: nat)
    requires i % Pow2(k) == Pow2(k) - 1 && Bit(i, k) == 0
    ensures j < k ==> DigitList(i + 1, j) == []
    ensures j == k ==> i >= Pow2(k) - 1 && DigitList(i + 1, j) == [i - (Pow2(k) - 1)]
    ensures j > k ==> DigitList(i + 1, j) == DigitList(i, j)
  {
    ChainSibling(i, k);
    Carry(i, k, j);
    ModBound(i, Pow2(j + 1));
  }

  /** Pushing the block that ends at page i completes the addition of one. */
  lemma CountPush(b: Buddy, i: nat, k: nat)
    requires Shape(b) && i < |b.level| && k <= MAX_BUDDY_ORDER
    requires i % Pow2(k) == Pow2(k) - 1 && (k < MAX_BUDDY_ORDER ==> Bit(i, k) == 0)
    requires (forall j :: 0 <= j < k ==> b.free[j] == []) && Counts(b, i, k)
    ensures i >= Pow2(k) - 1 && Counts(Push(b, i - (Pow2(k) - 1), k), i + 1, 0)
  {
    ModBound(i, Pow2(k));
    if k == MAX_BUDDY_ORDER {
      Pow2Values();
      TopPush(i);
      var t := i + 1;
      forall j | 0 <= j < MAX_BUDDY_ORDER ensures DigitList(t, j) == [] { DigitsAfterTop(i, j); }
    } else {
      var r := Push(b, i - (Pow2(k) - 1), k);
      forall j | 0 <= j < MAX_BUDDY_ORDER ensures r.free[j] == DigitList(i + 1, j) {
        DigitsAfterLow(i, k, j);
      }
      if i % 16 == 15 { LowOnes(i, k); }
      TopSame(i);
    }
  }

  lemma LowOnes(i: nat, k: nat)
    requires i % 16 == 15 && k < 4
    ensures Bit(i, k) == 1
  {
    Pow2Values();
    Successor(i, 16);
    AlignedDown(i + 1, k + 1, 4);
    Successor(i, Pow2(k + 1));
    ModBound(i, Pow2(k));
    BitMod(i, k);
  }

  /** The free lists spell i, and the blocks of order below k have already been merged. */
  ghost predicate Carrying(b: Buddy, i: nat, k: nat)
  {
    && Lists(b) && LevelsExact(b, i) && i < |b.level| && k <= MAX_BUDDY_ORDER
    && i % Pow2(k) == Pow2(k) - 1
    && (forall j :: 0 <= j < k ==> b.free[j] == []) && Counts(b, i, k)
  }

  lemma CarryMerges(b: Buddy, i: nat, k: nat)
    requires Carrying(b, i, k) && k < MAX_BUDDY_ORDER && Bit(i, k) == 1
    ensures i >= Pow2(k + 1) - 1
    ensures var x := i - (Pow2(k) - 1);
      && Merges(b, x, k) && Sibling(x, k) in b.free[k] && Sibling(x, k) < |b.level|
      && Combined(x, k) == i - (Pow2(k + 1) - 1) && x % Pow2(k) == 0
      && Carrying(Unlink(b, Sibling(x, k), k), i, k + 1)
  {
    ChainSibling(i, k);
    var x := i - (Pow2(k) - 1);
    var s := Sibling(x, k);
    SiblingInRange(x, k, |b.level|);
    assert b.free[k] == [s];
    UnlinkLists(b, s, k);
  }

  lemma CarryStops(b: Buddy, i: nat, k: nat)
    requires Carrying(b, i, k) && (k < MAX_BUDDY_ORDER ==> Bit(i, k) == 0)
    ensures i >= Pow2(k) - 1
    ensures var x := i - (Pow2(k) - 1);
      !Merges(b, x, k) && Counts(Push(b, x, k), i + 1, 0) && LevelsExact(Push(b, x, k), i + 1)
  {
    hide Bit, Sibling, Counts, LevelsExact, Push;
    CarryBound(b, i, k);
    if k < MAX_BUDDY_ORDER { CarryNoMerge(b, i, k); }
    CountPush(b, i, k);
    CarryLevels(b, i, k);
  }

  lemma CarryLevels(b: Buddy, i: nat, k: nat)
    requires Carrying(b, i, k) && i >= Pow2(k) - 1
    ensures LevelsExact(Push(b, i - (Pow2(k) - 1), k), i + 1)
  {
    hide Bit, Sibling, Counts;
  }

  lemma CarryBound(b: Buddy, i: nat, k: nat)
    requires Carrying(b, i, k)
    ensures i >= Pow2(k) - 1 && i - (Pow2(k) - 1) < |b.level|
  {
    hide Bit, Sibling, Counts, LevelsExact, Lists;
    ModBound(i, Pow2(k));
  }

  lemma CarryNoMerge(b: Buddy, i: nat, k: nat)
    requires Carrying(b, i, k) && k < MAX_BUDDY_ORDER && Bit(i, k) == 0
    ensures i >= Pow2(k) - 1 && !Merges(b, i - (Pow2(k) - 1), k)
  {
    hide Bit, Sibling;
    ChainSibling(i, k);
    SiblingInRange(i - (Pow2(k) - 1), k, |b.level|);
    assert b.free[k] == [];
  }

  /** Freeing page i when the free lists spell i: every merge is with a free block, and the
      lists then spell i + 1. */
  lemma {:induction false} CountChain(b: Buddy, i: nat, k: nat)
    requires Carrying(b, i, k)
    ensures i >= Pow2(k) - 1 && MergesOnlyFree(b, i - (Pow2(k) - 1), k)
    ensures var r := Free(b, i - (Pow2(k) - 1), k); Counts(r, i + 1, 0) && LevelsExact(r, i + 1)
    decreases MAX_BUDDY_ORDER - k
  {
    hide Counts, LevelsExact, Bit, Sibling, Combined;
    if k < MAX_BUDDY_ORDER && Bit(i, k) == 1 {
      CarryMerges(b, i, k);
      var x := i - (Pow2(k) - 1);
      var s, c := Sibling(x, k), Combined(x, k);
      CountChain(Unlink(b, s, k), i, k + 1);
      MergedAligned(x, k);
      MergesOnlyFreeFrame(b, Unlink(b, s, k), c, k + 1);
    } else {
      BitMod(i, k);
      CarryStops(b, i, k);
    }
  }

  lemma AddPage(b: Buddy, i: nat)
    requires Inv(b, {}, {}, i) && i < |b.level|
    ensures Inv(b, {}, {Block(i, 0)}, i + 1)
  {
    var x := Block(i, 0);
    var old_ := FreeBlocks(b) + {} + {};
    var blocks := FreeBlocks(b) + {} + {x};
    assert forall h :: h in old_ ==> WellPlaced(h, i);
    assert x !in FreeBlocks(b) by { assert x in old_ ==> WellPlaced(x, i); }
    forall p: nat | p < i + 1 ensures Covered(blocks, p) {
      if p < i {
        assert Covered(old_, p);
        var h :| h in old_ && Contains(h, p);
        assert h in blocks;
      } else {
        assert x in blocks && Contains(x, p);
      }
    }
  }

  lemma EmptyInv(n: nat)
    requires n % 16 == 0 && n < WORD
    ensures var b := Empty(n); Inv(b, {}, {}, 0) && NoFreeSiblings(b) && Counts(b, 0, 0) && LevelsExact(b, 0)
  {
    var b := Empty(n);
    assert FreeBlocks(b) == {} by {
      forall x | x in FreeBlocks(b) ensures false { FreeBlocksHas(b, x.start, x.order); }
    }
    forall k: nat | k < MAX_BUDDY_ORDER ensures DigitList(0, k) == [] { BitMod(0, k); ModBound(0, Pow2(k + 1)); }
  }

  ghost predicate Counting(b: Buddy, i: nat)
  {
    Inv(b, {}, {}, i) && NoFreeSiblings(b) && Counts(b, i, 0) && LevelsExact(b, i)
  }

  lemma CountingShape(b: Buddy, i: nat)
    requires Counting(b, i)
    ensures Shape(b)
  {
  }

  lemma CountStep(b: Buddy, i: nat) returns (c: Buddy)
    requires Counting(b, i) && i < |b.level|
    ensures MergesOnlyFree(b, i, 0) && c == Free(b, i, 0) && Counting(c, i + 1)
  {
    hide Partition, Lists, LevelsExact, Counts, Free, Sibling, Combined;
    CountingShape(b, i);
    c := Free(b, i, 0);
    AddPage(b, i);
    Pow2Values();
    ModUnique(i, 1, i, 0);
    CountChain(b, i, 0);
    FreeKeeps(b, {}, i, 0, i + 1);
    FreeMergesAll(b, i, 0);
  }

  lemma {:induction false} InitCounts(n: nat, i: nat) returns (b: Buddy)
    requires n % 16 == 0 && n < WORD && i <= n
    ensures b == InitLoop(n, i) && Counting(b, i)
    decreases i
  {
    hide Free, Inv, Counts, LevelsExact;
    if i == 0 {
      EmptyInv(n);
      b := Empty(n);
    } else {
      var a := InitCounts(n, i - 1);
      b := CountStep(a, i - 1);
    }
  }

  /** The initialisation loop is a binary counter: after i frees, order 4 holds i / 16 blocks
      and each lower order k holds exactly bit k of i, at the place that bit stands for. The
      blocks partition the first i pages. */
  lemma InitCounter(n: nat, i: nat)
    requires n % 16 == 0 && n < WORD && i <= n
    ensures Counting(InitLoop(n, i), i)
  {
    var b := InitCounts(n, i);
  }

  /** The merges of initialisation are all with free blocks, although the test looks only at
      bplevel. */
  lemma InitMergesOnlyFree(n: nat, i: nat)
    requires n % 16 == 0 && n < WORD && i < n
    ensures MergesOnlyFree(InitLoop(n, i), i, 0)
  {
    var b := InitCounts(n, i);
    var c := CountStep(b, i);
  }

  lemma {:induction false} TopListLength(q: nat)
    ensures |TopList(q)| == q
  {
    if q > 0 { TopListLength(q - 1); }
  }

  /** When init_buddy returns, all managed memory is in blocks of the largest order. */
  lemma InitDone(n: nat)
    requires n % 16 == 0 && n < WORD
    ensures var b := InitLoop(n, n);
      && Inv(b, {}, {}, n) && NoFreeSiblings(b)
      && b.free == [[], [], [], [], TopList(n / 16)] && b.nr == [0, 0, 0, 0, n / 16]
  {
    InitCounter(n, n);
    TopListLength(n / 16);
    var b := InitLoop(n, n);
    forall k: nat | k < MAX_BUDDY_ORDER ensures b.free[k] == [] {
      Pow2Values();
      BitMod(n, k);
      AlignedDown(n, k + 1, 4);
    }
    assert b.free == [b.free[0], b.free[1], b.free[2], b.free[3], b.free[4]];
    assert b.nr == [b.nr[0], b.nr[1], b.nr[2], b.nr[3], b.nr[4]];
  }

  // ----- runs -----

  datatype Op = AllocOp(order: nat) | FreeOp(block: Block)

  /** The allocator together with the blocks its clients hold. */
  datatype System = System(buddy: Buddy, held: set<Block>)

  ghost predicate SystemInv(s: System)
  {
    Inv(s.buddy, s.held, {}, |s.buddy.level|) && NoFreeSiblings(s.buddy)
  }

  /** Clients free only what they hold; the second half is the hypothesis the merge test needs. */
  ghost predicate Allowed(s: System, op: Op)
    requires SystemInv(s)
  {
    match op
    case AllocOp(_) => true
    case FreeOp(x) => x in s.held && HeldInRange(s, x) && MergesOnlyFree(s.buddy, x.start, x.order)
  }

  ghost predicate HeldInRange(s: System, x: Block)
  {
    x.start < |s.buddy.level| && x.order <= MAX_BUDDY_ORDER
  }

  ghost function Step(s: System, op: Op): System
    requires SystemInv(s) && Allowed(s, op)
  {
    match op
    case AllocOp(k) =>
      InvLists(s.buddy, s.held, {});
      var (b, page) := Alloc(s.buddy, k);
      System(b, if page.Some? then s.held + {Block(page.value, k)} else s.held)
    case FreeOp(x) => System(Free(s.buddy, x.start, x.order), s.held - {x})
  }

  lemma StepKeeps(s: System, op: Op)
    requires SystemInv(s) && Allowed(s, op)
    ensures SystemInv(Step(s, op)) && |Step(s, op).buddy.level| == |s.buddy.level|
  {
    match op
    case AllocOp(k) =>
      AllocKeeps(s.buddy, s.held, k);
      AllocMergesNothing(s.buddy, s.held, k);
    case FreeOp(x) =>
      FreeKeepsPartitionIff(s.buddy, s.held, x.start, x.order);
      assert WellPlaced(x, |s.buddy.level|) by { assert x in FreeBlocks(s.buddy) + s.held + {}; }
      FreeMergesAll(s.buddy, x.start, x.order);
  }

  /** t is reached from s by the operations ops, each allowed where it happens. */
  ghost predicate Reaches(s: System, ops: seq<Op>, t: System)
    decreases |ops|
  {
    if ops == [] then s == t
    else SystemInv(s) && Allowed(s, ops[0]) && Reaches(Step(s, ops[0]), ops[1..], t)
  }

  lemma {:induction false} ReachesKeeps(s: System, ops: seq<Op>, t: System)
    requires SystemInv(s) && Reaches(s, ops, t)
    ensures SystemInv(t) && |t.buddy.level| == |s.buddy.level|
    decreases |ops|
  {
    if ops != [] {
      StepKeeps(s, ops[0]);
      ReachesKeeps(Step(s, ops[0]), ops[1..], t);
    }
  }

  /** Over every run from the initial state: free blocks and held blocks partition the managed
      pages into aligned blocks, each nr_free counts its list, no free siblings stay unmerged,
      and a request fails exactly when no aligned run of that size is free. */
  lemma EveryRun(n: nat, ops: seq<Op>, t: System)
    requires n % 16 == 0 && n < WORD && Reaches(System(InitLoop(n, n), {}), ops, t)
    ensures Partition(FreeBlocks(t.buddy) + t.held, n) && FreeBlocks(t.buddy) !! t.held
    ensures Shape(t.buddy) && NoFreeSiblings(t.buddy)
    ensures forall k :: 0 <= k <= MAX_BUDDY_ORDER ==> t.buddy.nr[k] == |t.buddy.free[k]|
    ensures ListsInRange(t.buddy)
    ensures forall k: nat :: Alloc(t.buddy, k).1.None? <==> !exists s: nat :: FreeRun(t.buddy, s, k)
  {
    InitDone(n);
    ReachesKeeps(System(InitLoop(n, n), {}), ops, t);
    assert FreeBlocks(t.buddy) + t.held + {} == FreeBlocks(t.buddy) + t.held;
    InvLists(t.buddy, t.held, {});
    forall k: nat ensures Alloc(t.buddy, k).1.None? <==> !exists s: nat :: FreeRun(t.buddy, s, k) {
      AllocFailsIff(t.buddy, t.held, k);
    }
  }

  // ----- where the hypothesis fails -----

  /** Two siblings both handed out: freeing one of them merges it with the other, which its
      holder still uses. This always breaks the partition, at every order below the largest. */
  lemma HeldSiblingsBreak(b: Buddy, held: set<Block>, i: nat, k: nat)
    requires Inv(b, held, {}, |b.level|) && k < MAX_BUDDY_ORDER
    requires Block(i, k) in held && Block(Sibling(i, k), k) in held
    ensures i < |b.level|
    ensures !Partition(FreeBlocks(Free(b, i, k)) + (held - {Block(i, k)}), |b.level|)
  {
    FreeKeepsPartitionIff(b, held, i, k);
    FreeBlocksHas(b, Sibling(i, k), k);
  }

  ghost function TwoPages(): System
  {
    InitDone(16);
    var s := System(InitLoop(16, 16), {});
    StepKeeps(s, AllocOp(0));
    Step(Step(s, AllocOp(0)), AllocOp(0))
  }

  lemma FirstPage(b: Buddy)
    requires ListsInRange(b) && b.free == [[], [], [], [], [0]]
    ensures Alloc(b, 0).1 == Some(0) && Alloc(b, 0).0.free[0] == [1]
  {
    Pow2Values();
    var t := Take(b, 4, 0);
    var t3 := Push(t, 8, 3);
    var t2 := Push(t3, 4, 2);
    var t1 := Push(t2, 2, 1);
    var t0 := Push(t1, 1, 0);
    assert FirstOrder(b, 3) == FirstOrder(b, 2) == FirstOrder(b, 1) == FirstOrder(b, 0) == 4;
    assert Split(t, 0, 4, 0) == Split(t3, 0, 3, 0) == Split(t2, 0, 2, 0) == Split(t1, 0, 1, 0) == t0;
    assert t0.free[0] == [1] + t1.free[0];
  }

  lemma OnePageHeld() returns (t: System)
    ensures SystemInv(System(InitLoop(16, 16), {})) && t == Step(System(InitLoop(16, 16), {}), AllocOp(0))
    ensures SystemInv(t) && |t.buddy.level| == 16 && t.held == {Block(0, 0)} && t.buddy.free[0] == [1]
  {
    InitDone(16);
    var s := System(InitLoop(16, 16), {});
    assert TopList(1) == [0] + TopList(0) == [0];
    InvLists(s.buddy, s.held, {});
    FirstPage(s.buddy);
    StepKeeps(s, AllocOp(0));
    t := Step(s, AllocOp(0));
  }

  lemma TwoPagesHeld()
    ensures SystemInv(TwoPages()) && |TwoPages().buddy.level| == 16
    ensures TwoPages().held == {Block(0, 0), Block(1, 0)}
  {
    var t := OnePageHeld();
    InvLists(t.buddy, t.held, {});
    StepKeeps(t, AllocOp(0));
    assert FirstOrder(t.buddy, 0) == 0;
  }

  /** After init_buddy on 16 pages, the first two requests for a single page are answered with
      the siblings 0 and 1; freeing page 0 then hands page 1, still in use, back to the lists. */
  lemma TwoSinglePagesBreak()
    ensures Shape(TwoPages().buddy) && |TwoPages().buddy.level| == 16 && TwoPages().held == {Block(0, 0), Block(1, 0)}
    ensures !Partition(FreeBlocks(Free(TwoPages().buddy, 0, 0)) + {Block(1, 0)}, 16)
  {
    TwoPagesHeld();
    var s := TwoPages();
    assert Sibling(0, 0) == 1 by { Pow2Values(); }
    HeldSiblingsBreak(s.buddy, s.held, 0, 0);
    assert s.held - {Block(0, 0)} == {Block(1, 0)};
  }
}
