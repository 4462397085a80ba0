/** The buddy page allocator of kernel/mm/buddy.c on values: what freeing, allocating and
    initialising compute, and what every run of them keeps.

    Pages are numbered relative to buddy.start_page, and a block is a group of 2^order pages. */
module BuddySpec {
  import opened Bits
  import opened Options

  const MAX_BUDDY_ORDER: nat := 4
  const NO_LEVEL: nat := 0xFFFF_FFFF // bplevel == -1

  /** bplevel of every page; the free lists, head first; the nr_free counters. */
  datatype Buddy = Buddy(level: seq<nat>, free: seq<seq<nat>>, nr: seq<nat>)

  datatype Block = Block(start: nat, order: nat)

  ghost predicate Contains(b: Block, p: int)
  {
    b.start <= p < b.start + Pow2(b.order)
  }

  ghost predicate Disjoint(b: Block, c: Block)
  {
    b.start + Pow2(b.order) <= c.start || c.start + Pow2(c.order) <= b.start
  }

  ghost predicate WellPlaced(b: Block, n: nat)
  {
    b.order <= MAX_BUDDY_ORDER && b.start % Pow2(b.order) == 0 && b.start + Pow2(b.order) <= n
  }

  /** The blocks are aligned, pairwise disjoint, and cover pages 0..n exactly. */
  ghost predicate Partition(blocks: set<Block>, n: nat)
  {
    && (forall b :: b in blocks ==> WellPlaced(b, n))
    && (forall p: nat :: p < n ==> Covered(blocks, p))
    && (forall b, c :: b in blocks && c in blocks && b != c ==> Disjoint(b, c))
  }

  ghost predicate Covered(blocks: set<Block>, p: nat)
  {
    exists b :: b in blocks && Contains(b, p)
  }

  predicate Shape(b: Buddy)
  {
    |b.level| % 16 == 0 && |b.free| == MAX_BUDDY_ORDER + 1 && |b.nr| == MAX_BUDDY_ORDER + 1
  }

  // ----- the operations -----

  /** The neighbour that page i's block of order k can merge with. */
  function Sibling(i: nat, k: nat): nat
  {
    BitFits(i, k);
    if Bit(i, k) == 0 then i + Pow2(k) else i - Pow2(k)
  }

  /** The head of the merged block. */
  function Combined(i: nat, k: nat): nat
  {
    BitFits(i, k);
    if Bit(i, k) == 0 then i else i - Pow2(k)
  }

  /** The XOR and AND of __free_pages compute exactly these. */
  lemma BitwiseSibling(i: nat, k: nat)
    ensures Xor(i, Pow2(k)) == Sibling(i, k) && And(Xor(i, Pow2(k)), i) == Combined(i, k)
  {
    FlipBit(i, k);
    ClearBit(i, k);
  }

  /** s without the first occurrence of x. */
  function Remove(s: seq<nat>, x: nat): seq<nat>
  {
    if s == [] then [] else if s[0] == x then s[1..] else [s[0]] + Remove(s[1..], x)
  }

  /** Page i becomes the head of a free block of order k. */
  function Push(b: Buddy, i: nat, k: nat): Buddy
    requires Shape(b) && i < |b.level| && k <= MAX_BUDDY_ORDER
  {
    Buddy(b.level[i := k], b.free[k := [i] + b.free[k]], b.nr[k := (b.nr[k] + 1) % WORD])
  }

  /** The merging step: the sibling leaves list k and loses its level. */
  function Unlink(b: Buddy, i: nat, k: nat): Buddy
    requires Shape(b) && i < |b.level| && k <= MAX_BUDDY_ORDER
  {
    Buddy(b.level[i := NO_LEVEL], b.free[k := Remove(b.free[k], i)], b.nr[k := (b.nr[k] + WORD - 1) % WORD])
  }

  predicate Merges(b: Buddy, i: nat, k: nat)
    requires Shape(b) && i < |b.level| && k <= MAX_BUDDY_ORDER
  {
    k < MAX_BUDDY_ORDER && (SiblingInRange(i, k, |b.level|); b.level[Sibling(i, k)] == k)
  }

  /** __free_pages(start_page + i, k) */
  function Free(b: Buddy, i: nat, k: nat): (r: Buddy)
    requires Shape(b) && i < |b.level| && k <= MAX_BUDDY_ORDER
    ensures Shape(r) && |r.level| == |b.level|
    decreases MAX_BUDDY_ORDER - k
  {
    if Merges(b, i, k) then
      SiblingInRange(i, k, |b.level|);
      Free(Unlink(b, Sibling(i, k), k), Combined(i, k), k + 1)
    else
      Push(b, i, k)
  }

  /** The first non-empty list of order at least k, or MAX_BUDDY_ORDER + 1. */
  function FirstOrder(b: Buddy, k: nat): (r: nat)
    requires Shape(b)
    ensures k <= r
    ensures r <= MAX_BUDDY_ORDER ==> b.free[r] != []
    ensures forall j :: k <= j < r && j <= MAX_BUDDY_ORDER ==> b.free[j] == []
    decreases MAX_BUDDY_ORDER + 1 - k
  {
    if k > MAX_BUDDY_ORDER || b.free[k] != [] then k else FirstOrder(b, k + 1)
  }

  /** Halving the block (page, cur) down to order k; the upper halves become free. */
  function Split(b: Buddy, page: nat, cur: nat, k: nat): (r: Buddy)
    requires Shape(b) && cur <= MAX_BUDDY_ORDER && page + Pow2(cur) <= |b.level|
    ensures Shape(r) && |r.level| == |b.level|
    decreases cur
  {
    if cur <= k then b else Split(Push(b, page + Pow2(cur - 1), cur - 1), page, cur - 1, k)
  }

  predicate ListsInRange(b: Buddy)
  {
    Shape(b) &&
    forall k, j :: 0 <= k <= MAX_BUDDY_ORDER && 0 <= j < |b.free[k]| ==> b.free[k][j] + Pow2(k) <= |b.level|
  }

  /** Taking the head of list cur out for a request of order k. */
  function Take(b: Buddy, cur: nat, k: nat): Buddy
    requires ListsInRange(b) && cur <= MAX_BUDDY_ORDER && b.free[cur] != []
  {
    Buddy(b.level[b.free[cur][0] := k], b.free[cur := b.free[cur][1..]], b.nr[cur := (b.nr[cur] + WORD - 1) % WORD])
  }

  /** __alloc_pages(k): the new state and the first page of the block, if there is one. */
  function Alloc(b: Buddy, k: nat): (r: (Buddy, Option<nat>))
    requires ListsInRange(b)
    ensures Shape(r.0) && |r.0.level| == |b.level|
  {
    var cur := FirstOrder(b, k);
    if cur > MAX_BUDDY_ORDER then (b, None)
    else (Split(Take(b, cur, k), b.free[cur][0], cur, k), Some(b.free[cur][0]))
  }

  // ----- sibling arithmetic -----

  lemma SiblingInRange(i: nat, k: nat, n: nat)
    requires k < MAX_BUDDY_ORDER && n % 16 == 0 && i < n
    ensures Sibling(i, k) < n
  {
    BitMod(i, k);
    ModBound(i, Pow2(k));
    if Bit(i, k) == 0 { UpInRange(i, k, n); }
  }

  lemma UpInRange(i: nat, k: nat, n: nat)
    requires k < MAX_BUDDY_ORDER && n % 16 == 0 && i < n && i % Pow2(k + 1) < Pow2(k)
    ensures i + Pow2(k) < n
  {
    var m := Pow2(k + 1);
    ModBound(i, m);
    var q := i / m;
    AlignedDown(n, k + 1, 4) by { Pow2Values(); }
    ModUnique((q + 1) * m, m, q + 1, 0);
    AlignedOrder((q + 1) * m, n, m);
  }

  // ----- partitions: merging two siblings and splitting a block keep them -----

  lemma HalfMultiples(q: nat, k: nat)
    ensures (q * Pow2(k + 1)) % Pow2(k + 1) == 0 && (q * Pow2(k + 1)) % Pow2(k) == 0
    ensures (q * Pow2(k + 1) + Pow2(k)) % Pow2(k + 1) == Pow2(k)
    ensures (q * Pow2(k + 1) + Pow2(k)) % Pow2(k) == 0
  {
    assert Pow2(k + 1) == 2 * Pow2(k);
    MultiplesOf(q, Pow2(k));
  }

  lemma MultiplesOf(q: nat, p: nat)
    requires p > 0
    ensures (q * (2 * p)) % (2 * p) == 0 && (q * (2 * p)) % p == 0
    ensures (q * (2 * p) + p) % (2 * p) == p && (q * (2 * p) + p) % p == 0
  {
    var m := q * (2 * p);
    assert m == (2 * q) * p && m + p == (2 * q + 1) * p;
    ModUnique(m, 2 * p, q, 0);
    ModUnique(m, p, 2 * q, 0);
    ModUnique(m + p, 2 * p, q, p);
    ModUnique(m + p, p, 2 * q + 1, 0);
  }

  lemma MergedAligned(i: nat, k: nat)
    requires i % Pow2(k) == 0
    ensures Combined(i, k) % Pow2(k + 1) == 0 && Sibling(i, k) % Pow2(k) == 0
    ensures || (i == Combined(i, k) && Sibling(i, k) == i + Pow2(k))
            || (Sibling(i, k) == Combined(i, k) && i == Sibling(i, k) + Pow2(k))
  {
    BitMod(i, k);
    ModBound(i, Pow2(k + 1));
    HalfMultiples(i / Pow2(k + 1), k);
  }

  lemma MergeBlocks(blocks: set<Block>, n: nat, i: nat, k: nat)
    requires k < MAX_BUDDY_ORDER && Partition(blocks, n)
    requires Block(i, k) in blocks && Block(Sibling(i, k), k) in blocks
    ensures Partition(blocks - {Block(i, k), Block(Sibling(i, k), k)} + {Block(Combined(i, k), k + 1)}, n)
  {
    var x, y, m := Block(i, k), Block(Sibling(i, k), k), Block(Combined(i, k), k + 1);
    var merged := blocks - {x, y} + {m};
    MergedAligned(i, k);
    assert forall p :: Contains(m, p) <==> Contains(x, p) || Contains(y, p);
    forall p: nat | p < n ensures Covered(merged, p) {
      assert Covered(blocks, p);
      var b :| b in blocks && Contains(b, p);
      assert (if b == x || b == y then m else b) in merged;
    }
    forall b | b in blocks - {x, y} ensures Disjoint(b, m) {
      assert Disjoint(b, x) && Disjoint(b, y);
      Pow2Monotone(0, b.order);
      assert Pow2(k + 1) == Pow2(k) + Pow2(k);
    }
  }

  lemma SplitBlocks(blocks: set<Block>, n: nat, i: nat, k: nat)
    requires k < MAX_BUDDY_ORDER && Partition(blocks, n) && Block(i, k + 1) in blocks
    ensures Partition(blocks - {Block(i, k + 1)} + {Block(i, k), Block(i + Pow2(k), k)}, n)
  {
    var x, y, m := Block(i, k), Block(i + Pow2(k), k), Block(i, k + 1);
    var split := blocks - {m} + {x, y};
    assert forall p :: Contains(m, p) <==> Contains(x, p) || Contains(y, p);
    assert WellPlaced(x, n) && WellPlaced(y, n) by {
      assert WellPlaced(m, n);
      HalvesAligned(i, k);
    }
    forall p: nat | p < n ensures Covered(split, p) {
      assert Covered(blocks, p);
      var b :| b in blocks && Contains(b, p);
      assert (if b == m then if Contains(x, p) then x else y else b) in split;
    }
    forall b | b in blocks - {m} ensures Disjoint(b, x) && Disjoint(b, y) && Disjoint(x, b) && Disjoint(y, b) {
      assert Disjoint(b, m);
    }
  }

  lemma HalvesAligned(i: nat, k: nat)
    requires k < MAX_BUDDY_ORDER && i % Pow2(k + 1) == 0
    ensures i % Pow2(k) == 0 && (i + Pow2(k)) % Pow2(k) == 0
    ensures Sibling(i + Pow2(k), k) == i && Sibling(i, k) == i + Pow2(k)
  {
    HalfMultiples(i / Pow2(k + 1), k);
    assert i == i / Pow2(k + 1) * Pow2(k + 1);
    BitFits(i, k);
    BitFits(i + Pow2(k), k);
  }

  // ----- the invariant -----

  ghost predicate NoDup(s: seq<nat>)
  {
    forall i, j :: 0 <= i < j < |s| ==> s[i] != s[j]
  }

  ghost function FreeBlocks(b: Buddy): set<Block>
  {
    set k, j | 0 <= k < |b.free| && 0 <= j < |b.free[k]| :: Block(b.free[k][j], k)
  }

  /** Every list holds distinct pages that carry the list's order, and nr_free counts it. */
  ghost predicate Lists(b: Buddy)
  {
    && Shape(b) && |b.level| < WORD
    && (forall k :: 0 <= k <= MAX_BUDDY_ORDER ==> NoDup(b.free[k]) && b.nr[k] == |b.free[k]|)
    && (forall k, j :: 0 <= k <= MAX_BUDDY_ORDER && 0 <= j < |b.free[k]| ==>
          b.free[k][j] < |b.level| && b.level[b.free[k][j]] == k)
  }

  /** The free blocks, the blocks handed out and the blocks in transit partition the first n
      pages, and the head of every block handed out carries its order too. */
  ghost predicate Inv(b: Buddy, held: set<Block>, moving: set<Block>, n: nat)
  {
    && Lists(b) && n <= |b.level|
    && FreeBlocks(b) !! held && (FreeBlocks(b) + held) !! moving
    && (forall h :: h in held ==> h.start < |b.level| && b.level[h.start] == h.order)
    && Partition(FreeBlocks(b) + held + moving, n)
  }

  /** No two free blocks that could be merged are left unmerged. */
  ghost predicate NoFreeSiblings(b: Buddy)
    requires Shape(b)
  {
    forall k, i :: 0 <= k < MAX_BUDDY_ORDER && i in b.free[k] ==> Sibling(i, k) !in b.free[k]
  }

  // ----- list steps -----

  lemma {:induction false} RemoveFacts(s: seq<nat>, x: nat)
    requires NoDup(s)
    ensures NoDup(Remove(s, x))
    ensures forall y :: y in Remove(s, x) <==> y in s && y != x
    ensures |Remove(s, x)| == if x in s then |s| - 1 else |s|
    ensures x !in s ==> Remove(s, x) == s
  {
    if s != [] {
      var r := s[1..];
      assert s == [s[0]] + r && s[0] !in r;
      if s[0] != x {
        RemoveFacts(r, x);
        RemoveCons(s[0], Remove(r, x));
      }
    }
  }

  lemma RemoveCons(h: nat, t: seq<nat>)
    requires NoDup(t) && h !in t
    ensures NoDup([h] + t) && forall y :: y in [h] + t <==> y == h || y in t
  {
    assert forall j :: 0 <= j < |t| ==> t[j] in t;
  }

  lemma {:induction false} RemoveAt(s: seq<nat>, j: nat)
    requires NoDup(s) && j < |s|
    ensures Remove(s, s[j]) == s[..j] + s[j + 1..]
  {
    if j > 0 {
      RemoveAt(s[1..], j - 1);
      assert s[..j] + s[j + 1..] == [s[0]] + (s[1..][..j - 1] + s[1..][j..]);
    }
  }

  lemma FreeBlocksHas(b: Buddy, i: nat, k: nat)
    ensures Block(i, k) in FreeBlocks(b) <==> k < |b.free| && i in b.free[k]
  {
  }

  lemma UniqueHead(blocks: set<Block>, n: nat, x: Block, y: Block)
    requires Partition(blocks, n) && x in blocks && y in blocks && x.start == y.start
    ensures x == y
  {
    assert x != y ==> Disjoint(x, y);
  }

  lemma PushKeeps(b: Buddy, held: set<Block>, moving: set<Block>, n: nat, i: nat, k: nat)
    requires Inv(b, held, moving, n) && Block(i, k) in moving
    ensures k <= MAX_BUDDY_ORDER && i < |b.level|
    ensures Inv(Push(b, i, k), held, moving - {Block(i, k)}, n)
  {
    var x := Block(i, k);
    var blocks := FreeBlocks(b) + held + moving;
    assert WellPlaced(x, n);
    var r := Push(b, i, k);
    FreeBlocksHas(b, i, k);
    assert FreeBlocks(r) == FreeBlocks(b) + {x} by { PushBlocks(b, i, k); }
    assert FreeBlocks(r) + held + (moving - {x}) == blocks;
    forall h | h in FreeBlocks(b) + held ensures h.start != i {
      if h.start == i { UniqueHead(blocks, n, h, x); }
    }
    PushLists(b, i, k);
  }

  lemma PushBlocks(b: Buddy, i: nat, k: nat)
    requires Shape(b) && i < |b.level| && k <= MAX_BUDDY_ORDER
    ensures FreeBlocks(Push(b, i, k)) == FreeBlocks(b) + {Block(i, k)}
  {
    forall x ensures x in FreeBlocks(Push(b, i, k)) <==> x in FreeBlocks(b) + {Block(i, k)} {
      FreeBlocksHas(b, x.start, x.order);
      FreeBlocksHas(Push(b, i, k), x.start, x.order);
    }
  }

  lemma PushLists(b: Buddy, i: nat, k: nat)
    requires Lists(b) && i < |b.level| && k <= MAX_BUDDY_ORDER
    requires forall h :: h in FreeBlocks(b) ==> h.start != i
    ensures Lists(Push(b, i, k))
  {
    hide FreeBlocks, Below;
    var r := Push(b, i, k);
    var t := [i] + b.free[k];
    forall m, j | 0 <= m <= MAX_BUDDY_ORDER && 0 <= j < |b.free[m]| ensures b.free[m][j] != i {
      FreeBlocksHas(b, b.free[m][j], m);
    }
    PushedDistinct(i, b.free[k], |b.level|);
    assert r.nr[k] == |t|;
  }

  lemma PushedDistinct(i: nat, s: seq<nat>, n: nat)
    requires NoDup(s) && i < n && forall j :: 0 <= j < |s| ==> s[j] < n && s[j] != i
    ensures NoDup([i] + s) && |[i] + s| <= n
  {
    var t := [i] + s;
    assert forall j :: 0 < j < |t| ==> t[j] == s[j - 1];
    DistinctWithin(t, Below(n));
  }

  /** Distinct numbers taken from a set are at most as many as the set has. */
  lemma {:induction false} DistinctWithin(s: seq<nat>, pool: set<nat>)
    requires NoDup(s) && forall j :: 0 <= j < |s| ==> s[j] in pool
    ensures |s| <= |pool|
  {
    if s != [] { DistinctWithin(s[1..], pool - {s[0]}); }
  }

  ghost function Below(n: nat): (r: set<nat>)
    ensures |r| == n && forall x: nat :: x in r <==> x < n
  {
    if n == 0 then {} else var r := Below(n - 1); assert n - 1 !in r; r + {n - 1}
  }

  lemma UnlinkKeeps(b: Buddy, held: set<Block>, moving: set<Block>, n: nat, i: nat, k: nat)
    requires Inv(b, held, moving, n) && k <= MAX_BUDDY_ORDER && i in b.free[k]
    ensures i < |b.level|
    ensures Inv(Unlink(b, i, k), held, moving + {Block(i, k)}, n)
    ensures FreeBlocks(Unlink(b, i, k)) == FreeBlocks(b) - {Block(i, k)}
  {
    var x := Block(i, k);
    var blocks := FreeBlocks(b) + held + moving;
    FreeBlocksHas(b, i, k);
    assert WellPlaced(x, n);
    var r := Unlink(b, i, k);
    RemoveFacts(b.free[k], i);
    forall y ensures y in FreeBlocks(r) <==> y in FreeBlocks(b) - {x} {
      FreeBlocksHas(b, y.start, y.order);
      FreeBlocksHas(r, y.start, y.order);
    }
    assert FreeBlocks(r) + held + (moving + {x}) == blocks;
    forall h | h in held || h in FreeBlocks(r) ensures h.start != i {
      if h.start == i { UniqueHead(blocks, n, h, x); }
    }
    UnlinkLists(b, i, k);
  }

  lemma UnlinkLists(b: Buddy, i: nat, k: nat)
    requires Lists(b) && i < |b.level| && k <= MAX_BUDDY_ORDER && i in b.free[k]
    ensures Lists(Unlink(b, i, k))
  {
    var r := Unlink(b, i, k);
    RemoveFacts(b.free[k], i);
    DistinctWithin(b.free[k], Below(|b.level|));
    assert r.nr[k] == |r.free[k]|;
    forall j | 0 <= j < |r.free[k]| ensures r.free[k][j] < |r.level| && r.level[r.free[k][j]] == k {
      assert r.free[k][j] in b.free[k];
    }
    forall m, j | 0 <= m <= MAX_BUDDY_ORDER && m != k && 0 <= j < |b.free[m]| ensures b.free[m][j] != i {
      assert b.level[b.free[m][j]] == m;
    }
  }

  // ----- freeing -----

  /** Every page the merge test accepts, from (i, k) upward, heads a block that is really on its
      free list. The test itself (kernel/mm/buddy.c:105) looks only at bplevel. */
  predicate MergesOnlyFree(b: Buddy, i: nat, k: nat)
    requires Shape(b) && i < |b.level| && k <= MAX_BUDDY_ORDER
    decreases MAX_BUDDY_ORDER - k
  {
    Merges(b, i, k) ==> Sibling(i, k) in b.free[k] && MergesOnlyFree(b, Combined(i, k), k + 1)
  }

  /** The condition does not change as merging consumes pages inside the growing block. */
  lemma {:induction false} MergesOnlyFreeFrame(b: Buddy, c: Buddy, i: nat, k: nat)
    requires Shape(b) && Shape(c) && |b.level| == |c.level| && i < |b.level| && k <= MAX_BUDDY_ORDER
    requires i % Pow2(k) == 0
    requires forall p :: 0 <= p < |b.level| && !Contains(Block(i, k), p) ==> b.level[p] == c.level[p]
    requires forall m :: k <= m <= MAX_BUDDY_ORDER ==> b.free[m] == c.free[m]
    ensures MergesOnlyFree(b, i, k) <==> MergesOnlyFree(c, i, k)
    decreases MAX_BUDDY_ORDER - k
  {
    if k < MAX_BUDDY_ORDER {
      MergedAligned(i, k);
      SiblingInRange(i, k, |b.level|);
      assert forall p :: Contains(Block(i, k), p) ==> Contains(Block(Combined(i, k), k + 1), p);
      if Merges(b, i, k) { MergesOnlyFreeFrame(b, c, Combined(i, k), k + 1); }
    }
  }

  /** One merging step: the block in transit grows by its free sibling. */
  lemma MergeStep(b: Buddy, held: set<Block>, i: nat, k: nat, n: nat)
    requires Inv(b, held, {Block(i, k)}, n) && k < MAX_BUDDY_ORDER && Sibling(i, k) in b.free[k]
    ensures i % Pow2(k) == 0 && i < |b.level| && Sibling(i, k) < |b.level|
    ensures Inv(Unlink(b, Sibling(i, k), k), held, {Block(Combined(i, k), k + 1)}, n)
  {
    var x, y, m := Block(i, k), Block(Sibling(i, k), k), Block(Combined(i, k), k + 1);
    assert WellPlaced(x, n);
    UnlinkKeeps(b, held, {x}, n, y.start, k);
    var c := Unlink(b, y.start, k);
    var rest := FreeBlocks(c) + held;
    MergedAligned(i, k);
    assert rest + ({x} + {y}) - {x, y} + {m} == rest + {m} by {
      assert x !in rest && y !in rest;
    }
    MergeBlocks(rest + ({x} + {y}), n, i, k);
    assert m !in rest by {
      assert m in rest ==> Disjoint(m, x);
    }
  }

  lemma {:induction false} FreeKeeps(b: Buddy, held: set<Block>, i: nat, k: nat, n: nat)
    requires Inv(b, held, {Block(i, k)}, n) && i < |b.level| && k <= MAX_BUDDY_ORDER
    requires MergesOnlyFree(b, i, k)
    ensures Inv(Free(b, i, k), held, {}, n)
    decreases MAX_BUDDY_ORDER - k
  {
    if Merges(b, i, k) {
      MergeStep(b, held, i, k, n);
      var s, c := Sibling(i, k), Combined(i, k);
      MergedAligned(i, k);
      MergesOnlyFreeFrame(b, Unlink(b, s, k), c, k + 1);
      FreeKeeps(Unlink(b, s, k), held, c, k + 1, n);
    } else {
      PushKeeps(b, held, {Block(i, k)}, n, i, k);
      assert {Block(i, k)} - {Block(i, k)} == {};
    }
  }

  lemma SiblingInvolution(i: nat, k: nat)
    ensures Sibling(Sibling(i, k), k) == i
  {
    var p := Pow2(k);
    ModBound(i, 2 * p);
    var q, r := i / (2 * p), i % (2 * p);
    BitFits(i, k);
    BitFits(Sibling(i, k), k);
    if r < p { ModUnique(i + p, 2 * p, q, r + p); } else { ModUnique(i - p, 2 * p, q, r - p); }
  }

  lemma PushMergesNothing(b: Buddy, i: nat, k: nat)
    requires Shape(b) && NoFreeSiblings(b) && i < |b.level| && k <= MAX_BUDDY_ORDER
    requires k < MAX_BUDDY_ORDER ==> Sibling(i, k) !in b.free[k]
    ensures NoFreeSiblings(Push(b, i, k))
  {
    var r := Push(b, i, k);
    if k < MAX_BUDDY_ORDER {
      forall j | j in r.free[k] ensures Sibling(j, k) !in r.free[k] {
        SiblingInvolution(j, k);
        assert Sibling(j, k) != j by { ModBound(j, Pow2(k + 1)); }
      }
    }
  }

  /** Freeing leaves no free siblings unmerged, if there were none. */
  lemma {:induction false} FreeMergesAll(b: Buddy, i: nat, k: nat)
    requires Lists(b) && NoFreeSiblings(b) && i < |b.level| && k <= MAX_BUDDY_ORDER
    requires MergesOnlyFree(b, i, k) && i % Pow2(k) == 0
    ensures NoFreeSiblings(Free(b, i, k))
    decreases MAX_BUDDY_ORDER - k
  {
    if Merges(b, i, k) {
      var s, c := Sibling(i, k), Combined(i, k);
      SiblingInRange(i, k, |b.level|);
      MergedAligned(i, k);
      MergesOnlyFreeFrame(b, Unlink(b, s, k), c, k + 1);
      UnlinkLists(b, s, k);
      RemoveFacts(b.free[k], s);
      FreeMergesAll(Unlink(b, s, k), c, k + 1);
    } else {
      if k < MAX_BUDDY_ORDER { SiblingInRange(i, k, |b.level|); }
      PushMergesNothing(b, i, k);
    }
  }

  /** The block that freeing (i, k) finally puts on a list. */
  function Freed(b: Buddy, i: nat, k: nat): Block
    requires Shape(b) && i < |b.level| && k <= MAX_BUDDY_ORDER
    decreases MAX_BUDDY_ORDER - k
  {
    if Merges(b, i, k) then
      SiblingInRange(i, k, |b.level|);
      Freed(Unlink(b, Sibling(i, k), k), Combined(i, k), k + 1)
    else Block(i, k)
  }

  lemma {:induction false} FreedContains(b: Buddy, i: nat, k: nat)
    requires Shape(b) && i < |b.level| && k <= MAX_BUDDY_ORDER && i % Pow2(k) == 0
    ensures Freed(b, i, k) in FreeBlocks(Free(b, i, k)) && Freed(b, i, k).order >= k
    ensures forall p :: Contains(Block(i, k), p) ==> Contains(Freed(b, i, k), p)
    decreases MAX_BUDDY_ORDER - k
  {
    if Merges(b, i, k) {
      SiblingInRange(i, k, |b.level|);
      MergedAligned(i, k);
      FreedContains(Unlink(b, Sibling(i, k), k), Combined(i, k), k + 1);
      assert forall p :: Contains(Block(i, k), p) ==> Contains(Block(Combined(i, k), k + 1), p);
    } else {
      FreeBlocksHas(Push(b, i, k), i, k);
      assert Push(b, i, k).free[k][0] == i;
    }
  }

  lemma AlignedInside(s: nat, o: nat, x: nat, k: nat)
    requires s % Pow2(o) == 0 && x % Pow2(k) == 0 && s <= x < s + Pow2(o)
    ensures o <= k ==> s == x
    ensures o > k ==> s <= Combined(x, k) && Combined(x, k) + Pow2(k + 1) <= s + Pow2(o)
  {
    if o <= k {
      AlignedDown(x, o, k);
      AlignedOrder(x, s, Pow2(o));
    } else {
      var m, c := Pow2(k + 1), Combined(x, k);
      MergedAligned(x, k);
      AlignedDown(s, k + 1, o);
      AlignedOrder(s, c, m);
      Pow2Aligned(k + 1, o);
      AlignedSum(s, Pow2(o), m);
      ModUnique(m, m, 1, 0);
      AlignedSum(c, m, m);
      AlignedOrder(c + m, s + Pow2(o), m);
    }
  }

  /** If the test accepts a sibling that is on no free list, that sibling heads a block of the
      same order that has been handed out. */
  lemma MergedSiblingIsHeld(b: Buddy, held: set<Block>, i: nat, k: nat)
    requires Inv(b, held, {Block(i, k)}, |b.level|) && i < |b.level| && Merges(b, i, k)
    requires Sibling(i, k) !in b.free[k]
    ensures Block(Sibling(i, k), k) in held
  {
    var s := Sibling(i, k);
    var blocks := FreeBlocks(b) + held + {Block(i, k)};
    SiblingInRange(i, k, |b.level|);
    assert WellPlaced(Block(i, k), |b.level|);
    MergedAligned(i, k);
    assert Covered(blocks, s);
    var h :| h in blocks && Contains(h, s);
    assert WellPlaced(h, |b.level|);
    AlignedInside(h.start, h.order, s, k);
    SiblingInvolution(i, k);
    MergedAligned(s, k);
    assert h != Block(i, k);
    assert Disjoint(h, Block(i, k));
    assert h.start == s;
    if h in FreeBlocks(b) { FreeBlocksHas(b, s, h.order); }
  }

  lemma {:induction false} UnsafeFreeOverlaps(b: Buddy, held: set<Block>, i: nat, k: nat) returns (h: Block)
    requires Inv(b, held, {Block(i, k)}, |b.level|) && i < |b.level| && k <= MAX_BUDDY_ORDER
    requires !MergesOnlyFree(b, i, k)
    ensures h in held && h.start < |b.level| && h.order < Freed(b, i, k).order
    ensures forall p :: Contains(h, p) ==> Contains(Freed(b, i, k), p)
    decreases MAX_BUDDY_ORDER - k
  {
    hide Inv, Sibling, Combined;
    var s, c := Sibling(i, k), Combined(i, k);
    MovingPlaced(b, held, Block(i, k));
    SiblingInRange(i, k, |b.level|);
    MergedAligned(i, k);
    if s in b.free[k] {
      MergeStep(b, held, i, k, |b.level|);
      MergesOnlyFreeFrame(b, Unlink(b, s, k), c, k + 1);
      h := UnsafeFreeOverlaps(Unlink(b, s, k), held, c, k + 1);
    } else {
      MergedSiblingIsHeld(b, held, i, k);
      h := Block(s, k);
      FreedContains(Unlink(b, s, k), c, k + 1);
      assert forall p :: Contains(h, p) ==> Contains(Block(c, k + 1), p);
    }
  }

  /** Freeing a handed-out block keeps the partition exactly when the merge test never accepts
      a sibling that is itself handed out. */
  lemma FreeKeepsPartitionIff(b: Buddy, held: set<Block>, i: nat, k: nat)
    requires Inv(b, held, {}, |b.level|) && Block(i, k) in held
    ensures i < |b.level| && k <= MAX_BUDDY_ORDER
    ensures Partition(FreeBlocks(Free(b, i, k)) + (held - {Block(i, k)}), |b.level|) <==> MergesOnlyFree(b, i, k)
    ensures MergesOnlyFree(b, i, k) ==> Inv(Free(b, i, k), held - {Block(i, k)}, {}, |b.level|)
  {
    var x := Block(i, k);
    var rest := held - {x};
    assert WellPlaced(x, |b.level|);
    assert FreeBlocks(b) + rest + {x} == FreeBlocks(b) + held + {};
    assert Inv(b, rest, {x}, |b.level|);
    var freed := FreeBlocks(Free(b, i, k));
    if MergesOnlyFree(b, i, k) {
      FreeKeeps(b, rest, i, k, |b.level|);
      assert freed + rest + {} == freed + rest;
    } else {
      var h := UnsafeFreeOverlaps(b, rest, i, k);
      FreedContains(b, i, k);
      assert Contains(h, h.start);
      assert !Disjoint(h, Freed(b, i, k));
    }
  }

  // ----- allocating -----

  lemma InvLists(b: Buddy, held: set<Block>, moving: set<Block>)
    requires Inv(b, held, moving, |b.level|)
    ensures ListsInRange(b)
  {
    forall k, j | 0 <= k <= MAX_BUDDY_ORDER && 0 <= j < |b.free[k]| ensures b.free[k][j] + Pow2(k) <= |b.level| {
      assert Block(b.free[k][j], k) in FreeBlocks(b) + held + moving;
    }
  }

  /** The level of a page in transit is free to change. */
  lemma RelevelMoving(b: Buddy, held: set<Block>, moving: set<Block>, n: nat, x: Block, v: nat)
    requires Inv(b, held, moving, n) && x in moving && x.start < |b.level|
    ensures Inv(b.(level := b.level[x.start := v]), held, moving, n)
  {
    var r := b.(level := b.level[x.start := v]);
    var blocks := FreeBlocks(b) + held + moving;
    assert FreeBlocks(r) == FreeBlocks(b);
    forall h | h in FreeBlocks(b) + held ensures h.start != x.start {
      if h.start == x.start { UniqueHead(blocks, n, h, x); }
    }
    forall m, j | 0 <= m <= MAX_BUDDY_ORDER && 0 <= j < |b.free[m]| ensures b.free[m][j] != x.start {
      assert Block(b.free[m][j], m) in FreeBlocks(b);
    }
  }

  lemma TakeKeeps(b: Buddy, held: set<Block>, cur: nat, k: nat)
    requires Inv(b, held, {}, |b.level|) && cur <= MAX_BUDDY_ORDER && b.free[cur] != []
    ensures ListsInRange(b)
    ensures Inv(Take(b, cur, k), held, {Block(b.free[cur][0], cur)}, |b.level|)
  {
    InvLists(b, held, {});
    var p := b.free[cur][0];
    var x := Block(p, cur);
    UnlinkKeeps(b, held, {}, |b.level|, p, cur);
    assert {} + {x} == {x};
    RelevelMoving(Unlink(b, p, cur), held, {x}, |b.level|, x, k);
    assert b.level[p := NO_LEVEL][p := k] == b.level[p := k];
  }

  /** Among other blocks, the two halves of a split block take its place. */
  lemma SplitAmong(rest: set<Block>, n: nat, page: nat, k: nat)
    requires Partition(rest + {Block(page, k + 1)}, n) && Block(page, k + 1) !in rest
    ensures page + Pow2(k + 1) <= n && page % Pow2(k + 1) == 0
    ensures var x, y := Block(page, k), Block(page + Pow2(k), k);
      Partition(rest + {x, y}, n) && x !in rest && y !in rest && x != y
  {
    var m, x, y := Block(page, k + 1), Block(page, k), Block(page + Pow2(k), k);
    assert WellPlaced(m, n);
    SplitBlocks(rest + {m}, n, page, k);
    assert rest + {m} - {m} + {x, y} == rest + {x, y};
    assert x in rest ==> Disjoint(x, m);
    assert y in rest ==> Disjoint(y, m);
  }

  lemma SplitStep(b: Buddy, held: set<Block>, page: nat, k: nat, n: nat)
    requires Inv(b, held, {Block(page, k + 1)}, n) && k < MAX_BUDDY_ORDER
    ensures page + Pow2(k + 1) <= n && page % Pow2(k + 1) == 0
    ensures Inv(Push(b, page + Pow2(k), k), held, {Block(page, k)}, n)
  {
    hide Partition, FreeBlocks, Lists, Push;
    var x, y := Block(page, k), Block(page + Pow2(k), k);
    SplitAmong(FreeBlocks(b) + held, n, page, k);
    PushKeeps(b, held, {x, y}, n, y.start, k);
    assert {x, y} - {y} == {x};
  }

  lemma {:induction false} SplitKeeps(b: Buddy, held: set<Block>, page: nat, cur: nat, k: nat)
    requires Inv(b, held, {Block(page, cur)}, |b.level|) && k <= cur <= MAX_BUDDY_ORDER
    ensures page + Pow2(cur) <= |b.level|
    ensures Inv(Split(b, page, cur, k), held, {Block(page, k)}, |b.level|)
    ensures Split(b, page, cur, k).level[page] == b.level[page]
    decreases cur
  {
    hide Inv;
    MovingPlaced(b, held, Block(page, cur));
    if cur > k {
      SplitStep(b, held, page, cur - 1, |b.level|);
      SplitKeeps(Push(b, page + Pow2(cur - 1), cur - 1), held, page, cur - 1, k);
    }
  }

  /** A successful allocation hands out an aligned block of the requested order that overlaps
      nothing handed out before; a failed one changes nothing. */
  lemma AllocKeeps(b: Buddy, held: set<Block>, k: nat)
    requires Inv(b, held, {}, |b.level|)
    ensures ListsInRange(b)
    ensures Alloc(b, k).1.None? ==> Alloc(b, k).0 == b
    ensures Alloc(b, k).1.Some? ==>
              var x := Block(Alloc(b, k).1.value, k);
              && Inv(Alloc(b, k).0, held + {x}, {}, |b.level|)
              && x !in held && forall h :: h in held ==> Disjoint(h, x)
  {
    InvLists(b, held, {});
    var cur := FirstOrder(b, k);
    if cur <= MAX_BUDDY_ORDER {
      var p := b.free[cur][0];
      var x := Block(p, k);
      TakeKeeps(b, held, cur, k);
      var t := Take(b, cur, k);
      SplitKeeps(t, held, p, cur, k);
      var r := Split(t, p, cur, k);
      assert WellPlaced(x, |b.level|);
      assert FreeBlocks(r) + (held + {x}) + {} == FreeBlocks(r) + held + {x};
    }
  }

  lemma SplitStepMergesNothing(b: Buddy, held: set<Block>, page: nat, k: nat)
    requires Inv(b, held, {Block(page, k + 1)}, |b.level|) && k < MAX_BUDDY_ORDER && NoFreeSiblings(b)
    ensures page + Pow2(k + 1) <= |b.level| && NoFreeSiblings(Push(b, page + Pow2(k), k))
  {
    hide Bit;
    SplitStep(b, held, page, k, |b.level|);
    HalvesAligned(page, k);
    FreeBlocksHas(Push(b, page + Pow2(k), k), page, k);
    PushMergesNothing(b, page + Pow2(k), k);
  }

  lemma MovingPlaced(b: Buddy, held: set<Block>, x: Block)
    requires Inv(b, held, {x}, |b.level|)
    ensures Shape(b) && WellPlaced(x, |b.level|)
  {
  }

  lemma {:induction false} SplitMergesNothing(b: Buddy, held: set<Block>, page: nat, cur: nat, k: nat)
    requires Inv(b, held, {Block(page, cur)}, |b.level|) && k <= cur <= MAX_BUDDY_ORDER && NoFreeSiblings(b)
    ensures page + Pow2(cur) <= |b.level| && NoFreeSiblings(Split(b, page, cur, k))
    decreases cur
  {
    hide Inv, NoFreeSiblings;
    MovingPlaced(b, held, Block(page, cur));
    if cur > k {
      SplitStep(b, held, page, cur - 1, |b.level|);
      SplitStepMergesNothing(b, held, page, cur - 1);
      SplitMergesNothing(Push(b, page + Pow2(cur - 1), cur - 1), held, page, cur - 1, k);
    }
  }

  lemma AllocMergesNothing(b: Buddy, held: set<Block>, k: nat)
    requires Inv(b, held, {}, |b.level|) && NoFreeSiblings(b)
    ensures ListsInRange(b) && NoFreeSiblings(Alloc(b, k).0)
  {
    InvLists(b, held, {});
    var cur := FirstOrder(b, k);
    if cur <= MAX_BUDDY_ORDER {
      TakeKeeps(b, held, cur, k);
      SplitMergesNothing(Take(b, cur, k), held, b.free[cur][0], cur, k);
    }
  }

  /** A run of 2^k free pages that is aligned lies inside a single free block. */
  lemma {:induction false} FreeRunInBlock(b: Buddy, held: set<Block>, s: nat, k: nat) returns (x: Block)
    requires Inv(b, held, {}, |b.level|) && NoFreeSiblings(b) && WellPlaced(Block(s, k), |b.level|)
    requires forall p: nat :: Contains(Block(s, k), p) ==> Covered(FreeBlocks(b), p)
    ensures x in FreeBlocks(b) && k <= x.order <= MAX_BUDDY_ORDER && x.start <= s
        && s + Pow2(k) <= x.start + Pow2(x.order)
    decreases k
  {
    if k == 0 {
      assert Contains(Block(s, k), s);
      x :| x in FreeBlocks(b) && Contains(x, s);
      FreeBlockPlaced(b, held, x);
    } else {
      var h := Pow2(k - 1);
      HalvesAligned(s, k - 1);
      assert forall p :: Contains(Block(s, k - 1), p) || Contains(Block(s + h, k - 1), p) ==> Contains(Block(s, k), p);
      x := FreeRunInBlock(b, held, s, k - 1);
      var y := FreeRunInBlock(b, held, s + h, k - 1);
      var second := FreeHalves(b, held, s, k - 1, x, y);
      if second { x := y; }
    }
  }

  /** Free blocks around the two halves of an aligned run: one of them contains both halves,
      for otherwise they would be unmerged siblings. */
  lemma FreeHalves(b: Buddy, held: set<Block>, s: nat, k: nat, x: Block, y: Block) returns (second: bool)
    requires Inv(b, held, {}, |b.level|) && NoFreeSiblings(b) && k < MAX_BUDDY_ORDER && s % Pow2(k + 1) == 0
    requires x in FreeBlocks(b) && x.order >= k && x.start <= s && s + Pow2(k) <= x.start + Pow2(x.order)
    requires y in FreeBlocks(b) && y.order >= k && y.start <= s + Pow2(k)
    requires s + Pow2(k + 1) <= y.start + Pow2(y.order)
    ensures var z := if second then y else x;
      k + 1 <= z.order <= MAX_BUDDY_ORDER && z.start <= s && s + Pow2(k + 1) <= z.start + Pow2(z.order)
  {
    HalvesAligned(s, k);
    FreeBlockPlaced(b, held, x);
    FreeBlockPlaced(b, held, y);
    AlignedInside(x.start, x.order, s, k);
    AlignedInside(y.start, y.order, s + Pow2(k), k);
    FreeBlocksHas(b, s, k);
    FreeBlocksHas(b, s + Pow2(k), k);
    second := x.order == k;
  }

  lemma FreeBlockPlaced(b: Buddy, held: set<Block>, x: Block)
    requires Inv(b, held, {}, |b.level|) && x in FreeBlocks(b)
    ensures WellPlaced(x, |b.level|)
  {
    assert x in FreeBlocks(b) + held + {};
  }

  /** Allocation is complete: it fails exactly when no aligned run of 2^k pages is free. */
  lemma AllocFailsIff(b: Buddy, held: set<Block>, k: nat)
    requires Inv(b, held, {}, |b.level|) && NoFreeSiblings(b)
    ensures ListsInRange(b)
    ensures Alloc(b, k).1.None? <==>
            !exists s: nat :: FreeRun(b, s, k)
  {
    InvLists(b, held, {});
    var cur := FirstOrder(b, k);
    if cur <= MAX_BUDDY_ORDER {
      var s := b.free[cur][0];
      var x := Block(s, cur);
      FreeBlocksHas(b, s, cur);
      assert x in FreeBlocks(b) + held + {};
      assert WellPlaced(x, |b.level|);
      AlignedDown(s, k, cur);
      Pow2Monotone(k, cur);
      forall p: nat | Contains(Block(s, k), p) ensures Covered(FreeBlocks(b), p) { assert Contains(x, p); }
      assert FreeRun(b, s, k);
    } else if s: nat :| FreeRun(b, s, k) {
      var x := FreeRunInBlock(b, held, s, k);
      FreeBlocksHas(b, x.start, x.order);
    }
  }

  /** A request takes the head of the first non-empty list from its order on. The halves that are not
      needed go to the lists below, one to each order from the one requested: page + 2^j to list j. Counters
      and recorded orders follow, and all else stays. */
  lemma AllocExact(b: Buddy, k: nat, cur: nat, i: nat)
    requires ListsInRange(b) && k <= cur <= 4 && b.free[cur] != [] && forall j :: k <= j < cur ==> b.free[j] == []
    ensures var (r, page) := Alloc(b, k);
      && page == Some(b.free[cur][0])
      && (i <= 4 ==>
            && r.free[i] == (if i == cur then b.free[i][1..] else if k <= i < cur then [page.value + Pow2(i)]
                             else b.free[i])
            && r.nr[i] == (if i == cur then (b.nr[i] + WORD - 1) % WORD else if k <= i < cur then (b.nr[i] + 1) % WORD
                           else b.nr[i]))
      && r.level[page.value] == k
      && (k <= i < cur ==> page.value + Pow2(i) < |r.level| && r.level[page.value + Pow2(i)] == i)
  {
    hide Split, Pow2;
    assert FirstOrder(b, k) == cur;
    var t, page := Take(b, cur, k), b.free[cur][0];
    if i <= MAX_BUDDY_ORDER { SplitLists(t, page, cur, k, i); }
    SplitLevels(t, page, cur, k, i);
  }

  lemma {:induction false} SplitLists(b: Buddy, page: nat, cur: nat, k: nat, i: nat)
    requires Shape(b) && cur <= MAX_BUDDY_ORDER && page + Pow2(cur) <= |b.level| && i <= MAX_BUDDY_ORDER
    ensures var r := Split(b, page, cur, k);
      && r.free[i] == (if k <= i < cur then [page + Pow2(i)] + b.free[i] else b.free[i])
      && r.nr[i] == (if k <= i < cur then (b.nr[i] + 1) % WORD else b.nr[i])
    decreases cur
  {
    hide Split;
    SplitOnce(b, page, cur, k);
    if cur > k {
      SplitLists(Push(b, page + Pow2(cur - 1), cur - 1), page, cur - 1, k, i);
    }
  }

  lemma SplitOnce(b: Buddy, page: nat, cur: nat, k: nat)
    requires Shape(b) && cur <= MAX_BUDDY_ORDER && page + Pow2(cur) <= |b.level|
    ensures cur > k ==> page + Pow2(cur - 1) < |b.level| && page + Pow2(cur - 1) + Pow2(cur - 1) <= |b.level|
    ensures Split(b, page, cur, k) ==
            if cur <= k then b else Split(Push(b, page + Pow2(cur - 1), cur - 1), page, cur - 1, k)
  {
  }

  lemma {:induction false} SplitLevels(b: Buddy, page: nat, cur: nat, k: nat, i: nat)
    requires Shape(b) && cur <= MAX_BUDDY_ORDER && page + Pow2(cur) <= |b.level|
    ensures var r := Split(b, page, cur, k);
      && r.level[page] == b.level[page]
      && (k <= i < cur ==> page + Pow2(i) < |r.level| && r.level[page + Pow2(i)] == i)
    decreases cur
  {
    hide Split;
    SplitOnce(b, page, cur, k);
    if cur > k {
      var c := Push(b, page + Pow2(cur - 1), cur - 1);
      SplitLevels(c, page, cur - 1, k, i);
      SplitKeepsLevel(c, page, cur - 1, k, page + Pow2(cur - 1));
    }
  }

  lemma {:induction false} SplitKeepsLevel(b: Buddy, page: nat, cur: nat, k: nat, q: nat)
    requires Shape(b) && cur <= MAX_BUDDY_ORDER && page + Pow2(cur) <= |b.level| && page + Pow2(cur) <= q < |b.level|
    ensures Split(b, page, cur, k).level[q] == b.level[q]
    decreases cur
  {
    hide Split;
    SplitOnce(b, page, cur, k);
    if cur > k { SplitKeepsLevel(Push(b, page + Pow2(cur - 1), cur - 1), page, cur - 1, k, q); }
  }

  /** A merge with the upper sibling leaves that page without an order. */
  lemma MergedLevel(b: Buddy, i: nat, k: nat)
    requires Shape(b) && i < |b.level| && k < MAX_BUDDY_ORDER && i % Pow2(k + 1) == 0 && Merges(b, i, k)
    ensures i + Pow2(k) < |b.level| && Free(b, i, k).level[i + Pow2(k)] == 0xFFFF_FFFF
  {
    SiblingInRange(i, k, |b.level|);
    HalvesAligned(i, k);
    MergedAligned(i, k);
    HalfMultiples(i / Pow2(k + 1), k);
    ModBound(i, Pow2(k + 1));
    FreeKeepsLevel(Unlink(b, i + Pow2(k), k), i, k + 1, i + Pow2(k));
  }

  /** Freeing an aligned block of order k changes no order recorded at pages that are not so aligned. */
  lemma {:induction false} FreeKeepsLevel(b: Buddy, i: nat, k: nat, q: nat)
    requires Shape(b) && i < |b.level| && k <= MAX_BUDDY_ORDER && i % Pow2(k) == 0
    requires q < |b.level| && q % Pow2(k) != 0
    ensures Free(b, i, k).level[q] == b.level[q]
    decreases MAX_BUDDY_ORDER - k
  {
    if Merges(b, i, k) {
      SiblingInRange(i, k, |b.level|);
      MergedAligned(i, k);
      if q % Pow2(k + 1) == 0 { AlignedDown(q, k, k + 1); }
      FreeKeepsLevel(Unlink(b, Sibling(i, k), k), Combined(i, k), k + 1, q);
    }
  }

  ghost predicate FreeRun(b: Buddy, s: nat, k: nat)
  {
    WellPlaced(Block(s, k), |b.level|) && forall p: nat :: Contains(Block(s, k), p) ==> Covered(FreeBlocks(b), p)
  }
}
