/** The buddy allocator of kernel/mm/buddy.c as the code keeps it: page structures whose
    embedded list nodes form the five free lists, updated in place. */
module BuddySystem {
  import opened Bits
  import opened IntrusiveList
  import opened BuddySpec
  import opened Options
  import opened BuddyRuns

  class Allocator {
    const nodes: seq<ListHead<nat>> // &start_page[i].list
    const heads: seq<ListHead<nat>> // &freelist[k].free_head
    const level: array<nat>         // start_page[i].bplevel
    const nrFree: array<nat>        // freelist[k].nr_free
    ghost var free: seq<seq<nat>>   // the pages on each list

    /** The nodes are different objects, each embedded in the page of its index. */
    ghost predicate Layout()
    {
      && |heads| == MAX_BUDDY_ORDER + 1
      && (forall i :: 0 <= i < |nodes| ==> nodes[i].item == i)
      && (forall k :: 0 <= k < |heads| ==> heads[k] !in nodes)
      && (forall j, k :: 0 <= j < k < |heads| ==> heads[j] != heads[k])
    }

    ghost predicate InRange(s: seq<nat>)
    {
      forall j :: 0 <= j < |s| ==> s[j] < |nodes|
    }

    /** The rings are the lists, and every page on no list is on its own. */
    ghost predicate Links()
      reads this, nodes, heads
    {
      && Layout() && |free| == MAX_BUDDY_ORDER + 1
      && (forall k :: 0 <= k < |free| ==> InRange(free[k]))
      && (forall k :: 0 <= k < |free| ==> Ring(heads[k], NodesOf(free[k])))
      && (forall p :: 0 <= p < |nodes| && !Listed(p) ==> nodes[p].Alone())
    }

    ghost predicate Valid()
      reads this, nodes, heads, level
    {
      && Links() && |free| == MAX_BUDDY_ORDER + 1
      && level.Length == |nodes| && |nodes| % 16 == 0 && |nodes| < WORD
      && nrFree.Length == MAX_BUDDY_ORDER + 1 && level != nrFree
      && (forall k, j :: 0 <= k < |free| && 0 <= j < |free[k]| ==>
            level[free[k][j]] == k && free[k][j] % Pow2(k) == 0)
    }

    /** init_pages and the head initialisation of init_buddy, for n managed pages. */
    constructor (n: nat)
      requires n % 16 == 0 && n < WORD
      ensures Valid() && State() == Empty(n) && |nodes| == n
      ensures State() == Buddy(seq(n, _ => 0xFFFF_FFFF), [[], [], [], [], []], [0, 0, 0, 0, 0])
      ensures fresh(nodes) && fresh(heads) && fresh(level) && fresh(nrFree)
    {
      hide Links;
      var pages := NewNodes(0, n);
      var anchors := NewNodes(n, MAX_BUDDY_ORDER + 1);
      nodes, heads := pages, anchors;
      level := new nat[n](_ => NO_LEVEL);
      nrFree := new nat[MAX_BUDDY_ORDER + 1](_ => 0);
      free := [[], [], [], [], []];
      new;
      AloneLinks();
      assert nrFree[..] == [0, 0, 0, 0, 0];
    }

    lemma AloneLinks()
      requires |heads| == MAX_BUDDY_ORDER + 1 && free == [[], [], [], [], []]
      requires forall i :: 0 <= i < |nodes| ==> nodes[i].item == i && nodes[i].Alone()
      requires forall k :: 0 <= k < |heads| ==> heads[k].item == |nodes| + k && heads[k].Alone()
      ensures Links()
    {
      forall k | 0 <= k < |free| ensures Ring(heads[k], NodesOf(free[k])) { assert heads[k].Alone(); }
    }

    static method NewNodes(from: nat, count: nat) returns (r: seq<ListHead<nat>>)
      ensures fresh(r) && |r| == count
      ensures forall i :: 0 <= i < count ==> r[i].item == from + i && r[i].Alone()
    {
      r := [];
      while |r| < count
        invariant |r| <= count && fresh(r)
        invariant forall i :: 0 <= i < |r| ==> r[i].item == from + i && r[i].Alone()
      {
        var node := new ListHead<nat>(from + |r|);
        r := r + [node];
      }
    }

    ghost predicate Listed(p: nat)
      reads this
    {
      exists k :: 0 <= k < |free| && p in free[k]
    }

    ghost function NodesOf(s: seq<nat>): (r: seq<ListHead<nat>>)
      requires InRange(s)
      ensures |r| == |s| && forall j :: 0 <= j < |s| ==> r[j] == nodes[s[j]]
    {
      seq(|s|, j requires 0 <= j < |s| => nodes[s[j]])
    }

    ghost function State(): Buddy
      reads this, level, nrFree
    {
      Buddy(level[..], free, nrFree[..])
    }

    lemma ListFacts(k: nat)
      requires Links() && k < |free|
      ensures NoDup(free[k])
    {
      var s := free[k];
      forall i, j | 0 <= i < j < |s| ensures s[i] != s[j] {
        assert NodesOf(s)[i] != NodesOf(s)[j];
      }
    }

    lemma NodesOfRemove(s: seq<nat>, j: nat)
      requires NoDup(s) && j < |s| && InRange(s)
      ensures InRange(Remove(s, s[j]))
      ensures NodesOf(Remove(s, s[j])) == NodesOf(s)[..j] + NodesOf(s)[j + 1..]
    {
      hide Remove, NodesOf, NoDup;
      RemoveAt(s, j);
      var t, r := s[..j] + s[j + 1..], NodesOf(s);
      forall x | 0 <= x < |t| ensures t[x] < |nodes| { assert t[x] == if x < j then s[x] else s[x + 1]; }
      forall x | 0 <= x < |t| ensures NodesOf(t)[x] == (r[..j] + r[j + 1..])[x] {
        assert t[x] == if x < j then s[x] else s[x + 1];
      }
    }

    /** The nodes of different lists are different. */
    lemma ListsApart(k: nat, m: nat)
      requires Valid() && k < |free| && m < |free| && k != m
      ensures heads[m] !in NodesOf(free[k]) && heads[m] != heads[k]
      ensures forall x :: x in NodesOf(free[m]) ==> x !in NodesOf(free[k]) && x != heads[k]
    {
      forall x | x in NodesOf(free[k]) ensures x in nodes && x.item < level.Length && level[x.item] == k {
      }
      forall x | x in NodesOf(free[m]) ensures x in nodes && x.item < level.Length && level[x.item] == m {
      }
    }

    ghost predicate Touched(x: ListHead<nat>, i: nat, k: nat)
      requires Links() && k < |free| && i < |nodes|
      reads this, nodes, heads
    {
      x == nodes[i] || x == heads[k] || (x in NodesOf(free[k]) && x in nodes)
    }

    /** What taking page i off list k touches, and what it leaves. */
    lemma DetachFacts(i: nat, k: nat) returns (j: nat)
      requires Valid() && k <= MAX_BUDDY_ORDER && i < |nodes| && level[i] == k
      ensures i in free[k] ==> j < |free[k]| && NodesOf(free[k])[j] == nodes[i] && !nodes[i].Alone()
      ensures i !in free[k] ==> nodes[i].Alone() && nodes[i] !in NodesOf(free[k])
      ensures Touched(nodes[i].prev, i, k) && Touched(nodes[i].next, i, k)
      ensures forall x :: x in Remove(free[k], i) <==> x in free[k] && x != i
      ensures InRange(Remove(free[k], i))
      ensures NodesOf(Remove(free[k], i)) ==
                if i in free[k] then NodesOf(free[k])[..j] + NodesOf(free[k])[j + 1..] else NodesOf(free[k])
    {
      hide Ring, Distinct, At, NoDup, Remove;
      var s := free[k];
      ListFacts(k);
      RemoveFacts(s, i);
      j := 0;
      if i in s {
        j :| j < |s| && s[j] == i;
        Neighbours(heads[k], NodesOf(s), j);
        NodesOfRemove(s, j);
      } else {
        assert !Listed(i);
      }
    }

    /** The nodes of the other lists, and the pages on no list, are outside ring k. */
    lemma OthersApart(i: nat, k: nat)
      requires Valid() && k <= MAX_BUDDY_ORDER && i < |nodes| && level[i] == k
      ensures forall m :: 0 <= m < |free| && m != k ==>
          heads[m] != nodes[i] && heads[m] != heads[k] && heads[m] !in NodesOf(free[k])
      ensures forall m, x :: 0 <= m < |free| && m != k && x in NodesOf(free[m]) ==>
                x != nodes[i] && x != heads[k] && x !in NodesOf(free[k])
      ensures forall p :: 0 <= p < |nodes| && p !in free[k] ==> nodes[p] !in NodesOf(free[k]) && nodes[p] != heads[k]
    {
      hide Ring, Distinct, At, NoDup;
      forall m | 0 <= m < |free| && m != k
        ensures heads[m] != nodes[i] && heads[m] != heads[k] && heads[m] !in NodesOf(free[k])
        ensures forall x :: x in NodesOf(free[m]) ==> x != nodes[i] && x != heads[k] && x !in NodesOf(free[k])
      {
        ListsApart(k, m);
        forall x | x in NodesOf(free[m]) ensures x.item < level.Length && level[x.item] == m { }
      }
    }

    lemma Relinked(was: seq<seq<nat>>, k: nat)
      requires Layout() && |free| == |was| == MAX_BUDDY_ORDER + 1 && k < |was| && free == was[k := free[k]]
      requires forall m :: 0 <= m < |free| && m != k ==> InRange(was[m]) && Ring(heads[m], NodesOf(was[m]))
      requires InRange(free[k]) && Ring(heads[k], NodesOf(free[k]))
      requires forall p :: 0 <= p < |nodes| && !Listed(p) ==> nodes[p].Alone()
      ensures Links()
    {
      hide Ring, Distinct, At, NoDup;
    }

    /** Page i leaves list k, if it is there; the other lists stay as they are. */
    method Detach(i: nat, k: nat)
      requires Valid() && k <= MAX_BUDDY_ORDER && i < |nodes| && level[i] == k
      modifies this`free, nodes, heads
      ensures Links() && !Listed(i)
      ensures free == old(free)[k := Remove(old(free)[k], i)]
    {
      hide Ring, Distinct, At, NoDup, Remove;
      ghost var was := free;
      ghost var j := DetachFacts(i, k);
      OthersApart(i, k);
      ListDelInit(nodes[i], heads[k], NodesOf(was[k]), j);
      free := was[k := Remove(was[k], i)];
      forall p | 0 <= p < |nodes| && !Listed(p) ensures nodes[p].Alone() {
        if p != i {
          assert p !in free[k];
          assert forall m :: 0 <= m < |was| && m != k ==> was[m] == free[m];
        }
      }
      assert !Listed(i) by { assert forall m :: 0 <= m < |was| && m != k ==> was[m] == free[m]; }
      Relinked(was, k);
    }

    /** Page i, on no list, becomes the first node of list k. */
    method Attach(i: nat, k: nat)
      requires Valid() && k <= MAX_BUDDY_ORDER && i < |nodes| && !Listed(i)
      requires level[i] == k && i % Pow2(k) == 0
      modifies this`free, nodes, heads
      ensures Valid() && free == old(free)[k := [i] + old(free)[k]]
    {
      hide Ring, Distinct, At, NoDup;
      ghost var was := free;
      OthersApart(i, k);
      FirstTouched(k);
      ListAdd(nodes[i], heads[k], NodesOf(was[k]));
      free := was[k := [i] + was[k]];
      assert NodesOf(free[k]) == [nodes[i]] + NodesOf(was[k]);
      forall p | 0 <= p < |nodes| && !Listed(p) ensures nodes[p].Alone() {
        assert p !in free[k] && forall m :: 0 <= m < |was| && m != k ==> was[m] == free[m];
        assert p != i by { assert free[k][0] == i; }
        assert p !in was[k] by { assert forall x :: x in was[k] ==> x in free[k]; }
      }
      Relinked(was, k);
    }

    lemma FirstTouched(k: nat)
      requires Links() && k < |free|
      ensures heads[k].next == heads[k] || heads[k].next in NodesOf(free[k])
    {
      assert At(heads[k], NodesOf(free[k]), 0).next == At(heads[k], NodesOf(free[k]), 1);
    }

    /** set_bplevel, list_add and ++nr_free. */
    method PushPage(i: nat, k: nat)
      requires Valid() && k <= MAX_BUDDY_ORDER && i < |nodes| && !Listed(i) && i % Pow2(k) == 0
      modifies this`free, nodes, heads, level, nrFree
      ensures Valid() && State() == Push(old(State()), i, k)
      ensures forall p: nat :: p != i && old(!Listed(p)) ==> !Listed(p)
    {
      hide Ring, Links;
      ghost var was := free;
      Unlisted(i);
      level[i] := k;
      Attach(i, k);
      nrFree[k] := (nrFree[k] + 1) % WORD;
      forall p: nat | p != i && old(!Listed(p)) ensures !Listed(p) {
        assert forall m :: 0 <= m < |was| ==> p !in was[m];
      }
    }

    lemma Unlisted(i: nat)
      requires !Listed(i)
      ensures forall k, j :: 0 <= k < |free| && 0 <= j < |free[k]| ==> free[k][j] != i
    {
    }

    /** The merging step of __free_pages: list_del_init, --nr_free and set_bplevel(-1). */
    method UnlinkPage(i: nat, k: nat)
      requires Valid() && k <= MAX_BUDDY_ORDER && i < |nodes| && level[i] == k
      modifies this`free, nodes, heads, level, nrFree
      ensures Valid() && !Listed(i) && State() == Unlink(old(State()), i, k)
      ensures forall p: nat :: old(!Listed(p)) ==> !Listed(p)
    {
      hide Ring, Links, Remove;
      ghost var was := free;
      ghost var j := DetachFacts(i, k);
      Detach(i, k);
      forall j | 0 <= j < |free[k]|
        ensures level[free[k][j]] == k && free[k][j] % Pow2(k) == 0
      {
        assert free[k][j] in was[k];
      }
      nrFree[k] := (nrFree[k] + WORD - 1) % WORD;
      level[i] := NO_LEVEL;
      Unlisted(i);
      assert forall m :: 0 <= m < |was| && m != k ==> free[m] == was[m];
      forall p: nat | old(!Listed(p)) ensures !Listed(p) { assert forall m :: 0 <= m < |was| ==> p !in was[m]; }
    }

    lemma InRangeAligned(i: nat, k: nat)
      requires Valid() && k <= MAX_BUDDY_ORDER && i < |nodes| && i % Pow2(k) == 0
      ensures i + Pow2(k) <= |nodes|
    {
      hide Links;
      AlignedDown(|nodes|, k, 4) by { Pow2Values(); }
      ModUnique(Pow2(k), Pow2(k), 1, 0);
      AlignedSum(i, Pow2(k), Pow2(k));
      AlignedOrder(i + Pow2(k), |nodes|, Pow2(k));
    }

    lemma StateInRange()
      requires Valid()
      ensures ListsInRange(State())
    {
      hide Ring;
      forall k, j | 0 <= k <= MAX_BUDDY_ORDER && 0 <= j < |free[k]| ensures free[k][j] + Pow2(k) <= |nodes| {
        assert InRange(free[k]);
        InRangeAligned(free[k][j], k);
      }
    }

    /** __free_pages */
    method FreePages(page: nat, bplevel: nat)
      requires Valid() && page < |nodes| && bplevel <= MAX_BUDDY_ORDER
      requires !Listed(page) && page % Pow2(bplevel) == 0
      modifies this`free, nodes, heads, level, nrFree
      ensures Valid() && State() == Free(old(State()), page, bplevel)
    {
      hide Links, Unlink, Push, Sibling, Combined, Listed;
      var pageIdx: nat := page;
      var order: nat := bplevel;
      while order < MAX_BUDDY_ORDER
        invariant Valid() && pageIdx < |nodes| && order <= MAX_BUDDY_ORDER
        invariant !Listed(pageIdx) && pageIdx % Pow2(order) == 0
        invariant Free(State(), pageIdx, order) == Free(old(State()), page, bplevel)
      {
        var group := Xor(pageIdx, Pow2(order));
        BitwiseSibling(pageIdx, order);
        SiblingInRange(pageIdx, order, |nodes|);
        MergedAligned(pageIdx, order);
        if level[group] != order {
          break;
        }
        assert Merges(State(), pageIdx, order);
        UnlinkPage(group, order);
        pageIdx := And(group, pageIdx);
        order := order + 1;
      }
      assert !Merges(State(), pageIdx, order);
      PushPage(pageIdx, order);
    }

    /** list_del_init on the first page of list k. */
    method DetachFirst(page: nat, k: nat)
      requires Valid() && k <= MAX_BUDDY_ORDER && free[k] != [] && page == free[k][0] < |nodes|
      modifies this`free, nodes, heads
      ensures Links() && !Listed(page) && free == old(free)[k := old(free)[k][1..]]
      ensures forall m, j :: 0 <= m < |free| && 0 <= j < |free[m]| ==>
                free[m][j] != page && level[free[m][j]] == m && free[m][j] % Pow2(m) == 0
      ensures forall p: nat :: old(!Listed(p)) ==> !Listed(p)
    {
      hide Ring, Links, Pow2;
      ghost var was := free;
      ghost var j := DetachFacts(page, k);
      Detach(page, k);
      assert free[k] == was[k][1..];
      assert forall m :: 0 <= m < |was| && m != k ==> free[m] == was[m];
      forall j | 0 <= j < |free[k]|
        ensures level[free[k][j]] == k && free[k][j] % Pow2(k) == 0
      {
        assert free[k][j] in was[k];
      }
      Unlisted(page);
      forall p: nat | old(!Listed(p)) ensures !Listed(p) { assert forall m :: 0 <= m < |was| ==> p !in was[m]; }
    }

    /** Taking the first page off list k for a request of order bplevel. */
    method TakePage(page: nat, k: nat, bplevel: nat)
      requires Valid() && k <= MAX_BUDDY_ORDER && free[k] != [] && page == free[k][0] < |nodes|
      requires ListsInRange(State())
      modifies this`free, nodes, heads, level, nrFree
      ensures Valid() && !Listed(page) && State() == Take(old(State()), k, bplevel)
      ensures forall p: nat :: old(!Listed(p)) ==> !Listed(p)
    {
      hide Ring, Links, Pow2, Listed;
      LinksBounds();
      DetachFirst(page, k);
      LinksBounds();
      level[page] := bplevel;
      nrFree[k] := (nrFree[k] + WORD - 1) % WORD;
    }

    lemma LinksBounds()
      requires Links()
      ensures |free| == MAX_BUDDY_ORDER + 1
      ensures forall k, j :: 0 <= k < |free| && 0 <= j < |free[k]| ==> free[k][j] < |nodes|
    {
      hide Ring;
    }

    /** Free blocks do not overlap: what every allowed run keeps (see BuddyRuns.EveryRun). */
    ghost predicate FreeApart()
      reads this, level, nrFree
    {
      forall x, y :: x in FreeBlocks(State()) && y in FreeBlocks(State()) && x != y ==> Disjoint(x, y)
    }

    lemma OnlyHeadListed(k: nat)
      requires Valid() && FreeApart() && k <= MAX_BUDDY_ORDER && free[k] != []
      ensures forall x: nat :: free[k][0] < x < free[k][0] + Pow2(k) ==> !Listed(x)
    {
      hide Ring, NodesOf, Alloc, Free;
      forall x: nat | free[k][0] < x < free[k][0] + Pow2(k) ensures !Listed(x) {
        forall m | 0 <= m < |free| ensures x !in free[m] {
          if x in free[m] { ListedApart(free[k][0], k, x, m); }
        }
      }
    }

    /** Two listed pages head blocks that do not meet. */
    lemma ListedApart(p: nat, k: nat, q: nat, m: nat)
      requires FreeApart() && k < |free| && m < |free| <= MAX_BUDDY_ORDER + 1 && p in free[k] && q in free[m] && p != q
      ensures !(p < q < p + Pow2(k))
    {
      var b := State();
      FreeBlocksHas(b, p, k);
      FreeBlocksHas(b, q, m);
      assert Disjoint(Block(p, k), Block(q, m));
      assert Pow2(m) > 0;
    }

    /** The search of __alloc_pages for a non-empty list. */
    method FindOrder(bplevel: nat) returns (order: nat)
      requires Valid()
      ensures order == FirstOrder(State(), bplevel)
    {
      hide Links;
      order := bplevel;
      while order <= MAX_BUDDY_ORDER
        invariant bplevel <= order && FirstOrder(State(), order) == FirstOrder(State(), bplevel)
        decreases MAX_BUDDY_ORDER + 1 - order
      {
        HeadReady(order);
        var empty := ListEmpty(heads[order], NodesOf(free[order]));
        if !empty {
          break;
        }
        order := order + 1;
      }
    }

    /** The splitting loop of __alloc_pages. */
    method SplitBlock(page: nat, currentOrder: nat, bplevel: nat)
      requires Valid() && bplevel <= currentOrder <= MAX_BUDDY_ORDER
      requires !Listed(page) && page % Pow2(currentOrder) == 0 && page + Pow2(currentOrder) <= |nodes|
      requires forall x: nat :: page <= x < page + Pow2(currentOrder) ==> !Listed(x)
      modifies this`free, nodes, heads, level, nrFree
      ensures Valid() && State() == Split(old(State()), page, currentOrder, bplevel)
      ensures !Listed(page)
    {
      hide Links, Push, Listed;
      var order: nat := currentOrder;
      while order > bplevel
        invariant Valid() && bplevel <= order <= currentOrder
        invariant page % Pow2(order) == 0 && page + Pow2(order) <= |nodes|
        invariant forall x: nat :: page <= x < page + Pow2(order) ==> !Listed(x)
        invariant Split(State(), page, order, bplevel) == Split(old(State()), page, currentOrder, bplevel)
      {
        order := order - 1;
        HalvesAligned(page, order);
        var buddyPage := page + Pow2(order);
        PushPage(buddyPage, order);
      }
    }

    /** __alloc_pages */
    method AllocPages(bplevel: nat) returns (r: Option<nat>)
      requires Valid() && FreeApart()
      modifies this`free, nodes, heads, level, nrFree
      ensures Valid() && ListsInRange(old(State()))
      ensures (State(), r) == Alloc(old(State()), bplevel)
      ensures r.Some? ==> r.value < |nodes| && !Listed(r.value)
    {
      hide Links, Push, Split, FirstOrder, Listed;
      StateInRange();
      var order := FindOrder(bplevel);
      if order > MAX_BUDDY_ORDER {
        return None;
      }
      HeadReady(order);
      OnlyHeadListed(order);
      var page: nat := heads[order].next.item;
      TakePage(page, order, bplevel);
      SplitBlock(page, order, bplevel);
      r := Some(page);
    }

    lemma HeadReady(k: nat)
      requires Valid() && k <= MAX_BUDDY_ORDER
      ensures k < |heads| && InRange(free[k]) && Ring(heads[k], NodesOf(free[k]))
      ensures free[k] != [] ==> heads[k].next.item == free[k][0] < |nodes|
      ensures free[k] != [] ==> free[k][0] % Pow2(k) == 0 && free[k][0] + Pow2(k) <= |nodes|
    {
      assert At(heads[k], NodesOf(free[k]), 0).next == At(heads[k], NodesOf(free[k]), 1);
      if free[k] != [] { InRangeAligned(free[k][0], k); }
    }

    /** The freeing loop of init_buddy. */
    method InitBuddy()
      requires Valid() && State() == Empty(|nodes|)
      modifies this`free, nodes, heads, level, nrFree
      ensures Valid() && State() == InitLoop(|nodes|, |nodes|)
    {
      hide Links, Listed, Free;
      var i: nat := 0;
      while i < |nodes|
        invariant Valid() && i <= |nodes| && State() == InitLoop(|nodes|, i)
      {
        NotYetListed(i);
        ModUnique(i, 1, i, 0);
        FreePages(i, 0);
        i := i + 1;
      }
    }

    lemma NotYetListed(i: nat)
      requires Valid() && i < |nodes| && State() == InitLoop(|nodes|, i)
      ensures !Listed(i)
    {
      hide Links, InitLoop;
      InitCounter(|nodes|, i);
      assert Counting(State(), i);
      assert forall x :: x in FreeBlocks(State()) ==> x in FreeBlocks(State()) + {} + {} && WellPlaced(x, i);
      if Listed(i) {
        var m: nat :| m < |free| && i in free[m];
        FreeBlocksHas(State(), i, m);
      }
    }
  }
}
