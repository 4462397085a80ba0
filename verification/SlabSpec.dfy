/** Slab pages of kernel/mm/slab.c on values: the chain of free objects threaded through a page's
    memory, and allocation from it. Sizes are multiples of four, so memory is kept in words. */
module SlabSpec {

  const PAGE: nat := 4096
  const WORDS: nat := 1024

  /** A page of memory: its 32-bit address and its words. */
  datatype Page = Page(base: nat, words: seq<nat>)

  predicate PageOk(p: Page)
  {
    p.base > 0 && p.base % PAGE == 0 && p.base + PAGE <= 0x1_0000_0000 && |p.words| == WORDS
  }

  /** objsize as init_each_slab rounds it. */
  function RoundedSize(size: nat): (r: nat)
    ensures r % 4 == 0 && size <= r < size + 4
  {
    size + 3 - (size + 3) % 4
  }

  /** cache->size in words: the object and one word more. */
  function Stride(objsize: nat): (w: nat)
    ensures w > 0
  {
    objsize / 4 + 1
  }

  /** The number of turns of the loop in format_slabpage. */
  function Slots(objsize: nat): nat
  {
    WORDS / Stride(objsize)
  }

  /** Objects are not empty, and the last link of the chain still lies inside the page. */
  predicate Fits(objsize: nat)
  {
    objsize > 0 && objsize % 4 == 0 && Slots(objsize) >= 1 && Slots(objsize) * Stride(objsize) < WORDS
  }

  /** In bytes: a slot fits the page and leaves at least a word. */
  lemma FitsInBytes(objsize: nat)
    requires objsize > 0 && objsize % 4 == 0
    ensures Slots(objsize) == PAGE / (objsize + 4)
    ensures Fits(objsize) <==> objsize + 4 <= PAGE && PAGE % (objsize + 4) >= 4
  {
    var w := Stride(objsize);
    assert objsize + 4 == 4 * w;
    QuotientUnique(PAGE, 4 * w, WORDS / w, 4 * (WORDS % w));
    if w > WORDS { QuotientUnique(WORDS, w, 0, WORDS); }
  }

  lemma QuotientUnique(a: nat, b: nat, q: nat, r: nat)
    requires b > 0 && r < b && a == q * b + r
    ensures a / b == q && a % b == r
  {
    var d := a / b - q;
    assert d * b == r - a % b;
    assert d >= 1 ==> d * b >= b;
    assert d <= -1 ==> d * b + b <= 0;
  }

  /** The address of object k: k slots behind the page's start. */
  function Obj(base: nat, w: nat, k: nat): nat
  {
    base + 4 * (k * w)
  }

  lemma {:induction false} Later(i: nat, k: nat, w: nat)
    requires i < k
    ensures i * w + w <= k * w
    decreases k
  {
    assert k * w == (k - 1) * w + w;
    if i < k - 1 { Later(i, k - 1, w); }
  }

  /** The word at an address of the page. */
  function Load(p: Page, addr: nat): nat
    requires |p.words| == WORDS && p.base <= addr < p.base + PAGE
  {
    p.words[(addr - p.base) / 4]
  }

  /** is_bound(val, 1 << PAGE_SHIFT) */
  predicate Bound(val: nat)
  {
    val % PAGE == 0
  }

  // ----- format_slabpage -----

  /** The links after n turns of the loop: the word in front of slot i holds that slot's address. */
  function Link(words: seq<nat>, base: nat, w: nat, n: nat): (r: seq<nat>)
    requires n * w < |words|
    ensures |r| == |words|
    decreases n
  {
    if n == 0 then words
    else
      Later(n - 1, n, w);
      Link(words, base, w, n - 1)[n * w := Obj(base, w, n)]
  }

  /** The page as format_slabpage leaves it: the chain closed by the page's own address, and the
      header with the end of the chain and no object in use. */
  function Format(p: Page, objsize: nat): (r: Page)
    requires |p.words| == WORDS && Fits(objsize)
    ensures r.base == p.base && |r.words| == WORDS
  {
    var w, n := Stride(objsize), Slots(objsize);
    var end := Obj(p.base, w, n);
    p.(words := Link(p.words, p.base, w, n)[n * w := end - end % PAGE][0 := end][1 := 0])
  }

  /** From object k on, the chain is intact: each link holds its own address, the last the page's. */
  ghost predicate Chained(p: Page, objsize: nat, k: nat)
    requires |p.words| == WORDS && Fits(objsize)
  {
    var w, n := Stride(objsize), Slots(objsize);
    && (forall i: nat :: k <= i < n ==> WordAt(p, w, i) == Obj(p.base, w, i))
    && WordAt(p, w, n) == p.base
  }

  /** The word i slots behind the page's start. */
  function WordAt(p: Page, w: nat, i: nat): nat
  {
    if i * w < |p.words| then p.words[i * w] else 0
  }

  lemma {:induction false} LinkAt(words: seq<nat>, base: nat, w: nat, n: nat, i: nat)
    requires n * w < |words| && 1 <= i <= n && i * w < |words|
    ensures Link(words, base, w, n)[i * w] == Obj(base, w, i)
    decreases n
  {
    if i < n {
      Later(n - 1, n, w);
      Later(i, n, w);
      LinkAt(words, base, w, n - 1, i);
      assert w > 0 ==> i * w != n * w;
    }
  }

  /** Slot i of a cache lies inside the page, behind the two header words. */
  lemma SlotInside(objsize: nat, i: nat)
    requires Fits(objsize) && 1 <= i <= Slots(objsize)
    ensures 2 <= i * Stride(objsize) < WORDS
  {
    var w, n := Stride(objsize), Slots(objsize);
    assert w >= 2;
    Later(0, i, w);
    if i < n { Later(i, n, w); }
  }

  lemma {:induction false} LinkElsewhere(words: seq<nat>, base: nat, w: nat, n: nat, a: nat)
    requires n * w < |words| && a < |words| && w > 0 && (a % w != 0 || a == 0 || a / w > n)
    ensures Link(words, base, w, n)[a] == words[a]
    decreases n
  {
    if n > 0 {
      Later(n - 1, n, w);
      QuotientUnique(n * w, w, n, 0);
      LinkElsewhere(words, base, w, n - 1, a);
    }
  }

  /** A formatted page word by word, with w words to a slot: the header, then in the first word of every
      slot but the first its own address, and the page's address behind the last slot; all other words
      stay. */
  lemma FormattedWords(p: Page, objsize: nat, a: nat)
    requires PageOk(p) && Fits(objsize) && a < 1024
    ensures var w := objsize / 4 + 1;
      var end := 1024 / w * w;
      Format(p, objsize).words[a] ==
      if a == 0 then p.base + 4 * end
      else if a == 1 then 0
      else if a == end then p.base
      else if a < end && a % w == 0 then p.base + 4 * a
      else p.words[a]
  {
    var w, n := objsize / 4 + 1, 1024 / (objsize / 4 + 1);
    assert w == Stride(objsize) && n == Slots(objsize);
    var end := n * w;
    FormatLinks(p, objsize, a, end);
    hide Slots, Fits, Link, Format, PageOk, Stride;
    if a > 0 { LinkWord(p.words, p.base, w, n, a); }
  }

  lemma LinkWord(words: seq<nat>, base: nat, w: nat, n: nat, a: nat)
    requires n * w < |words| && 0 < a < |words| && w > 0
    ensures Link(words, base, w, n)[a] == if a <= n * w && a % w == 0 then base + 4 * a else words[a]
  {
    var i := a / w;
    assert a == i * w + a % w;
    QuotientOrder(i, n, w);
    if a % w == 0 && i <= n {
      LinkAt(words, base, w, n, i);
    } else {
      LinkElsewhere(words, base, w, n, a);
    }
  }

  lemma QuotientOrder(i: nat, n: nat, w: nat)
    requires w > 0
    ensures i <= n <==> i * w <= n * w
    ensures i == n <==> i * w == n * w
  {
    if i < n { Later(i, n, w); }
    if n < i { Later(n, i, w); }
  }

  lemma FormatLinks(p: Page, objsize: nat, a: nat, end: nat)
    requires PageOk(p) && Fits(objsize) && a < WORDS && end == Slots(objsize) * Stride(objsize)
    ensures 2 <= end < WORDS
    ensures Format(p, objsize).words[a] ==
            if a == 0 then p.base + 4 * end else if a == 1 then 0 else if a == end then p.base
            else Link(p.words, p.base, Stride(objsize), Slots(objsize))[a]
  {
    SlotInside(objsize, Slots(objsize));
    InPage(p.base, 4 * end);
    hide Slots, Link, Fits;
  }

  /** A formatted page is chained from its first object. */
  lemma FormatChained(p: Page, objsize: nat)
    requires PageOk(p) && Fits(objsize)
    ensures Chained(Format(p, objsize), objsize, 1)
  {
    var w, n := Stride(objsize), Slots(objsize);
    var q, end := Format(p, objsize), Obj(p.base, w, n);
    forall i: nat | 1 <= i <= n ensures WordAt(q, w, i) == if i < n then Obj(p.base, w, i) else p.base {
      SlotInside(objsize, i);
      LinkAt(p.words, p.base, w, n, i);
      if i < n {
        Later(i, n, w);
      } else {
        InPage(p.base, 4 * (n * w));
      }
    }
  }

  lemma InPage(base: nat, off: nat)
    requires base % PAGE == 0 && off < PAGE
    ensures (base + off) - (base + off) % PAGE == base
  {
  }

  // ----- slab_alloc -----

  /** cpu.page with cpu.freeobj, or no page. */
  datatype Cpu = NoPage | OnPage(page: Page, freeobj: nat)

  /** full keeps the addresses of the full pages, oldest first. */
  datatype Cache = Cache(objsize: nat, cpu: Cpu, full: seq<nat>)

  /** The page header: where the chain ends, and how many objects are handed out (nr_objs). */
  ghost predicate Header(p: Page, objsize: nat, used: int)
    requires |p.words| == WORDS
  {
    p.words[0] == Obj(p.base, Stride(objsize), Slots(objsize)) && p.words[1] == used
  }

  /** The current page is chained from object k, the next to hand out. */
  ghost predicate At(c: Cache, k: nat)
  {
    c.cpu.OnPage? && PageOk(c.cpu.page) && Fits(c.objsize) && 1 <= k <= Slots(c.objsize) &&
    c.cpu.freeobj == Obj(c.cpu.page.base, Stride(c.objsize), k) && Chained(c.cpu.page, c.objsize, k) &&
    Header(c.cpu.page, c.objsize, k - 1)
  }

  /** What allocation keeps: no page, or a page with an object left. */
  ghost predicate Inv(c: Cache)
  {
    Fits(c.objsize) && (c.cpu.OnPage? ==> exists k: nat :: At(c, k) && k < Slots(c.objsize))
  }

  /** The addresses stay inside the current page. */
  predicate Reachable(c: Cache)
  {
    c.cpu.OnPage? ==>
      && |c.cpu.page.words| == WORDS
      && c.cpu.page.base <= c.cpu.freeobj < c.cpu.page.base + PAGE
      && (!Bound(Load(c.cpu.page, c.cpu.freeobj)) ==>
            c.cpu.page.base <= Load(c.cpu.page, c.cpu.freeobj) + c.objsize + 4 < c.cpu.page.base + PAGE)
  }

  /** Handing out the next object of the current page. */
  function Take(c: Cache): (r: Cache)
    requires Reachable(c) && c.cpu.OnPage? && !Bound(Load(c.cpu.page, c.cpu.freeobj))
    ensures r.objsize == c.objsize
  {
    var p := c.cpu.page;
    var obj := Load(p, c.cpu.freeobj);
    var freeobj := obj + c.objsize + 4;
    var slabp := Load(p, freeobj);
    var q := p.(words := p.words[1 := p.words[1] + 1]);
    if Bound(slabp) then c.(cpu := NoPage, full := c.full + [p.base]) else c.(cpu := OnPage(q, freeobj))
  }

  /** Putting a page from the buddy system under the cache. */
  function Refill(c: Cache, p: Page): (r: Cache)
    requires |p.words| == WORDS && Fits(c.objsize)
    ensures r.objsize == c.objsize
  {
    var q := Format(p, c.objsize);
    c.(cpu := OnPage(q, Obj(p.base, Stride(c.objsize), 1)),
       full := if c.cpu.OnPage? then c.full + [c.cpu.page.base] else c.full)
  }

  lemma {:induction false} AtReachable(c: Cache, k: nat)
    requires At(c, k)
    ensures Reachable(c)
    ensures Load(c.cpu.page, c.cpu.freeobj) == if k < Slots(c.objsize) then c.cpu.freeobj else c.cpu.page.base
    ensures Bound(Load(c.cpu.page, c.cpu.freeobj)) <==> k == Slots(c.objsize)
    ensures k < Slots(c.objsize) ==>
              c.cpu.freeobj + c.objsize + 4 == Obj(c.cpu.page.base, Stride(c.objsize), k + 1) < c.cpu.page.base + PAGE
  {
    hide Slots;
    var p, w, n := c.cpu.page, Stride(c.objsize), Slots(c.objsize);
    SlotInside(c.objsize, k);
    LoadSlot(p, w, k);
    if k < n {
      SlotInside(c.objsize, k + 1);
      assert (k + 1) * w == k * w + w;
      NotBound(p.base, 4 * (k * w));
    }
  }

  lemma LoadSlot(p: Page, w: nat, k: nat)
    requires |p.words| == WORDS && k * w < WORDS
    ensures Load(p, Obj(p.base, w, k)) == WordAt(p, w, k)
  {
  }

  lemma NotBound(base: nat, off: nat)
    requires base % PAGE == 0 && 0 < off < PAGE
    ensures !Bound(base + off)
  {
  }

  /** Refilling puts the cache at object 1. */
  lemma RefillAt(c: Cache, p: Page)
    requires Fits(c.objsize) && PageOk(p)
    ensures At(Refill(c, p), 1)
  {
    FormatChained(p, c.objsize);
    SlotInside(c.objsize, Slots(c.objsize));
  }

  /** Handing out object k moves on to object k + 1, or moves the page to the full list behind the
      last. */
  lemma TakeAt(c: Cache, k: nat)
    requires At(c, k) && k < Slots(c.objsize)
    ensures Reachable(c) && !Bound(Load(c.cpu.page, c.cpu.freeobj))
    ensures k + 1 < Slots(c.objsize) ==> At(Take(c), k + 1) && Take(c).full == c.full
    ensures k + 1 < Slots(c.objsize) ==> Take(c).cpu.page.base == c.cpu.page.base
    ensures k + 1 == Slots(c.objsize) ==> Take(c).cpu == NoPage && Take(c).full == c.full + [c.cpu.page.base]
  {
    hide Slots;
    var p, w, n := c.cpu.page, Stride(c.objsize), Slots(c.objsize);
    AtReachable(c, k);
    SlotInside(c.objsize, k + 1);
    LoadSlot(p, w, k + 1);
    var q := p.(words := p.words[1 := p.words[1] + 1]);
    if k + 1 < n {
      NotBound(p.base, 4 * ((k + 1) * w));
      assert Take(c).cpu == OnPage(q, Obj(p.base, w, k + 1));
      forall i: nat | k + 1 <= i <= n ensures WordAt(q, w, i) == WordAt(p, w, i) { SlotInside(c.objsize, i); }
    }
  }

  /** The outcome of slab_alloc: an object, or the endless loop when the buddy system has no page
      left. */
  datatype Result = Object(addr: nat, cache: Cache, supply: seq<Page>) | OutOfMemory(cache: Cache)

  ghost predicate SupplyOk(supply: seq<Page>)
  {
    forall i :: 0 <= i < |supply| ==> PageOk(supply[i])
  }

  /** slab_alloc, with the pages __alloc_pages(0) is going to return. No page is on the partial list
      as long as nothing is freed. */
  function Alloc(c: Cache, supply: seq<Page>): Result
    requires Fits(c.objsize) && Reachable(c) && forall i :: 0 <= i < |supply| ==> PageOk(supply[i])
    decreases |supply|
  {
    if c.cpu.OnPage? && !Bound(Load(c.cpu.page, c.cpu.freeobj)) then
      Object(Load(c.cpu.page, c.cpu.freeobj), Take(c), supply)
    else if supply == [] then OutOfMemory(c)
    else
      RefillAt(c, supply[0]);
      AtReachable(Refill(c, supply[0]), 1);
      Alloc(Refill(c, supply[0]), supply[1..])
  }

  // ----- what is handed out -----

  /** Objects k, k + 1, ... of a page. */
  function ObjectsFrom(base: nat, objsize: nat, k: nat): (s: seq<nat>)
    ensures |s| == if k < Slots(objsize) then Slots(objsize) - k else 0
    ensures forall i :: 0 <= i < |s| ==> s[i] == Obj(base, Stride(objsize), k + i)
    decreases Slots(objsize) - k
  {
    if k >= Slots(objsize) then [] else [Obj(base, Stride(objsize), k)] + ObjectsFrom(base, objsize, k + 1)
  }

  /** The objects of the pages to come, page by page. */
  function Stream(objsize: nat, supply: seq<Page>): seq<nat>
  {
    if supply == [] then [] else ObjectsFrom(supply[0].base, objsize, 1) + Stream(objsize, supply[1..])
  }

  /** The index of the next object of the current page. */
  function NextIndex(c: Cache): int
    requires c.cpu.OnPage?
  {
    (c.cpu.freeobj - c.cpu.page.base) / (4 * Stride(c.objsize))
  }

  lemma NextIndexIs(c: Cache, k: nat)
    requires At(c, k)
    ensures NextIndex(c) == k
  {
    var w := Stride(c.objsize);
    assert 4 * (k * w) == k * (4 * w);
    QuotientUnique(4 * (k * w), 4 * w, k, 0);
  }

  /** Everything a cache can still hand out. */
  ghost function Remaining(c: Cache, supply: seq<Page>): seq<nat>
    requires Inv(c)
  {
    (if c.cpu.OnPage? then
       assert NextIndex(c) >= 0 by { var k: nat :| At(c, k); NextIndexIs(c, k); }
       ObjectsFrom(c.cpu.page.base, c.objsize, NextIndex(c))
     else []) + Stream(c.objsize, supply)
  }

  lemma InvReachable(c: Cache)
    requires Inv(c)
    ensures Reachable(c)
  {
    if c.cpu.OnPage? {
      var k: nat :| At(c, k) && k < Slots(c.objsize);
      AtReachable(c, k);
    }
  }

  /** slab_alloc hands out the first object remaining and keeps the rest for later; it fails exactly
      when none remains. */
  lemma AllocConserves(c: Cache, supply: seq<Page>)
    requires Inv(c) && SupplyOk(supply) && Slots(c.objsize) >= 2
    ensures Reachable(c)
    ensures Alloc(c, supply).OutOfMemory? <==> Remaining(c, supply) == []
    ensures Alloc(c, supply).Object? ==>
              var r := Alloc(c, supply);
              && Inv(r.cache) && r.cache.objsize == c.objsize && SupplyOk(r.supply)
              && Remaining(c, supply) == [r.addr] + Remaining(r.cache, r.supply)
  {
    hide Slots, Take, Refill, Chained;
    InvReachable(c);
    if c.cpu.OnPage? {
      var k: nat :| At(c, k) && k < Slots(c.objsize);
      TakeConserves(c, k, supply);
      AtReachable(c, k);
    } else if supply != [] {
      var r := Refill(c, supply[0]);
      RefillAt(c, supply[0]);
      TakeConserves(r, 1, supply[1..]);
      AtReachable(r, 1);
      RefillBase(c, supply[0]);
      AllocOn(r, supply[1..], 1);
      assert Stream(c.objsize, supply) == ObjectsFrom(supply[0].base, c.objsize, 1) + Stream(c.objsize, supply[1..]);
    }
  }

  lemma RefillBase(c: Cache, p: Page)
    requires |p.words| == WORDS && Fits(c.objsize)
    ensures Refill(c, p).cpu.OnPage? && Refill(c, p).cpu.page.base == p.base
  {
  }

  lemma AllocOn(c: Cache, supply: seq<Page>, k: nat)
    requires At(c, k) && k < Slots(c.objsize) && SupplyOk(supply)
    ensures Reachable(c) && !Bound(Load(c.cpu.page, c.cpu.freeobj))
    ensures Alloc(c, supply) == Object(c.cpu.freeobj, Take(c), supply)
  {
    AtReachable(c, k);
  }

  lemma RemainingAt(c: Cache, k: nat, supply: seq<Page>)
    requires At(c, k) && k < Slots(c.objsize)
    ensures Inv(c) && Reachable(c) && NextIndex(c) == k
    ensures Remaining(c, supply) == ObjectsFrom(c.cpu.page.base, c.objsize, k) + Stream(c.objsize, supply)
  {
    hide Slots, Chained, ObjectsFrom, Stream;
    NextIndexIs(c, k);
    AtReachable(c, k);
  }

  lemma RemainingNone(c: Cache, supply: seq<Page>)
    requires Fits(c.objsize) && c.cpu == NoPage
    ensures Inv(c) && Remaining(c, supply) == Stream(c.objsize, supply)
  {
    hide Slots, ObjectsFrom, Stream;
  }

  lemma ObjectsStep(base: nat, objsize: nat, k: nat)
    ensures k < Slots(objsize) ==>
              ObjectsFrom(base, objsize, k) == [Obj(base, Stride(objsize), k)] + ObjectsFrom(base, objsize, k + 1)
    ensures k >= Slots(objsize) ==> ObjectsFrom(base, objsize, k) == []
  {
    hide Slots, Stride;
  }

  lemma TakeConserves(c: Cache, k: nat, supply: seq<Page>)
    requires At(c, k) && k < Slots(c.objsize)
    ensures Reachable(c) && !Bound(Load(c.cpu.page, c.cpu.freeobj)) && Inv(c) && Inv(Take(c))
    ensures Remaining(c, supply) == ObjectsFrom(c.cpu.page.base, c.objsize, k) + Stream(c.objsize, supply)
    ensures Remaining(c, supply) == [c.cpu.freeobj] + Remaining(Take(c), supply)
  {
    hide Slots, Take, Chained, Stride, Remaining, ObjectsFrom, Stream, Bound, Load;
    TakeAt(c, k);
    RemainingAt(c, k, supply);
    ObjectsStep(c.cpu.page.base, c.objsize, k);
    var rest, later := ObjectsFrom(c.cpu.page.base, c.objsize, k + 1), Stream(c.objsize, supply);
    if k + 1 < Slots(c.objsize) {
      RemainingAt(Take(c), k + 1, supply);
    } else {
      ObjectsStep(c.cpu.page.base, c.objsize, k + 1);
      RemainingNone(Take(c), supply);
      assert rest + later == later;
    }
    assert ([c.cpu.freeobj] + rest) + later == [c.cpu.freeobj] + (rest + later);
  }

  // ----- the pages -----

  /** The pages a cache has had: the full ones and the current one. */
  function PagesOf(c: Cache): seq<nat>
  {
    c.full + if c.cpu.OnPage? then [c.cpu.page.base] else []
  }

  function Bases(supply: seq<Page>): (s: seq<nat>)
    ensures |s| == |supply| && forall i :: 0 <= i < |s| ==> s[i] == supply[i].base
  {
    seq(|supply|, i requires 0 <= i < |supply| => supply[i].base)
  }

  lemma TakePages(c: Cache, k: nat)
    requires At(c, k) && k < Slots(c.objsize)
    ensures Reachable(c) && !Bound(Load(c.cpu.page, c.cpu.freeobj)) && PagesOf(Take(c)) == PagesOf(c)
  {
    hide Slots, Take, Chained;
    TakeAt(c, k);
  }

  lemma RefillPages(c: Cache, p: Page, supply: seq<Page>)
    requires |p.words| == WORDS && Fits(c.objsize)
    ensures PagesOf(Refill(c, p)) + Bases(supply) == PagesOf(c) + Bases([p] + supply)
  {
    hide Format, Fits;
    assert Bases([p] + supply) == [p.base] + Bases(supply);
  }

  /** Requests take pages from the supply in order and lose none: the full pages, the current one and the
      supply stay the same sequence. */
  lemma PagesConserved(c: Cache, supply: seq<Page>)
    requires Inv(c) && SupplyOk(supply) && Slots(c.objsize) >= 2
    ensures Reachable(c)
    ensures Alloc(c, supply).Object? ==>
              var r := Alloc(c, supply);
              PagesOf(r.cache) + Bases(r.supply) == PagesOf(c) + Bases(supply)
  {
    hide Slots, Take, Refill, Chained, PagesOf, Bases;
    InvReachable(c);
    if c.cpu.OnPage? {
      var k: nat :| At(c, k) && k < Slots(c.objsize);
      AllocOn(c, supply, k);
      TakePages(c, k);
    } else if supply != [] {
      var r := Refill(c, supply[0]);
      RefillAt(c, supply[0]);
      AllocOn(r, supply[1..], 1);
      TakePages(r, 1);
      RefillPages(c, supply[0], supply[1..]);
      AtReachable(r, 1);
      assert [supply[0]] + supply[1..] == supply;
    }
  }

  // ----- clients -----

  /** A client writing word i of object k of the current page. */
  function ClientWrite(c: Cache, k: nat, i: nat, v: nat): (r: Cache)
    requires c.cpu.OnPage? && k * Stride(c.objsize) + i < |c.cpu.page.words|
    ensures r.objsize == c.objsize && r.full == c.full && r.cpu.OnPage?
  {
    var p := c.cpu.page;
    c.(cpu := OnPage(p.(words := p.words[k * Stride(c.objsize) + i := v]), c.cpu.freeobj))
  }

  /** Writing inside an object already handed out leaves the chain, and so everything still to be
      handed out, as it was. */
  lemma ClientWriteKeeps(c: Cache, supply: seq<Page>, k: nat, i: nat, v: nat)
    requires Inv(c) && c.cpu.OnPage? && 1 <= k < NextIndex(c) && i < c.objsize / 4
    ensures k * Stride(c.objsize) + i < |c.cpu.page.words|
    ensures Inv(ClientWrite(c, k, i, v)) && Remaining(ClientWrite(c, k, i, v), supply) == Remaining(c, supply)
  {
    hide Slots, Remaining, ObjectsFrom, Stream, ClientWrite, Stride;
    var n: nat :| At(c, n) && n < Slots(c.objsize);
    RemainingAt(c, n, supply);
    ClientWriteAt(c, n, k, i, v);
    RemainingAt(ClientWrite(c, k, i, v), n, supply);
  }

  lemma ClientWriteAt(c: Cache, n: nat, k: nat, i: nat, v: nat)
    requires At(c, n) && 1 <= k < n && i < c.objsize / 4
    ensures k * Stride(c.objsize) + i < |c.cpu.page.words|
    ensures var r := ClientWrite(c, k, i, v); At(r, n) && r.cpu.page.base == c.cpu.page.base
  {
    hide Slots;
    var w := Stride(c.objsize);
    Later(k, n, w);
    SlotInside(c.objsize, n);
    SlotInside(c.objsize, k);
    var r := ClientWrite(c, k, i, v);
    forall j: nat | n <= j <= Slots(c.objsize) ensures WordAt(r.cpu.page, w, j) == WordAt(c.cpu.page, w, j) {
      if n < j { Later(n, j, w); }
    }
  }

  // ----- runs -----

  /** A run: requests, and writes by clients into objects they hold. */
  datatype Event = Request | Write(k: nat, i: nat, v: nat)

  datatype World = World(cache: Cache, supply: seq<Page>, handed: seq<nat>)

  ghost predicate WorldOk(s: World)
  {
    Inv(s.cache) && SupplyOk(s.supply) && Slots(s.cache.objsize) >= 2
  }

  /** One event. A write outside the objects handed out from the current page changes a page the
      cache no longer reads, and a request without memory never returns. */
  ghost function Step(s: World, e: Event): (r: World)
    requires WorldOk(s)
    ensures WorldOk(r) && r.cache.objsize == s.cache.objsize
  {
    match e
    case Request =>
      AllocConserves(s.cache, s.supply);
      (match Alloc(s.cache, s.supply)
       case Object(addr, cache, supply) => World(cache, supply, s.handed + [addr])
       case OutOfMemory(_) => s)
    case Write(k, i, v) =>
      if s.cache.cpu.OnPage? && 1 <= k < NextIndex(s.cache) && i < s.cache.objsize / 4 then
        ClientWriteKeeps(s.cache, s.supply, k, i, v);
        s.(cache := ClientWrite(s.cache, k, i, v))
      else s
  }

  ghost function Run(s: World, es: seq<Event>): (r: World)
    requires WorldOk(s)
    ensures WorldOk(r)
    decreases |es|
  {
    if es == [] then s else Run(Step(s, es[0]), es[1..])
  }

  /** Over every run, what has been handed out followed by what remains is the same sequence: all
      objects of all pages in ascending order, each once. Likewise the pages. */
  lemma {:induction false} RunConserves(s: World, es: seq<Event>)
    requires WorldOk(s)
    ensures Run(s, es).handed + Remaining(Run(s, es).cache, Run(s, es).supply) ==
            s.handed + Remaining(s.cache, s.supply)
    ensures PagesOf(Run(s, es).cache) + Bases(Run(s, es).supply) == PagesOf(s.cache) + Bases(s.supply)
    decreases |es|
  {
    hide Alloc, Remaining, Slots, ClientWrite, PagesOf, Bases;
    if es != [] {
      StepConserves(s, es[0]);
      RunConserves(Step(s, es[0]), es[1..]);
    }
  }

  lemma StepConserves(s: World, e: Event)
    requires WorldOk(s)
    ensures Step(s, e).handed + Remaining(Step(s, e).cache, Step(s, e).supply) ==
            s.handed + Remaining(s.cache, s.supply)
    ensures PagesOf(Step(s, e).cache) + Bases(Step(s, e).supply) == PagesOf(s.cache) + Bases(s.supply)
  {
    hide Alloc, Remaining, Slots, Bases;
    match e
    case Request =>
      AllocConserves(s.cache, s.supply);
      PagesConserved(s.cache, s.supply);
    case Write(k, i, v) =>
      if s.cache.cpu.OnPage? && 1 <= k < NextIndex(s.cache) && i < s.cache.objsize / 4 {
        ClientWriteKeeps(s.cache, s.supply, k, i, v);
      }
  }

  /** An empty cache as init_each_slab leaves it. */
  function Empty(size: nat): Cache
  {
    Cache(RoundedSize(size), NoPage, [])
  }

  /** From an empty cache, every run hands out a prefix of the objects of its pages. */
  lemma HandsOutStream(size: nat, supply: seq<Page>, es: seq<Event>)
    requires Fits(RoundedSize(size)) && Slots(RoundedSize(size)) >= 2 && SupplyOk(supply)
    ensures Run(World(Empty(size), supply, []), es).handed <= Stream(RoundedSize(size), supply)
  {
    hide Run, Remaining, Slots, Fits, Stream;
    EmptyRemaining(size, supply);
    var s := World(Empty(size), supply, []);
    RunConserves(s, es);
    Prefix(Run(s, es).handed, Remaining(Run(s, es).cache, Run(s, es).supply));
  }

  lemma EmptyRemaining(size: nat, supply: seq<Page>)
    requires Fits(RoundedSize(size))
    ensures Inv(Empty(size))
    ensures Remaining(Empty(size), supply) == [] + Remaining(Empty(size), supply) == Stream(RoundedSize(size), supply)
  {
  }

  lemma Prefix(a: seq<nat>, b: seq<nat>)
    ensures a <= a + b
  {
  }

  // ----- the objects -----

  /** Memory [addr, addr + objsize) of an object. */
  predicate Inside(base: nat, addr: nat, objsize: nat)
  {
    base + 8 <= addr && addr + objsize <= base + PAGE
  }

  predicate Apart(a: nat, b: nat, objsize: nat)
  {
    a + objsize <= b || b + objsize <= a
  }

  /** The objects of a page lie inside it, clear of its header and of each other, in ascending
      order. */
  lemma PageObjects(base: nat, objsize: nat, i: nat, k: nat)
    requires Fits(objsize) && 1 <= i <= k < Slots(objsize)
    ensures Inside(base, Obj(base, Stride(objsize), i), objsize)
    ensures i < k ==> Obj(base, Stride(objsize), i) + objsize < Obj(base, Stride(objsize), k)
  {
    var w, n := Stride(objsize), Slots(objsize);
    SlotInside(objsize, i);
    SlotInside(objsize, n);
    Later(i, n, w);
    if i < k { Later(i, k, w); }
  }

  ghost predicate DistinctPages(supply: seq<Page>)
  {
    forall i, j :: 0 <= i < j < |supply| ==> supply[i].base != supply[j].base
  }

  /** Where an object of the stream comes from. */
  lemma {:induction false} StreamSource(objsize: nat, supply: seq<Page>, m: nat) returns (i: nat, k: nat)
    requires m < |Stream(objsize, supply)|
    ensures i < |supply| && 1 <= k < Slots(objsize)
    ensures Stream(objsize, supply)[m] == Obj(supply[i].base, Stride(objsize), k)
    ensures m < |ObjectsFrom(supply[0].base, objsize, 1)| ==> i == 0 && k == m + 1
    ensures m >= |ObjectsFrom(supply[0].base, objsize, 1)| ==> i > 0
    decreases |supply|
  {
    var first := ObjectsFrom(supply[0].base, objsize, 1);
    if m < |first| {
      i, k := 0, m + 1;
    } else {
      i, k := StreamSource(objsize, supply[1..], m - |first|);
      i := i + 1;
    }
  }

  /** No two objects ever handed out overlap, given that the buddy system hands out no page twice. */
  lemma {:induction false} StreamApart(objsize: nat, supply: seq<Page>, a: nat, b: nat)
    requires Fits(objsize) && SupplyOk(supply) && DistinctPages(supply) && a < b < |Stream(objsize, supply)|
    ensures Apart(Stream(objsize, supply)[a], Stream(objsize, supply)[b], objsize)
    decreases |supply|
  {
    hide Slots, Stride;
    var first := ObjectsFrom(supply[0].base, objsize, 1);
    var i, k := StreamSource(objsize, supply, a);
    var j, l := StreamSource(objsize, supply, b);
    if a >= |first| {
      assert forall x :: 0 <= x < |supply[1..]| ==> supply[1..][x] == supply[x + 1];
      StreamApart(objsize, supply[1..], a - |first|, b - |first|);
    } else if b < |first| {
      PageObjects(supply[0].base, objsize, k, l);
    } else {
      PageObjects(supply[0].base, objsize, k, k);
      PageObjects(supply[j].base, objsize, l, l);
      PagesApart(supply[0].base, supply[j].base);
    }
  }

  lemma PagesApart(a: nat, b: nat)
    requires a % PAGE == 0 && b % PAGE == 0 && a != b
    ensures a + PAGE <= b || b + PAGE <= a
  {
  }

  /** The objects by address: of every page one slot of objsize + 4 bytes behind the other, from the
      second slot on. */
  lemma {:induction false} StreamIs(objsize: nat, supply: seq<Page>, q: nat, k: nat)
    requires objsize % 4 == 0 && q < |supply| && 1 <= k < 1024 / (objsize / 4 + 1)
    ensures var n := 1024 / (objsize / 4 + 1);
      && |Stream(objsize, supply)| == |supply| * (n - 1) && 0 <= q * (n - 1) + (k - 1) < |supply| * (n - 1)
      && Stream(objsize, supply)[q * (n - 1) + (k - 1)] == supply[q].base + k * (objsize + 4)
    decreases |supply|
  {
    var n, first := Slots(objsize), ObjectsFrom(supply[0].base, objsize, 1);
    assert n == 1024 / (objsize / 4 + 1);
    hide Slots;
    StreamLength(objsize, supply);
    Later(q, |supply|, n - 1);
    StreamAt(objsize, supply, q, k, n);
  }

  lemma {:induction false} StreamAt(objsize: nat, supply: seq<Page>, q: nat, k: nat, n: nat)
    requires objsize % 4 == 0 && q < |supply| && 1 <= k < n == Slots(objsize)
    ensures 0 <= q * (n - 1) + (k - 1) < |Stream(objsize, supply)|
    ensures Stream(objsize, supply)[q * (n - 1) + (k - 1)] == supply[q].base + k * (objsize + 4)
    decreases |supply|
  {
    hide Slots;
    var first := ObjectsFrom(supply[0].base, objsize, 1);
    assert |first| == n - 1;
    if q > 0 {
      StreamAt(objsize, supply[1..], q - 1, k, n);
      assert q * (n - 1) == (q - 1) * (n - 1) + (n - 1);
    } else {
      assert first[k - 1] == Obj(supply[0].base, Stride(objsize), k);
      SlotBytes(objsize, k);
    }
  }

  lemma SlotBytes(objsize: nat, k: nat)
    requires objsize % 4 == 0
    ensures 4 * (k * Stride(objsize)) == k * (objsize + 4)
  {
    assert objsize + 4 == 4 * Stride(objsize);
  }

  lemma {:induction false} StreamLength(objsize: nat, supply: seq<Page>)
    requires Slots(objsize) >= 1
    ensures |Stream(objsize, supply)| == |supply| * (Slots(objsize) - 1)
    decreases |supply|
  {
    hide Slots;
    if supply != [] {
      StreamLength(objsize, supply[1..]);
      var m := Slots(objsize) - 1;
      assert |supply| * m == (|supply| - 1) * m + m;
    }
  }

  // ----- the sizes of kmalloc -----

  const SIZES: seq<nat> := [96, 192, 8, 16, 32, 64, 128, 256, 512, 1024, 1536, 2048]
  const SLOTS: seq<nat> := [40, 20, 341, 204, 113, 60, 31, 15, 7, 3, 2, 1]

  lemma SlotsAre(objsize: nat, n: nat)
    requires objsize > 0 && objsize % 4 == 0 && n >= 1
    requires n * Stride(objsize) < WORDS < (n + 1) * Stride(objsize)
    ensures Fits(objsize) && Slots(objsize) == n
  {
    var w := Stride(objsize);
    assert (n + 1) * w == n * w + w;
    QuotientUnique(WORDS, w, n, WORDS - n * w);
  }

  /** Every cache of kmalloc can be formatted, and every one but the last yields objects: a page of
      n slots holds n - 1 of them. */
  lemma SizesWork(i: nat)
    requires i < |SIZES|
    ensures RoundedSize(SIZES[i]) == SIZES[i] && Fits(SIZES[i]) && Slots(SIZES[i]) == SLOTS[i]
  {
    hide Slots, Fits;
    SlotsAre(SIZES[i], SLOTS[i]);
  }

  /** With room for a single slot a page holds no object at all: slab_alloc takes page after page and
      never returns. */
  lemma {:induction false} SingleSlotStarves(c: Cache, supply: seq<Page>)
    requires Fits(c.objsize) && Slots(c.objsize) == 1 && SupplyOk(supply)
    requires c.cpu.OnPage? ==> At(c, 1)
    ensures Reachable(c) && Alloc(c, supply).OutOfMemory?
    ensures PagesOf(Alloc(c, supply).cache) == PagesOf(c) + Bases(supply)
    decreases |supply|
  {
    hide Slots, Chained, PagesOf, Refill;
    if c.cpu.OnPage? { AtReachable(c, 1); }
    if supply != [] {
      var r := Refill(c, supply[0]);
      RefillAt(c, supply[0]);
      RefillBase(c, supply[0]);
      SingleSlotStarves(r, supply[1..]);
      AtReachable(r, 1);
      RefillPages(c, supply[0], supply[1..]);
      assert [supply[0]] + supply[1..] == supply;
    }
  }

  /** A request to an empty cache is answered from its first page exactly when two slots fit. */
  lemma ServedIff(size: nat, p: Page)
    requires Fits(RoundedSize(size)) && PageOk(p)
    ensures Alloc(Empty(size), [p]).Object? <==> Slots(RoundedSize(size)) >= 2
  {
    var c := Empty(size);
    if Slots(RoundedSize(size)) >= 2 {
      AllocConserves(c, [p]);
      assert Stream(c.objsize, [p]) != [];
    } else {
      SingleSlotStarves(c, [p]);
    }
  }
}
