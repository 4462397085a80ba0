/** format_slabpage and slab_alloc of kernel/mm/slab.c over page memory. Pages come from the buddy
    system; those it is going to hand out are given in advance. */
module Slab {
  import opened Bits
  import opened SlabSpec

  /** A struct page with the memory it describes. */
  class Frame {
    const base: nat
    const words: array<nat>

    constructor (base: nat, words: array<nat>)
      ensures this.base == base && this.words == words
    {
      this.base, this.words := base, words;
    }

    ghost function Value(): Page
      reads words
    {
      Page(base, words[..])
    }
  }

  /** is_bound */
  method IsBound(val: nat, bound: nat) returns (r: bool)
    requires bound == PAGE
    ensures r <==> Bound(val)
    ensures val == 0 ==> r
  {
    hide And;
    Pow2Values();
    AndLowMask(val, 12);
    r := And(val, bound - 1) == 0;
  }

  /** moffset & ~((1 << PAGE_SHIFT) - 1) */
  method PageOf(addr: nat) returns (r: nat)
    requires addr < WORD
    ensures r == addr - addr % PAGE
  {
    hide And;
    Pow2Values();
    AndHighMask(addr, 12, 32);
    r := And(addr, WORD - PAGE);
  }

  /** The loop of format_slabpage turns once more exactly while another slot fits. */
  lemma Turns(objsize: nat, k: nat)
    requires Fits(objsize)
    ensures (k + 1) * Stride(objsize) <= WORDS <==> k + 1 <= Slots(objsize)
  {
    var w, n := Stride(objsize), Slots(objsize);
    assert WORDS < (n + 1) * w;
    if k + 1 < n { Later(k + 1, n, w); }
    if n < k { Later(n + 1, k + 1, w); }
  }

  /** The loop of format_slabpage: the place of the last link, and the address behind its slot. */
  method LinkSlots(page: Frame, objsize: nat) returns (ptr: nat, moffset: nat)
    requires PageOk(page.Value()) && Fits(objsize)
    modifies page.words
    ensures var w, n := Stride(objsize), Slots(objsize);
      && n * w < WORDS && ptr == n * w && moffset == Obj(page.base, w, n)
      && page.words[..] == Link(old(page.words[..]), page.base, w, n)
  {
    hide Slots, Fits, Link, Format;
    var words, size := page.words, objsize + 4;
    ghost var start, w, n := words[..], Stride(objsize), Slots(objsize);
    moffset := page.base;
    var remaining: nat := PAGE;
    ptr := 0;
    ghost var k: nat := 0;
    FirstTurn(objsize, start, page.base);
    var more := true;
    while more
      invariant k <= n && (more <==> k < n) && n * w < WORDS && k * w < WORDS
      invariant moffset == Obj(page.base, w, k) && remaining == PAGE - 4 * (k * w)
      invariant words[..] == Link(start, page.base, w, k)
      invariant k > 0 ==> ptr == k * w
      decreases n - k
    {
      Turn(objsize, start, page.base, k);
      ptr := (moffset + size - page.base) / 4;
      moffset := moffset + size;
      words[ptr] := moffset;
      remaining := remaining - size;
      k := k + 1;
      Turns(objsize, k);
      more := remaining >= size;
    }
  }

  /** format_slabpage on the page's memory; the result is cpu.freeobj. */
  method FormatSlabPage(page: Frame, objsize: nat) returns (freeobj: nat)
    requires PageOk(page.Value()) && Fits(objsize)
    modifies page.words
    ensures page.Value() == Format(old(page.Value()), objsize)
    ensures freeobj == Obj(page.base, Stride(objsize), 1) > 0
  {
    hide Slots, Fits, Link, Format;
    var words, size := page.words, objsize + 4;
    ghost var start, w, n := words[..], Stride(objsize), Slots(objsize);
    FirstTurn(objsize, start, page.base);
    var ptr: nat, moffset: nat := LinkSlots(page, objsize);
    var bottom := PageOf(moffset);
    words[ptr] := bottom;
    words[0] := page.base + 4 * ptr;
    words[1] := 0;
    InPage(page.base, 4 * (n * w));
    SlotInside(objsize, n);
    freeobj := words[ptr] + size;
    FormatIs(Page(page.base, start), objsize);
  }

  /** get_slab: the smallest size that fits, unless only the largest does; then it finds none. */
  method GetSlab(size: nat) returns (bfIndex: nat)
    ensures bfIndex < |SIZES| <==> size <= 1536
    ensures bfIndex < |SIZES| ==>
              && size <= SIZES[bfIndex] && Slots(SIZES[bfIndex]) >= 2
              && forall j :: 0 <= j < |SIZES| && size <= SIZES[j] ==> SIZES[bfIndex] <= SIZES[j]
  {
    hide Slots, Fits;
    var bfNum := 2048;
    bfIndex := |SIZES|;
    var i := 0;
    while i < |SIZES|
      invariant i <= |SIZES| && bfIndex <= |SIZES| && bfNum <= 2048
      invariant if bfIndex == |SIZES| then bfNum == 2048 else size <= SIZES[bfIndex] == bfNum < 2048
      invariant forall j :: 0 <= j < i && size <= SIZES[j] ==> bfNum <= SIZES[j]
    {
      if SIZES[i] >= size && SIZES[i] < bfNum {
        bfNum := SIZES[i];
        bfIndex := i;
      }
      i := i + 1;
    }
    assert SIZES[10] == 1536;
    if bfIndex < |SIZES| {
      SizesWork(bfIndex);
    }
  }

  lemma FormatIs(p: Page, objsize: nat)
    requires PageOk(p) && Fits(objsize)
    ensures var w, n := Stride(objsize), Slots(objsize); var end := Obj(p.base, w, n);
      n * w < WORDS && 2 <= n * w &&
      Format(p, objsize) == Page(p.base, Link(p.words, p.base, w, n)[n * w := end - end % PAGE][0 := end][1 := 0])
  {
    SlotInside(objsize, Slots(objsize));
  }

  lemma FirstTurn(objsize: nat, words: seq<nat>, base: nat)
    requires Fits(objsize) && |words| == WORDS
    ensures Slots(objsize) >= 1 && Slots(objsize) * Stride(objsize) < WORDS
    ensures objsize + 4 == 4 * Stride(objsize) == 4 * (1 * Stride(objsize))
    ensures Link(words, base, Stride(objsize), 0) == words
  {
  }

  lemma Turn(objsize: nat, words: seq<nat>, base: nat, k: nat)
    requires Fits(objsize) && |words| == WORDS && k < Slots(objsize)
    ensures var w := Stride(objsize);
      && k * w < WORDS && (k + 1) * w < WORDS && (k + 1) * w == k * w + w && objsize + 4 == 4 * w
      && Link(words, base, w, k + 1) == Link(words, base, w, k)[(k + 1) * w := Obj(base, w, k + 1)]
  {
    var w := Stride(objsize);
    if k > 0 { SlotInside(objsize, k); }
    SlotInside(objsize, k + 1);
    assert (k + 1) * w == k * w + w;
  }

  /** Rounding up to a multiple of SIZE_INT. */
  method RoundUp(size: nat) returns (r: nat)
    ensures r == RoundedSize(size)
  {
    hide And;
    Pow2Values();
    AndLowMask(size + 3, 2);
    r := size + 3 - And(size + 3, 3);
  }

  /** A kmem_cache, with the pages __alloc_pages(0) is going to return. */
  class SlabCache {
    const objsize: nat
    var page: Frame?       // cpu.page
    var freeobj: nat       // cpu.freeobj
    var full: seq<nat>     // node.full, by page address
    var supply: seq<Frame>

    /** init_each_slab */
    constructor (size: nat, supply: seq<Frame>)
      requires forall i, j :: 0 <= i < j < |supply| ==> supply[i].words != supply[j].words
      ensures Valid() && State() == Empty(size) && this.supply == supply
    {
      var rounded := RoundUp(size);
      objsize := rounded;
      page, freeobj, full := null, 0, [];
      this.supply := supply;
    }

    /** No page is in use twice. */
    ghost predicate Valid()
      reads this
    {
      && (page == null <==> freeobj == 0)
      && (forall i, j :: 0 <= i < j < |supply| ==> supply[i].words != supply[j].words)
      && (page != null ==> forall i :: 0 <= i < |supply| ==> supply[i].words != page.words)
    }

    /** The memory of the current page and of those to come. */
    ghost function Memory(): set<object>
      reads this
    {
      (set f | f in supply :: f.words) + (if page == null then {} else {page.words})
    }

    ghost function State(): (c: Cache)
      reads this, Memory()
      ensures c.objsize == objsize && c.full == full && (c.cpu.OnPage? <==> page != null)
      ensures page != null ==> c.cpu.page == page.Value() && c.cpu.freeobj == freeobj
    {
      Cache(objsize, if page == null then NoPage else OnPage(page.Value(), freeobj), full)
    }

    ghost function Supply(): (s: seq<Page>)
      reads this, Memory()
      ensures |s| == |supply| && forall i :: 0 <= i < |s| ==> s[i] == supply[i].Value()
    {
      Values(supply)
    }

    static ghost function Values(fs: seq<Frame>): (s: seq<Page>)
      reads set f | f in fs :: f.words
      ensures |s| == |fs| && forall i :: 0 <= i < |s| ==> s[i] == fs[i].Value()
    {
      if fs == [] then [] else [fs[0].Value()] + Values(fs[1..])
    }

    /** The word at an address of the current page. */
    method LoadWord(addr: nat) returns (v: nat)
      requires page != null && page.words.Length == WORDS && page.base <= addr < page.base + PAGE
      ensures v == Load(page.Value(), addr)
    {
      v := page.words[(addr - page.base) / 4];
    }

    /** Moves a used-up page to the full list and formats the next one. */
    method NextPage()
      requires Valid() && supply != [] && Fits(objsize) && PageOk(Supply()[0])
      modifies this, Memory()
      ensures Valid() && State() == Refill(old(State()), old(Supply())[0]) && Supply() == old(Supply())[1..]
      ensures Memory() <= old(Memory())
    {
      hide Fits, Format, Values, PageOk, Obj, Stride;
      if page != null {
        full := full + [page.base];
      }
      page := supply[0];
      supply := supply[1..];
      freeobj := FormatSlabPage(page, objsize);
    }

    /** The normal path of slab_alloc. */
    method TakeObject(obj: nat)
      requires Valid() && page != null && Reachable(State())
      requires obj == Load(page.Value(), freeobj) && !Bound(obj)
      modifies this, Memory()
      ensures Valid() && State() == Take(old(State())) && Supply() == old(Supply())
      ensures Memory() <= old(Memory())
    {
      hide Bound, Values, Fits;
      freeobj := obj + (objsize + 4);
      var slabp := LoadWord(freeobj);
      page.words[1] := page.words[1] + 1;
      var last := IsBound(slabp, PAGE);
      if last {
        full := full + [page.base];
        page, freeobj := null, 0;
      }
    }

    /** What cpu.freeobj points to, if there is a page, and whether it ends the chain. */
    method NextFree() returns (obj: nat, bound: bool)
      requires Valid() && Reachable(State())
      ensures (bound <==> Bound(obj)) && (page == null ==> bound)
      ensures page != null ==> obj == Load(page.Value(), freeobj)
    {
      hide Bound, Values, Supply;
      obj := 0;
      if freeobj != 0 {
        obj := LoadWord(freeobj);
      }
      bound := IsBound(obj, PAGE);
    }

    /** slab_alloc; found is false where the code reports that memory is used up and loops for ever. */
    method SlabAlloc() returns (obj: nat, found: bool)
      requires Valid() && Fits(objsize) && Reachable(State()) && forall i :: 0 <= i < |supply| ==> PageOk(Supply()[i])
      modifies this, Memory()
      ensures Valid()
      ensures found <==> Alloc(old(State()), old(Supply())).Object?
      ensures found ==> Alloc(old(State()), old(Supply())) == Object(obj, State(), Supply())
    {
      hide Fits, Load, Take, Refill, PageOk, Bound, Alloc, Values;
      var bound;
      obj, bound := NextFree();
      while bound
        invariant Valid() && Memory() <= old(Memory()) && Reachable(State())
        invariant page != null ==> obj == Load(page.Value(), freeobj)
        invariant (bound <==> Bound(obj)) && (page == null ==> bound)
        invariant forall i :: 0 <= i < |supply| ==> PageOk(Supply()[i])
        invariant Alloc(State(), Supply()) == Alloc(old(State()), old(Supply()))
        decreases |supply| + (if bound then 1 else 0)
      {
        if supply == [] {
          AllocEmpty(State());
          found := false;
          return;
        }
        AllocRefill(State(), Supply());
        NextPage();
        obj, bound := NextFree();
      }
      AllocTake(State(), Supply());
      TakeObject(obj);
      found := true;
    }
  }

  // The three ways through slab_alloc.

  lemma AllocTake(c: Cache, supply: seq<Page>)
    requires Fits(c.objsize) && Reachable(c) && (forall i :: 0 <= i < |supply| ==> PageOk(supply[i]))
    requires c.cpu.OnPage? && !Bound(Load(c.cpu.page, c.cpu.freeobj))
    ensures Alloc(c, supply) == Object(Load(c.cpu.page, c.cpu.freeobj), Take(c), supply)
  {
  }

  lemma AllocEmpty(c: Cache)
    requires Fits(c.objsize) && Reachable(c) && (c.cpu.OnPage? ==> Bound(Load(c.cpu.page, c.cpu.freeobj)))
    ensures Alloc(c, []).OutOfMemory?
  {
  }

  lemma AllocRefill(c: Cache, supply: seq<Page>)
    requires Fits(c.objsize) && Reachable(c) && (forall i :: 0 <= i < |supply| ==> PageOk(supply[i])) && supply != []
    requires c.cpu.OnPage? ==> Bound(Load(c.cpu.page, c.cpu.freeobj))
    ensures PageOk(supply[0])
    ensures var r := Refill(c, supply[0]);
      Reachable(r) && r.cpu.OnPage? && Alloc(c, supply) == Alloc(r, supply[1..])
  {
    RefillAt(c, supply[0]);
    AtReachable(Refill(c, supply[0]), 1);
  }
}
