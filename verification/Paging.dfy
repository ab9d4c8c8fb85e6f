/** init_memory and page_map of memory.c. */
module Paging {
  import opened Words
  import opened FreeList
  import opened PhysicalMemory

  function Range(lo: nat, hi: nat): (s: seq<nat>)
    requires lo <= hi
    ensures |s| == hi - lo && forall k :: 0 <= k < |s| ==> s[k] == lo + k
  {
    seq(hi - lo, k requires 0 <= k < hi - lo => lo + k)
  }

  lemma RangeDrop(lo: nat, hi: nat, k: nat)
    requires lo + k <= hi
    ensures Range(lo, hi)[k..] == Range(lo + k, hi)
  {
  }

  /** The first frame at or above the kernel's end: ALIGN_UP as a frame number. */
  function FirstFree(kernelEnd: word): (f: nat)
    requires KERNEL_BASE <= kernelEnd
    ensures KERNEL_BASE + (f - 1) * 4096 < kernelEnd <= KERNEL_BASE + f * 4096
  {
    (kernelEnd - KERNEL_BASE + 4095) / 4096
  }

  /** Pages lo to hi linked in address order are a list. */
  lemma RangeIsChain(m: Mem, lo: nat, hi: nat)
    requires lo < hi <= PAGES
    requires forall f: nat :: lo <= f < hi - 1 ==> Word(m, f, 0) == Vir(f + 1)
    ensures Chain(m, Vir(lo), Range(lo, hi), Word(m, hi - 1, 0))
  {
    var s := Range(lo, hi);
    forall k | 0 <= k < |s|
      ensures Word(m, s[k], 0) == Link(s, k + 1, Word(m, hi - 1, 0))
    {
      assert s[k] == lo + k;
    }
  }

  /** The pages from the kernel's end on are exactly those of the list. */
  lemma PagesBehindKernel(kernelEnd: word)
    requires KERNEL_BASE <= kernelEnd <= KERNEL_BASE + PAGES * 4096
    ensures FirstFree(kernelEnd) <= PAGES
    ensures var free := Range(FirstFree(kernelEnd), PAGES);
      && (forall f :: f in free ==> f < PAGES && kernelEnd <= KERNEL_BASE + f * 4096)
      && forall a: word :: IsPage(a) && kernelEnd <= a ==> FrameAt(a) in free
  {
    var lo := FirstFree(kernelEnd);
    var free := Range(lo, PAGES);
    forall a: word | IsPage(a) && kernelEnd <= a
      ensures FrameAt(a) in free
    {
      assert free[FrameAt(a) - lo] == FrameAt(a);
    }
  }

  /** init_memory strings every aligned page from the kernel's end to the end of RAM on
      the list, in address order. It never writes the last page's link, so that word
      stays behind the list as it was. */
  method InitMemory(ram: Ram, kernelEnd: word)
    requires ram.words.Length == RAM_WORDS
    requires KERNEL_BASE <= kernelEnd <= KERNEL_BASE + PAGES * 4096
    modifies ram, ram.words
    ensures ram.Valid()
    ensures ram.free == Range(FirstFree(kernelEnd), PAGES)
    ensures forall f :: f in ram.free ==> f < PAGES && kernelEnd <= KERNEL_BASE + f * 4096
    ensures forall a: word :: IsPage(a) && kernelEnd <= a ==> FrameAt(a) in ram.free
    ensures forall f: nat, i: nat {:trigger Word(ram.Snapshot(), f, i)} ::
              i < WORDS && KERNEL_BASE + f * 4096 + i * 4 < kernelEnd ==> Word(ram.Snapshot(), f, i) == Word(old(ram.Snapshot()), f, i)
    ensures ram.end == if FirstFree(kernelEnd) < PAGES then Word(old(ram.Snapshot()), PAGES - 1, 0) else old(ram.freeList)
    ensures forall f: nat, i: nat {:trigger Word(ram.Snapshot(), f, i)} ::
              f < FirstFree(kernelEnd) || i > 0 ==> Word(ram.Snapshot(), f, i) == Word(old(ram.Snapshot()), f, i)
  {
    ghost var m0 := ram.Snapshot();
    ghost var lo := FirstFree(kernelEnd);
    var limit := KERNEL_BASE + PAGES * 4096;
    var freePage: nat := KERNEL_BASE + FirstFree(kernelEnd) * 4096;
    var prePage: nat := 0;
    ghost var hi := lo;
    while freePage < limit
      invariant lo <= hi <= PAGES && freePage == KERNEL_BASE + hi * 4096
      invariant prePage == 0 <==> hi == lo
      invariant hi > lo ==> prePage == KERNEL_BASE + (hi - 1) * 4096
      invariant ram.freeList == if hi > lo then Vir(lo) else old(ram.freeList)
      invariant forall f: nat :: lo <= f < hi - 1 ==> Word(ram.Snapshot(), f, 0) == Vir(f + 1)
      invariant forall f: nat, i: nat {:trigger Word(ram.Snapshot(), f, i)} ::
                  f < lo || hi <= f + 1 || i > 0 ==> Word(ram.Snapshot(), f, i) == Word(m0, f, i)
      decreases limit - freePage
    {
      if prePage == 0 {
        prePage := freePage;
        ram.freeList := freePage;
        freePage := freePage + PAGESIZE;
        hi := hi + 1;
        continue;
      }
      ram.Store(FrameAt(prePage), 0, freePage);
      prePage := freePage;
      freePage := freePage + PAGESIZE;
      hi := hi + 1;
    }
    ram.free := Range(lo, PAGES);
    PagesBehindKernel(kernelEnd);
    if lo < PAGES {
      RangeIsChain(ram.Snapshot(), lo, PAGES);
      ram.end := Word(ram.Snapshot(), PAGES - 1, 0);
    } else {
      ram.end := ram.freeList;
    }
  }

  // ----- page_map

  /** Directory d and the tables it names are in RAM, off the free list, and the
      directory is not its own table. */
  ghost predicate TablesApart(m: Mem, d: nat, free: seq<nat>) {
    && d < PAGES && d !in free
    && forall k: nat {:trigger Word(m, d, k)} :: k < 1024 && Present(Word(m, d, k)) ==>
         var t := Target(Word(m, d, k)); t < PAGES && t != d && t !in free
  }

  /** No table is named by two entries. */
  ghost predicate NoSharing(m: Mem, d: nat) {
    forall k: nat, l: nat {:trigger Word(m, d, k), Word(m, d, l)} ::
      k < l < 1024 && Present(Word(m, d, k)) && Present(Word(m, d, l)) ==>
        Target(Word(m, d, k)) != Target(Word(m, d, l))
  }

  /** What page_map writes, as a change of memory: one table entry, and when the
      directory entry was absent also a zeroed table behind a fresh entry. */
  ghost predicate MapsPage(m0: Mem, m1: Mem, d: nat, i: nat, j: nat, t: nat, e: word, pde: word) {
    && i < 1024 && j < 1024 && d != t
    && Present(pde) && Target(pde) == t
    && Word(m1, d, i) == pde
    && (Word(m0, d, i) == pde || !Present(Word(m0, d, i)))
    && (forall k: nat {:trigger Word(m1, d, k)} :: k != i ==> Word(m1, d, k) == Word(m0, d, k))
    && Word(m1, t, j) == e
    && (forall l: nat {:trigger Word(m1, t, l)} :: l != j ==>
          Word(m1, t, l) == if Present(Word(m0, d, i)) then Word(m0, t, l) else 0)
    && Outside(m0, m1, {d, t})
  }

  /** The effect of such a change on translation. */
  lemma MapTranslates(m0: Mem, m1: Mem, d: nat, i: nat, j: nat, t: nat, e: word, pde: word, va: word)
    requires MapsPage(m0, m1, d, i, j, t, e, pde) && Present(e)
    requires forall k: nat :: k < 1024 && k != i && Present(Word(m0, d, k)) ==>
               Target(Word(m0, d, k)) != t && Target(Word(m0, d, k)) != d
    ensures Translate(m1, d, va) ==
      if DirIndex(va) == i && TableIndex(va) == j
      then Mapped(Target(e), UserBit(pde) && UserBit(e), Writable(pde) && Writable(e))
      else Translate(m0, d, va)
  {
  }

  /** Locality needs private tables: a new frame written behind an entry whose table
      already exists changes no other page's translation if and only if no second
      directory entry names that table. */
  lemma MapLocalIff(m0: Mem, m1: Mem, d: nat, t: nat, e: word, pde: word, va: word)
    requires MapsPage(m0, m1, d, DirIndex(va), TableIndex(va), t, e, pde) && Present(e)
    requires Present(Word(m0, d, DirIndex(va)))
    requires forall k: nat {:trigger Word(m0, d, k)} :: k < 1024 && Present(Word(m0, d, k)) ==> Target(Word(m0, d, k)) != d
    requires Present(Word(m0, t, TableIndex(va))) ==> Target(Word(m0, t, TableIndex(va))) != Target(e)
    ensures (forall va': word {:trigger Translate(m1, d, va')} :: va' / 4096 != va / 4096 ==> Translate(m1, d, va') == Translate(m0, d, va'))
            <==> forall k: nat {:trigger Word(m0, d, k)} ::
                   k < 1024 && k != DirIndex(va) && Present(Word(m0, d, k)) ==> Target(Word(m0, d, k)) != t
  {
    if k: nat :| k < 1024 && k != DirIndex(va) && Present(Word(m0, d, k)) && Target(Word(m0, d, k)) == t {
      var va': word := (k * 1024 + TableIndex(va)) * 4096;
      assert DirIndex(va') == k && TableIndex(va') == TableIndex(va);
      SamePage(va', va);
      assert Translate(m1, d, va') != Translate(m0, d, va');
    } else {
      MapTranslatesAll(m0, m1, d, t, e, pde, va);
    }
  }

  lemma MapTranslatesAll(m0: Mem, m1: Mem, d: nat, t: nat, e: word, pde: word, va: word)
    requires MapsPage(m0, m1, d, DirIndex(va), TableIndex(va), t, e, pde) && Present(e)
    requires forall k: nat :: k < 1024 && k != DirIndex(va) && Present(Word(m0, d, k)) ==>
               Target(Word(m0, d, k)) != t && Target(Word(m0, d, k)) != d
    ensures forall va': word {:trigger Translate(m1, d, va')} ::
              Translate(m1, d, va') ==
                if va' / 4096 == va / 4096
                then Mapped(Target(e), UserBit(pde) && UserBit(e), Writable(pde) && Writable(e))
                else Translate(m0, d, va')
  {
    forall va': word
      ensures Translate(m1, d, va') ==
                if va' / 4096 == va / 4096
                then Mapped(Target(e), UserBit(pde) && UserBit(e), Writable(pde) && Writable(e))
                else Translate(m0, d, va')
    {
      MapTranslates(m0, m1, d, DirIndex(va), TableIndex(va), t, e, pde, va');
      SamePage(va', va);
    }
  }

  /** The first half of page_map: a directory entry that is absent gets a zeroed table. */
  method EnsureTable(ram: Ram, d: nat, i: nat, privilege: nat) returns (pde: word)
    requires ram.Valid() && privilege < 2 && i < 1024
    requires TablesApart(ram.Snapshot(), d, ram.free) && NoSharing(ram.Snapshot(), d)
    requires !Present(Word(ram.Snapshot(), d, i)) ==> ram.free != []
    modifies ram, ram.words
    ensures ram.Valid() && ram.end == old(ram.end)
    ensures TablesApart(ram.Snapshot(), d, ram.free) && NoSharing(ram.Snapshot(), d)
    ensures Present(Word(old(ram.Snapshot()), d, i)) ==>
      ram.Snapshot() == old(ram.Snapshot()) && ram.free == old(ram.free) && pde == Word(ram.Snapshot(), d, i)
    ensures !Present(Word(old(ram.Snapshot()), d, i)) ==>
      && old(ram.free)[0] < PAGES && ram.free == old(ram.free)[1..]
      && pde == Word(ram.Snapshot(), d, i) == Entry(old(ram.free)[0], privilege)
      && (forall k: nat :: k != i ==> Word(ram.Snapshot(), d, k) == Word(old(ram.Snapshot()), d, k))
      && (forall j: nat :: j < WORDS ==> Word(ram.Snapshot(), old(ram.free)[0], j) == 0)
      && Outside(old(ram.Snapshot()), ram.Snapshot(), {d, old(ram.free)[0]})
      && forall k: nat :: k < 1024 && k != i && Present(Word(ram.Snapshot(), d, k)) ==> Target(Word(ram.Snapshot(), d, k)) != old(ram.free)[0]
  {
    ghost var m0 := ram.Snapshot();
    pde := ram.Load(d, i);
    if !Present(pde) {
      var table := ram.AllocPage();
      ram.FillZero(table);
      ghost var m1 := ram.Snapshot();
      ChainFrame(m0, m1, ram.freeList, ram.free, ram.end, {FrameAt(table)});
      ram.Store(d, i, Entry(FrameAt(table), privilege));
      ChainFrame(m1, ram.Snapshot(), ram.freeList, ram.free, ram.end, {d});
    }
    pde := ram.Load(d, i);
  }

  /** page_map: afterwards va's page leads to the frame of phy, and no other page's
      translation has changed. The entry gets the privilege asked for; a directory
      entry that was already there keeps its own bits and still restricts the result. */
  method PageMap(ram: Ram, pagedir: word, va: word, phy: word, privilege: nat)
    requires ram.Valid() && IsPage(pagedir) && privilege < 2
    requires TablesApart(ram.Snapshot(), FrameAt(pagedir), ram.free)
    requires NoSharing(ram.Snapshot(), FrameAt(pagedir))
    requires !Present(Word(ram.Snapshot(), FrameAt(pagedir), DirIndex(va))) ==> ram.free != []
    modifies ram, ram.words
    ensures ram.Valid() && ram.end == old(ram.end)
    ensures ram.free == if Present(Word(old(ram.Snapshot()), FrameAt(pagedir), DirIndex(va)))
                        then old(ram.free) else old(ram.free)[1..]
    ensures TablesApart(ram.Snapshot(), FrameAt(pagedir), ram.free)
    ensures NoSharing(ram.Snapshot(), FrameAt(pagedir))
    ensures forall k: nat :: k != DirIndex(va) ==>
              Word(ram.Snapshot(), FrameAt(pagedir), k) == Word(old(ram.Snapshot()), FrameAt(pagedir), k)
    ensures
      var d, m0 := FrameAt(pagedir), old(ram.Snapshot());
      var pde := Word(m0, d, DirIndex(va));
      var t := if Present(pde) then Target(pde) else old(ram.free)[0];
      && Target(Word(ram.Snapshot(), d, DirIndex(va))) == t
      && Outside(m0, ram.Snapshot(), {d, t})
      && forall va': word {:trigger Translate(ram.Snapshot(), d, va')} ::
           Translate(ram.Snapshot(), d, va') ==
             if va' / 4096 == va / 4096
             then Mapped(phy / 4096, privilege == USER && (Present(pde) ==> UserBit(pde)), Present(pde) ==> Writable(pde))
             else Translate(m0, d, va')
    ensures
      var d, i := FrameAt(pagedir), DirIndex(va);
      var pde := Word(ram.Snapshot(), d, i);
      && Word(ram.Snapshot(), Target(pde), TableIndex(va)) == phy / 4096 * 4096 + privilege * 4 + 3
      && pde == if Present(Word(old(ram.Snapshot()), d, i)) then Word(old(ram.Snapshot()), d, i)
                else old(ram.free)[0] * 4096 + privilege * 4 + 3
  {
    ghost var m0 := ram.Snapshot();
    var d := FrameAt(pagedir);
    var pde := EnsureTable(ram, d, DirIndex(va), privilege);
    ghost var m1 := ram.Snapshot();
    var e := Entry(phy / 4096, privilege);
    ram.Store(Target(pde), TableIndex(va), e);
    ghost var m2 := ram.Snapshot();
    ChainFrame(m1, m2, ram.freeList, ram.free, ram.end, {Target(pde)});
    assert MapsPage(m0, m2, d, DirIndex(va), TableIndex(va), Target(pde), e, pde);
    MapTranslatesAll(m0, m2, d, Target(pde), e, pde, va);
  }
}
