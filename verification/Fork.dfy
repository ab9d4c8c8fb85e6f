/** copy_process_mem of syscall.c: the deep copy of an address space that fork makes. */
module Fork {
  import opened Words
  import opened FreeList
  import opened PhysicalMemory
  import opened Paging
  import opened AddressSpace

  /** Entry j of the new table t1 copies entry j of t0: an absent entry verbatim, a
      present one as a user entry for another frame. The frame holds what the old frame
      held in m0, unless the old frame was itself on the free list (pool) by then. */
  ghost predicate CopiedEntry(m0: Mem, m1: Mem, t0: nat, t1: nat, j: nat, pool: set<nat>) {
    var e0, e1 := Word(m0, t0, j), Word(m1, t1, j);
    if !Present(e0) then e1 == e0
    else
      && e1 == Entry(Target(e1), USER) && Target(e1) < PAGES
      && (Target(e0) !in pool ==> SameContent(m0, Target(e0), m1, Target(e1)))
  }

  ghost predicate CopiedTable(m0: Mem, m1: Mem, t0: nat, t1: nat, n: nat, pool: set<nat>) {
    forall j: nat :: j < n ==> CopiedEntry(m0, m1, t0, t1, j, pool)
  }

  ghost predicate CopiedDirEntry(m0: Mem, m1: Mem, p: nat, c: nat, i: nat, pool: set<nat>) {
    var e0, e1 := Word(m0, p, i), Word(m1, c, i);
    if !Present(e0) then e1 == e0
    else
      && e1 == Entry(Target(e1), USER) && Target(e1) < PAGES
      && CopiedTable(m0, m1, Target(e0), Target(e1), WORDS, pool)
  }

  ghost predicate CopiedDir(m0: Mem, m1: Mem, p: nat, c: nat, n: nat, pool: set<nat>) {
    forall i: nat :: i < n ==> CopiedDirEntry(m0, m1, p, c, i, pool)
  }

  // ----- what the copies depend on

  /** A finished table survives changes outside itself and its pages. */
  lemma CopiedTableFrame(m0: Mem, m1: Mem, m2: Mem, t0: nat, t1: nat, n: nat, pool: set<nat>, touched: set<nat>)
    requires CopiedTable(m0, m1, t0, t1, n, pool)
    requires Outside(m1, m2, touched)
    requires forall k: nat :: k < n ==> Word(m2, t1, k) == Word(m1, t1, k)
    requires forall f :: f in PagesOf(m1, t1, n) ==> f !in touched
    ensures CopiedTable(m0, m2, t0, t1, n, pool)
  {
    forall j: nat | j < n
      ensures CopiedEntry(m0, m2, t0, t1, j, pool)
    {
      assert CopiedEntry(m0, m1, t0, t1, j, pool);
      InPages(m1, t1, n, Target(Word(m1, t1, j)));
    }
  }

  /** The table may as well be measured against an earlier memory that differs only in the pool. */
  lemma CopiedTableBase(m: Mem, m0: Mem, m1: Mem, t0: nat, t1: nat, n: nat, pool: set<nat>)
    requires Outside(m, m0, pool) && t0 !in pool
    requires CopiedTable(m0, m1, t0, t1, n, pool)
    ensures CopiedTable(m, m1, t0, t1, n, pool)
  {
    forall j: nat | j < n
      ensures CopiedEntry(m, m1, t0, t1, j, pool)
    {
      assert CopiedEntry(m0, m1, t0, t1, j, pool);
    }
  }

  // ----- one table

  /** The copy of the table behind entry i of directory c after j entries: fs0, the free
      list at the start, is the new table, the new pages in entry order, and what is
      still free and unchanged; nothing but the taken frames and that entry has changed. */
  ghost predicate TableState(m0: Mem, m: Mem, c: nat, i: nat, t0: nat, t: nat, j: nat, fs0: seq<nat>, fs: seq<nat>, pool: set<nat>)
  {
    && fs0 == [t] + PagesOf(m, t, j) + fs
    && |PagesOf(m, t, j)| == |PagesOf(m0, t0, j)|
    && CopiedTable(m0, m, t0, t, j, pool)
    && (forall k: nat :: j <= k < WORDS ==> Word(m, t, k) == Word(m0, t0, k))
    && t < PAGES && Word(m, c, i) == Entry(t, USER)
    && (forall k: nat :: k != i ==> Word(m, c, k) == Word(m0, c, k))
    && Outside(m0, m, Elems(fs0) + {c}) && Unchanged(m0, m, fs)
  }

  lemma TableStateInit(m0: Mem, m: Mem, c: nat, i: nat, t: nat, fs0: seq<nat>, fs: seq<nat>, pool: set<nat>)
    requires fs0 == [t] + fs && t < PAGES && Outside(m0, m, {c, t}) && t !in fs && c !in fs
    requires Word(m, c, i) == Entry(t, USER) && forall k: nat :: k != i ==> Word(m, c, k) == Word(m0, c, k)
    requires SameContent(m0, Target(Word(m0, c, i)), m, t)
    ensures TableState(m0, m, c, i, Target(Word(m0, c, i)), t, 0, fs0, fs, pool)
  {
    assert fs0 == [t] + PagesOf(m, t, 0) + fs;
    assert t in Elems(fs0) by { assert fs0[0] == t; }
  }

  lemma TableStateSkip(m0: Mem, m: Mem, c: nat, i: nat, t0: nat, t: nat, j: nat, fs0: seq<nat>, fs: seq<nat>, pool: set<nat>)
    requires TableState(m0, m, c, i, t0, t, j, fs0, fs, pool) && j < WORDS
    requires !Present(Word(m, t, j))
    ensures TableState(m0, m, c, i, t0, t, j + 1, fs0, fs, pool)
  {
    assert Word(m, t, j) == Word(m0, t0, j);
    assert CopiedEntry(m0, m, t0, t, j, pool);
    assert PagesOf(m, t, j + 1) == PagesOf(m, t, j);
  }

  /** What copying the next page needs. */
  lemma TableStateReady(m0: Mem, m: Mem, c: nat, i: nat, t0: nat, t: nat, j: nat, fs0: seq<nat>, fs: seq<nat>, pool: set<nat>)
    requires TableState(m0, m, c, i, t0, t, j, fs0, fs, pool) && j < WORDS
    requires Distinct(fs0) && |fs0| > |PagesOf(m0, t0, WORDS)| && Present(Word(m, t, j))
    ensures fs != [] && t !in fs && Word(m, t, j) == Word(m0, t0, j)
  {
    PagesOfPrefix(m0, t0, j + 1, WORDS);
    DistinctAppend([t] + PagesOf(m, t, j), fs);
    assert Word(m, t, j) == Word(m0, t0, j);
  }

  lemma TableStateStep(m0: Mem, m: Mem, m': Mem, c: nat, i: nat, t0: nat, t: nat, j: nat, fs0: seq<nat>, fs: seq<nat>, pool: set<nat>)
    requires TableState(m0, m, c, i, t0, t, j, fs0, fs, pool) && j < WORDS
    requires Distinct(fs0) && InRam(fs) && fs != [] && c !in fs0 && Elems(fs0) + {c} <= pool
    requires Present(Word(m, t, j)) && Word(m', t, j) == Entry(fs[0], USER)
    requires Outside(m, m', {t, fs[0]}) && forall k: nat :: k != j ==> Word(m', t, k) == Word(m, t, k)
    requires SameContent(m, Target(Word(m, t, j)), m', fs[0])
    ensures TableState(m0, m', c, i, t0, t, j + 1, fs0, fs[1..], pool)
  {
    var ps := PagesOf(m, t, j);
    DistinctAppend([t] + ps, fs);
    DistinctAppend([t], ps);
    PagesOfFrame(m, m', t, j);
    assert fs == [fs[0]] + fs[1..];
    assert PagesOf(m', t, j + 1) == ps + [fs[0]];
    assert t in Elems(fs0) && fs[0] in Elems(fs0) by {
      assert fs0[0] == t && fs0[1 + |ps|] == fs[0];
    }
    assert CopiedTable(m0, m', t0, t, j, pool) by {
      assert forall f :: f in ps ==> f in [t] + ps;
      CopiedTableFrame(m0, m, m', t0, t, j, pool, {t, fs[0]});
    }
    assert CopiedEntry(m0, m', t0, t, j, pool);
    DistinctTail(fs);
  }

  /** Copies the page behind entry j of table t and redirects the entry to the copy. */
  method CopyPageOf(ram: Ram, t: nat, j: nat)
    requires ram.Valid() && ram.free != [] && t < PAGES && t !in ram.free && j < WORDS
    requires Target(Word(ram.Snapshot(), t, j)) < PAGES
    modifies ram, ram.words
    ensures ram.Valid() && ram.end == old(ram.end)
    ensures ram.free == old(ram.free)[1..] && old(ram.free)[0] < PAGES
    ensures Outside(old(ram.Snapshot()), ram.Snapshot(), {t, old(ram.free)[0]})
    ensures Word(ram.Snapshot(), t, j) == Entry(old(ram.free)[0], USER)
    ensures forall k: nat :: k != j ==> Word(ram.Snapshot(), t, k) == Word(old(ram.Snapshot()), t, k)
    ensures SameContent(old(ram.Snapshot()), Target(Word(old(ram.Snapshot()), t, j)), ram.Snapshot(), old(ram.free)[0])
  {
    ghost var m0 := ram.Snapshot();
    var page := ram.AllocPage();
    var pte := ram.Load(t, j);
    ram.CopyPage(Vir(Target(pte)), page);
    ghost var m1 := ram.Snapshot();
    ChainFrame(m0, m1, ram.freeList, ram.free, ram.end, {FrameAt(page)});
    ram.Store(t, j, Entry(FrameAt(page), USER));
    ChainFrame(m1, ram.Snapshot(), ram.freeList, ram.free, ram.end, {t});
  }

  /** Puts a new table behind entry i of directory c, with the entries of the old table. */
  method CloneTable(ram: Ram, c: nat, i: nat) returns (t: nat)
    requires ram.Valid() && ram.free != [] && c < PAGES && c !in ram.free && i < WORDS
    requires Target(Word(ram.Snapshot(), c, i)) < PAGES
    requires Target(Word(ram.Snapshot(), c, i)) !in ram.free
    modifies ram, ram.words
    ensures ram.Valid() && ram.end == old(ram.end)
    ensures t < PAGES && t != c && t == old(ram.free)[0] && ram.free == old(ram.free)[1..] && t !in ram.free
    ensures Outside(old(ram.Snapshot()), ram.Snapshot(), {c, t})
    ensures Word(ram.Snapshot(), c, i) == Entry(t, USER)
    ensures forall k: nat :: k != i ==> Word(ram.Snapshot(), c, k) == Word(old(ram.Snapshot()), c, k)
    ensures SameContent(old(ram.Snapshot()), Target(Word(old(ram.Snapshot()), c, i)), ram.Snapshot(), t)
  {
    ghost var m0 := ram.Snapshot();
    var page := ram.AllocPage();
    t := FrameAt(page);
    ram.FillZero(page);
    ghost var m1 := ram.Snapshot();
    ChainFrame(m0, m1, ram.freeList, ram.free, ram.end, {t});
    var pde := ram.Load(c, i);
    ram.CopyPage(Vir(Target(pde)), page);
    ghost var m2 := ram.Snapshot();
    ChainFrame(m1, m2, ram.freeList, ram.free, ram.end, {t});
    ram.Store(c, i, Entry(t, USER));
    ChainFrame(m2, ram.Snapshot(), ram.freeList, ram.free, ram.end, {c});
  }

  /** What every round of the copy of table t0 relies on. */
  ghost predicate CanCopy(m0: Mem, c: nat, t0: nat, fs0: seq<nat>, pool: set<nat>) {
    && Distinct(fs0) && c !in fs0 && Elems(fs0) + {c} <= pool
    && |fs0| > |PagesOf(m0, t0, WORDS)|
    && forall j: nat {:trigger Word(m0, t0, j)} :: j < WORDS && Present(Word(m0, t0, j)) ==> Target(Word(m0, t0, j)) < PAGES
  }

  /** The new table, before any page has been copied. */
  method StartTable(ram: Ram, c: nat, i: nat, ghost pool: set<nat>) returns (t: nat)
    requires ram.Valid() && ram.free != [] && c < PAGES && c !in ram.free && i < WORDS
    requires Target(Word(ram.Snapshot(), c, i)) < PAGES && Target(Word(ram.Snapshot(), c, i)) !in ram.free
    modifies ram, ram.words
    ensures ram.Valid() && ram.end == old(ram.end) && t == old(ram.free)[0]
    ensures TableState(old(ram.Snapshot()), ram.Snapshot(), c, i, Target(Word(old(ram.Snapshot()), c, i)), t, 0, old(ram.free), ram.free, pool)
  {
    ghost var m0, fs0 := ram.Snapshot(), ram.free;
    t := CloneTable(ram, c, i);
    assert fs0 == [t] + ram.free;
    assert forall f :: f in ram.free ==> f in fs0;
    TableStateInit(m0, ram.Snapshot(), c, i, t, fs0, ram.free, pool);
  }

  /** One directory entry of the child: a new table with a new page for every page of the old one. */
  method CopyTable(ram: Ram, c: nat, i: nat, ghost pool: set<nat>)
    requires ram.Valid() && c < PAGES && i < WORDS
    requires CanCopy(ram.Snapshot(), c, Target(Word(ram.Snapshot(), c, i)), ram.free, pool)
    requires Target(Word(ram.Snapshot(), c, i)) < PAGES && Target(Word(ram.Snapshot(), c, i)) !in pool
    modifies ram, ram.words
    ensures ram.Valid() && ram.end == old(ram.end)
    ensures old(ram.free) != []
    ensures TableState(old(ram.Snapshot()), ram.Snapshot(), c, i, Target(Word(old(ram.Snapshot()), c, i)), old(ram.free)[0], WORDS, old(ram.free), ram.free, pool)
  {
    ghost var m0, fs0 := ram.Snapshot(), ram.free;
    ghost var t0 := Target(Word(m0, c, i));
    assert t0 !in fs0 by { assert forall f :: f in fs0 ==> f in Elems(fs0); }
    var t := StartTable(ram, c, i, pool);
    for j := 0 to WORDS
      invariant ram.Valid() && ram.end == old(ram.end)
      invariant TableState(m0, ram.Snapshot(), c, i, t0, t, j, fs0, ram.free, pool)
    {
      CopyTableEntry(ram, t, j, m0, c, i, t0, fs0, pool);
    }
  }

  /** The body of the inner loop. */
  method CopyTableEntry(ram: Ram, t: nat, j: nat, ghost m0: Mem, ghost c: nat, ghost i: nat, ghost t0: nat, ghost fs0: seq<nat>, ghost pool: set<nat>)
    requires ram.Valid() && t < PAGES && j < WORDS
    requires TableState(m0, ram.Snapshot(), c, i, t0, t, j, fs0, ram.free, pool)
    requires CanCopy(m0, c, t0, fs0, pool)
    modifies ram, ram.words
    ensures ram.Valid() && ram.end == old(ram.end)
    ensures TableState(m0, ram.Snapshot(), c, i, t0, t, j + 1, fs0, ram.free, pool)
  {
    var pte := ram.Load(t, j);
    ghost var m, fs := ram.Snapshot(), ram.free;
    if Present(pte) {
      TableStateReady(m0, m, c, i, t0, t, j, fs0, fs, pool);
      CopyPageOf(ram, t, j);
      TableStateStep(m0, m, ram.Snapshot(), c, i, t0, t, j, fs0, fs, pool);
    } else {
      TableStateSkip(m0, m, c, i, t0, t, j, fs0, fs, pool);
    }
  }

  // ----- the directory

  /** What fork needs of the parent's directory p: tables in RAM and off the free list,
      pages in RAM. The pages may be shared, and may even be on the free list. */
  ghost predicate Forkable(m: Mem, p: nat, free: seq<nat>) {
    && TablesApart(m, p, free)
    && forall i: nat, j: nat {:trigger Word(m, Target(Word(m, p, i)), j)} ::
         i < USER_ENTRIES && j < WORDS && Present(Word(m, p, i)) && Present(Word(m, Target(Word(m, p, i)), j)) ==>
           Target(Word(m, Target(Word(m, p, i)), j)) < PAGES
  }

  /** The copy after i directory entries: the free list at the start is the child's
      directory, its tables and pages in the order they were made, and what is still
      free and unchanged; nothing but the child's frames has changed. */
  ghost predicate DirState(m0: Mem, m: Mem, p: nat, c: nat, i: nat, fs0: seq<nat>, fs: seq<nat>) {
    && fs0 == [c] + Tree(m, c, i) + fs
    && |Tree(m, c, i)| == |Tree(m0, p, i)|
    && CopiedDir(m0, m, p, c, i, Elems(fs0))
    && (forall k: nat :: i <= k < WORDS ==> Word(m, c, k) == Word(m0, p, k))
    && Outside(m0, m, Elems(fs0)) && Unchanged(m0, m, fs)
  }

  lemma DirStateSkip(m0: Mem, m: Mem, p: nat, c: nat, i: nat, fs0: seq<nat>, fs: seq<nat>)
    requires DirState(m0, m, p, c, i, fs0, fs) && i < WORDS && !Present(Word(m, c, i))
    ensures DirState(m0, m, p, c, i + 1, fs0, fs)
  {
    assert Word(m, c, i) == Word(m0, p, i);
    assert CopiedDirEntry(m0, m, p, c, i, Elems(fs0));
    assert Tree(m, c, i + 1) == Tree(m, c, i);
  }

  /** What copying the next table needs. */
  lemma DirStateReady(m0: Mem, m: Mem, p: nat, c: nat, i: nat, fs0: seq<nat>, fs: seq<nat>)
    requires DirState(m0, m, p, c, i, fs0, fs) && i < USER_ENTRIES
    requires Distinct(fs0) && |fs0| > |UserFrames(m0, p)|
    requires Forkable(m0, p, fs0) && Present(Word(m, c, i))
    ensures Word(m, c, i) == Word(m0, p, i)
    ensures c !in fs && c in Elems(fs0) && (forall f :: f in fs ==> f in Elems(fs0))
    ensures var t0 := Target(Word(m, c, i));
      && t0 < PAGES && t0 !in Elems(fs0) && t0 != c
      && PagesOf(m, t0, WORDS) == PagesOf(m0, t0, WORDS)
      && |fs| > |PagesOf(m, t0, WORDS)|
      && forall j: nat {:trigger Word(m, t0, j)} :: j < WORDS && Present(Word(m, t0, j)) ==> Target(Word(m, t0, j)) < PAGES
  {
    DistinctParts(c, Tree(m, c, i), fs, fs0);
    assert Word(m, c, i) == Word(m0, p, i);
    var t0 := Target(Word(m, c, i));
    assert t0 !in fs0;
    PagesOfFrame(m0, m, t0, WORDS);
    DirStateRoom(m0, p, i);
  }

  lemma DirStateRoom(m0: Mem, p: nat, i: nat)
    requires i < USER_ENTRIES
    ensures |Tree(m0, p, i)| + |Branch(m0, Word(m0, p, i))| <= |UserFrames(m0, p)|
  {
    TreePrefix(m0, p, i + 1, USER_ENTRIES);
  }

  lemma DirStateStep(m0: Mem, m: Mem, m': Mem, p: nat, c: nat, i: nat, fs0: seq<nat>, fs: seq<nat>, fs': seq<nat>, t0: nat, t: nat)
    requires DirState(m0, m, p, c, i, fs0, fs) && i < WORDS && Distinct(fs0)
    requires Present(Word(m, c, i)) && t0 == Target(Word(m, c, i)) && t0 !in Elems(fs0)
    requires TableState(m, m', c, i, t0, t, WORDS, fs, fs', Elems(fs0))
    ensures DirState(m0, m', p, c, i + 1, fs0, fs')
  {
    var tree, touched := Tree(m, c, i), Elems(fs) + {c};
    DistinctParts(c, tree, fs, fs0);
    assert CopiedDir(m0, m', p, c, i + 1, Elems(fs0)) by {
      DirStateCopied(m0, m, m', p, c, i, Elems(fs0), touched);
      assert CopiedDirEntry(m0, m', p, c, i, Elems(fs0)) by {
        CopiedTableBase(m0, m, m', t0, t, WORDS, Elems(fs0));
      }
    }
    DirStateTree(m, m', c, i, touched);
    StillUnchanged(m0, m, m', [t] + PagesOf(m', t, WORDS), fs, fs');
    DirStateGrown(m0, m, m', p, c, i, fs0, fs, fs', t0, t);
  }

  lemma StillUnchanged(m0: Mem, m: Mem, m': Mem, taken: seq<nat>, fs: seq<nat>, fs': seq<nat>)
    requires fs == taken + fs' && Unchanged(m0, m, fs) && Unchanged(m, m', fs')
    ensures Unchanged(m0, m', fs')
  {
    forall f | f in fs'
      ensures SameContent(m0, f, m', f)
    {
      assert f in fs && SameContent(m, f, m', f);
    }
  }

  /** One more branch has moved from the free list to the child's tree. */
  lemma DirStateGrown(m0: Mem, m: Mem, m': Mem, p: nat, c: nat, i: nat, fs0: seq<nat>, fs: seq<nat>, fs': seq<nat>, t0: nat, t: nat)
    requires DirState(m0, m, p, c, i, fs0, fs) && i < WORDS
    requires Present(Word(m, c, i)) && t0 == Target(Word(m, c, i)) && t0 !in Elems(fs0)
    requires TableState(m, m', c, i, t0, t, WORDS, fs, fs', Elems(fs0))
    requires Tree(m', c, i) == Tree(m, c, i)
    ensures fs0 == [c] + Tree(m', c, i + 1) + fs'
    ensures |Tree(m', c, i + 1)| == |Tree(m0, p, i + 1)|
  {
    assert Word(m, c, i) == Word(m0, p, i);
    Regroup(c, Tree(m, c, i), t, PagesOf(m', t, WORDS), fs');
    PagesOfFrame(m0, m, t0, WORDS);
  }

  /** The finished part of the tree is not touched by the next table. */
  lemma DirStateTree(m: Mem, m': Mem, c: nat, i: nat, touched: set<nat>)
    requires i <= WORDS && Outside(m, m', touched)
    requires forall k: nat :: k < i ==> Word(m', c, k) == Word(m, c, k)
    requires forall f :: f in Tree(m, c, i) ==> f !in touched
    ensures Tree(m', c, i) == Tree(m, c, i)
  {
    forall k: nat {:trigger Word(m, c, k)} | k < i && Present(Word(m, c, k))
      ensures SameContent(m, Target(Word(m, c, k)), m', Target(Word(m, c, k)))
    {
      InTree(m, c, i, k, Target(Word(m, c, k)));
    }
    TreeFrame(m, m', c, i);
  }

  lemma DirStateCopied(m0: Mem, m: Mem, m': Mem, p: nat, c: nat, i: nat, pool: set<nat>, touched: set<nat>)
    requires i <= WORDS && Outside(m, m', touched)
    requires forall k: nat :: k < i ==> Word(m', c, k) == Word(m, c, k)
    requires forall f :: f in Tree(m, c, i) ==> f !in touched
    requires CopiedDir(m0, m, p, c, i, pool)
    ensures CopiedDir(m0, m', p, c, i, pool)
  {
    forall k: nat | k < i
      ensures CopiedDirEntry(m0, m', p, c, k, pool)
    {
      assert CopiedDirEntry(m0, m, p, c, k, pool);
      var e0, e1 := Word(m0, p, k), Word(m, c, k);
      if Present(e0) {
        InTree(m, c, i, k, Target(e1));
        forall f | f in PagesOf(m, Target(e1), WORDS)
          ensures f !in touched
        {
          InTree(m, c, i, k, f);
        }
        CopiedTableFrame(m0, m, m', Target(e0), Target(e1), WORDS, pool, touched);
      }
    }
  }

  lemma DirStateInit(m0: Mem, m: Mem, p: nat, c: nat, fs0: seq<nat>, fs: seq<nat>)
    requires fs0 == [c] + fs && Outside(m0, m, {c}) && SameContent(m0, p, m, c) && c !in fs
    ensures DirState(m0, m, p, c, 0, fs0, fs)
  {
    assert fs0 == [c] + Tree(m, c, 0) + fs;
    assert c in Elems(fs0) by { assert fs0[0] == c; }
  }

  /** Step 1: the child's directory starts as a copy of the parent's. */
  method CloneDirectory(ram: Ram, parent: word) returns (child: word)
    requires ram.Valid() && IsPage(parent) && FrameAt(parent) !in ram.free && ram.free != []
    modifies ram, ram.words
    ensures ram.Valid() && ram.end == old(ram.end) && IsPage(child)
    ensures DirState(old(ram.Snapshot()), ram.Snapshot(), FrameAt(parent), FrameAt(child), 0, old(ram.free), ram.free)
  {
    ghost var m0, fs0 := ram.Snapshot(), ram.free;
    child := ram.AllocPage();
    ghost var c := FrameAt(child);
    ram.FillZero(child);
    ghost var m1 := ram.Snapshot();
    ChainFrame(m0, m1, ram.freeList, ram.free, ram.end, {c});
    ram.CopyPage(parent, child);
    ghost var m2 := ram.Snapshot();
    ChainFrame(m1, m2, ram.freeList, ram.free, ram.end, {c});
    assert fs0 == [c] + ram.free && FrameAt(parent) != c;
    DirStateInit(m0, m2, FrameAt(parent), c, fs0, ram.free);
  }

  /** copy_process_mem: builds the child's address space from the first pages of the
      free list, in the order directory, then each table followed by its pages. */
  method CopyProcessMem(ram: Ram, parent: word) returns (child: word)
    requires ram.Valid() && IsPage(parent)
    requires Forkable(ram.Snapshot(), FrameAt(parent), ram.free)
    requires |ram.free| > |UserFrames(ram.Snapshot(), FrameAt(parent))|
    modifies ram, ram.words
    ensures ram.Valid() && ram.end == old(ram.end) && IsPage(child)
    ensures DirState(old(ram.Snapshot()), ram.Snapshot(), FrameAt(parent), FrameAt(child), USER_ENTRIES, old(ram.free), ram.free)
  {
    ghost var m0, fs0 := ram.Snapshot(), ram.free;
    child := CloneDirectory(ram, parent);
    for i := 0 to USER_ENTRIES
      invariant ram.Valid() && ram.end == old(ram.end)
      invariant DirState(m0, ram.Snapshot(), FrameAt(parent), FrameAt(child), i, fs0, ram.free)
    {
      CopyDirEntry(ram, FrameAt(child), i, m0, FrameAt(parent), fs0);
    }
  }

  /** The body of the outer loop. */
  method CopyDirEntry(ram: Ram, c: nat, i: nat, ghost m0: Mem, ghost p: nat, ghost fs0: seq<nat>)
    requires ram.Valid() && c < PAGES && i < USER_ENTRIES
    requires DirState(m0, ram.Snapshot(), p, c, i, fs0, ram.free)
    requires Distinct(fs0) && Forkable(m0, p, fs0) && |fs0| > |UserFrames(m0, p)|
    modifies ram, ram.words
    ensures ram.Valid() && ram.end == old(ram.end)
    ensures DirState(m0, ram.Snapshot(), p, c, i + 1, fs0, ram.free)
  {
    var pde := ram.Load(c, i);
    ghost var m, fs := ram.Snapshot(), ram.free;
    if Present(pde) {
      DirStateReady(m0, m, p, c, i, fs0, fs);
      CopyTable(ram, c, i, Elems(fs0));
      DirStateStep(m0, m, ram.Snapshot(), p, c, i, fs0, fs, ram.free, Target(Word(m, c, i)), fs[0]);
    } else {
      DirStateSkip(m0, m, p, c, i, fs0, fs);
    }
  }
}
