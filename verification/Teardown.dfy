/** free_process_user_mem of syscall.c, and what fork and exit do to the stock of pages. */
module Teardown {
  import opened Words
  import opened FreeList
  import opened PhysicalMemory
  import opened AddressSpace
  import opened Fork
  import opened ForkMeaning

  // ----- the order in which pages go back

  function Reversed(s: seq<nat>): (r: seq<nat>)
    ensures |r| == |s| && forall k :: 0 <= k < |s| ==> r[k] == s[|s| - 1 - k]
  {
    seq(|s|, k requires 0 <= k < |s| => s[|s| - 1 - k])
  }

  lemma ReversedAppend(s: seq<nat>, x: nat)
    ensures Reversed(s + [x]) == [x] + Reversed(s)
  {
  }

  lemma ReversedConcat(a: seq<nat>, b: seq<nat>)
    ensures Reversed(a + b) == Reversed(b) + Reversed(a)
  {
  }

  lemma {:induction false} ReversedElements(s: seq<nat>)
    ensures multiset(Reversed(s)) == multiset(s)
    decreases |s|
  {
    if s == [] {
      assert Reversed(s) == [];
    } else {
      var r, x := s[..|s| - 1], s[|s| - 1];
      assert s == r + [x];
      ReversedAppend(r, x);
      ReversedElements(r);
    }
  }

  /** The pages of a table, then the table. */
  function FreedTable(m: Mem, pde: word): seq<nat> {
    if Present(pde) then PagesOf(m, Target(pde), WORDS) + [Target(pde)] else []
  }

  function Freed(m: Mem, d: nat, n: nat): seq<nat> {
    if n == 0 then [] else Freed(m, d, n - 1) + FreedTable(m, Word(m, d, n - 1))
  }

  lemma {:induction false} FreedElements(m: Mem, d: nat, n: nat)
    ensures multiset(Freed(m, d, n)) == multiset(Tree(m, d, n))
  {
    if n > 0 {
      var k := n - 1;
      FreedElements(m, d, k);
      FreedStep(m, d, k);
    }
  }

  lemma FreedStep(m: Mem, d: nat, n: nat)
    requires multiset(Freed(m, d, n)) == multiset(Tree(m, d, n))
    ensures multiset(Freed(m, d, n + 1)) == multiset(Tree(m, d, n + 1))
  {
    var pde := Word(m, d, n);
    FreedTableElements(m, pde);
    MultisetConcat(Freed(m, d, n), FreedTable(m, pde), Tree(m, d, n), Branch(m, pde));
  }

  lemma FreedTableElements(m: Mem, pde: word)
    ensures multiset(FreedTable(m, pde)) == multiset(Branch(m, pde))
  {
  }

  lemma MultisetConcat(a: seq<nat>, b: seq<nat>, a': seq<nat>, b': seq<nat>)
    requires multiset(a) == multiset(a') && multiset(b) == multiset(b')
    ensures multiset(a + b) == multiset(a' + b')
  {
  }

  // ----- the walk

  /** m differs from m0 in nothing but the first word of the frames fs. */
  ghost predicate Scribbled(m0: Mem, m: Mem, fs: seq<nat>) {
    forall f: nat, i: nat {:trigger Word(m, f, i)} :: f !in fs || i != 0 ==> Word(m, f, i) == Word(m0, f, i)
  }

  lemma InReversed(s: seq<nat>, f: nat)
    ensures f in Reversed(s) <==> f in s
  {
    ReversedElements(s);
    assert f in multiset(Reversed(s)) <==> f in Reversed(s);
  }

  /** The list and the memory after the frames ps have been freed one by one. */
  ghost predicate Returned(m0: Mem, m: Mem, ps: seq<nat>, fs0: seq<nat>, fs: seq<nat>) {
    fs == Reversed(ps) + fs0 && Scribbled(m0, m, ps)
  }

  lemma ReturnedNone(m: Mem, fs: seq<nat>)
    ensures Returned(m, m, [], fs, fs)
  {
  }

  lemma ReturnedNext(m0: Mem, m: Mem, ps: seq<nat>, fs0: seq<nat>, fs: seq<nat>, f: nat, link: word)
    requires Returned(m0, m, ps, fs0, fs) && f < PAGES
    ensures Returned(m0, Put(m, f, 0, link), ps + [f], fs0, [f] + fs)
  {
    ReversedAppend(ps, f);
    assert [f] + (Reversed(ps) + fs0) == [f] + Reversed(ps) + fs0;
  }

  lemma NotReturned(m0: Mem, m: Mem, ps: seq<nat>, fs0: seq<nat>, fs: seq<nat>, f: nat)
    requires Returned(m0, m, ps, fs0, fs) && f !in ps
    ensures f in fs <==> f in fs0
    ensures SameContent(m0, f, m, f)
  {
    InReversed(ps, f);
  }

  /** Frees the pages of table t and then the table. Freeing a page overwrites its first
      word, so the table must not be one of its own pages. */
  method FreeTable(ram: Ram, t: nat)
    requires ram.Valid() && t < PAGES && t !in ram.free
    requires var ps := PagesOf(ram.Snapshot(), t, WORDS);
      Distinct(ps) && t !in ps && InRam(ps) && forall f :: f in ps ==> f !in ram.free
    modifies ram, ram.words
    ensures ram.Valid() && ram.end == old(ram.end)
    ensures Returned(old(ram.Snapshot()), ram.Snapshot(), PagesOf(old(ram.Snapshot()), t, WORDS) + [t], old(ram.free), ram.free)
  {
    ghost var m0, fs0 := ram.Snapshot(), ram.free;
    ReturnedNone(m0, fs0);
    for j := 0 to WORDS
      invariant ram.Valid() && ram.end == old(ram.end)
      invariant Returned(m0, ram.Snapshot(), PagesOf(m0, t, j), fs0, ram.free)
    {
      FreePageOf(ram, t, j, m0, fs0);
    }
    FreeTableItself(ram, t, m0, PagesOf(m0, t, WORDS), fs0);
  }

  method FreeTableItself(ram: Ram, t: nat, ghost m0: Mem, ghost ps: seq<nat>, ghost fs0: seq<nat>)
    requires ram.Valid() && t < PAGES && t !in fs0 && t !in ps
    requires Returned(m0, ram.Snapshot(), ps, fs0, ram.free)
    modifies ram, ram.words
    ensures ram.Valid() && ram.end == old(ram.end)
    ensures Returned(m0, ram.Snapshot(), ps + [t], fs0, ram.free)
  {
    NotReturned(m0, ram.Snapshot(), ps, fs0, ram.free, t);
    ReturnedNext(m0, ram.Snapshot(), ps, fs0, ram.free, t, ram.freeList);
    ram.FreePage(Vir(t));
  }

  /** The body of the inner loop. */
  method FreePageOf(ram: Ram, t: nat, j: nat, ghost m0: Mem, ghost fs0: seq<nat>)
    requires ram.Valid() && t < PAGES && j < WORDS
    requires Returned(m0, ram.Snapshot(), PagesOf(m0, t, j), fs0, ram.free)
    requires var ps := PagesOf(m0, t, WORDS);
      Distinct(ps) && t !in ps && InRam(ps) && forall f :: f in ps ==> f !in fs0
    modifies ram, ram.words
    ensures ram.Valid() && ram.end == old(ram.end)
    ensures Returned(m0, ram.Snapshot(), PagesOf(m0, t, j + 1), fs0, ram.free)
  {
    var pte := ram.Load(t, j);
    FreePageReady(m0, t, j);
    NotReturned(m0, ram.Snapshot(), PagesOf(m0, t, j), fs0, ram.free, t);
    PagesOfNext(m0, t, j);
    if Present(pte) {
      var f := Target(pte);
      NotReturned(m0, ram.Snapshot(), PagesOf(m0, t, j), fs0, ram.free, f);
      ReturnedNext(m0, ram.Snapshot(), PagesOf(m0, t, j), fs0, ram.free, f, ram.freeList);
      ram.FreePage(Vir(f));
    }
  }

  lemma PagesOfNext(m: Mem, t: nat, j: nat)
    ensures PagesOf(m, t, j + 1) ==
            if Present(Word(m, t, j)) then PagesOf(m, t, j) + [Target(Word(m, t, j))] else PagesOf(m, t, j)
  {
  }

  lemma FreePageReady(m0: Mem, t: nat, j: nat)
    requires j < WORDS
    requires var ps := PagesOf(m0, t, WORDS); Distinct(ps) && t !in ps && InRam(ps)
    ensures t !in PagesOf(m0, t, j)
    ensures Present(Word(m0, t, j)) ==>
      var f := Target(Word(m0, t, j));
      f < PAGES && f !in PagesOf(m0, t, j) && f in PagesOf(m0, t, WORDS)
  {
    PagesOfPrefix(m0, t, j, WORDS);
    if Present(Word(m0, t, j)) {
      var f := Target(Word(m0, t, j));
      PagesOfPrefix(m0, t, j + 1, WORDS);
      DistinctPrefix(PagesOf(m0, t, j) + [f], PagesOf(m0, t, WORDS));
      DistinctAppend(PagesOf(m0, t, j), [f]);
      assert f in [f];
      InPages(m0, t, WORDS, f);
    }
  }

  lemma ReturnedTable(m0: Mem, m: Mem, m': Mem, ps: seq<nat>, qs: seq<nat>, fs0: seq<nat>, fs: seq<nat>, fs': seq<nat>)
    requires Returned(m0, m, ps, fs0, fs) && Returned(m, m', qs, fs, fs')
    ensures Returned(m0, m', ps + qs, fs0, fs')
  {
    ReversedConcat(ps, qs);
    assert Reversed(qs) + (Reversed(ps) + fs0) == Reversed(qs) + Reversed(ps) + fs0;
  }

  /** free_process_user_mem: walks the user half of directory d and frees every page and
      table it finds, in walking order. The directory keeps its entries. */
  method FreeProcessUserMem(ram: Ram, pagedir: word)
    requires ram.Valid() && IsPage(pagedir)
    requires Owned(ram.Snapshot(), FrameAt(pagedir), ram.free)
    modifies ram, ram.words
    ensures ram.Valid() && ram.end == old(ram.end)
    ensures Returned(old(ram.Snapshot()), ram.Snapshot(), Freed(old(ram.Snapshot()), FrameAt(pagedir), USER_ENTRIES), old(ram.free), ram.free)
  {
    ghost var m0, fs0 := ram.Snapshot(), ram.free;
    var d := FrameAt(pagedir);
    ReturnedNone(m0, fs0);
    for i := 0 to USER_ENTRIES
      invariant ram.Valid() && ram.end == old(ram.end)
      invariant Returned(m0, ram.Snapshot(), Freed(m0, d, i), fs0, ram.free)
    {
      FreeDirEntry(ram, d, i, m0, fs0);
    }
  }

  /** The body of the outer loop. */
  method FreeDirEntry(ram: Ram, d: nat, i: nat, ghost m0: Mem, ghost fs0: seq<nat>)
    requires ram.Valid() && d < PAGES && i < USER_ENTRIES && Owned(m0, d, fs0)
    requires Returned(m0, ram.Snapshot(), Freed(m0, d, i), fs0, ram.free)
    modifies ram, ram.words
    ensures ram.Valid() && ram.end == old(ram.end)
    ensures Returned(m0, ram.Snapshot(), Freed(m0, d, i + 1), fs0, ram.free)
  {
    ghost var m, fs := ram.Snapshot(), ram.free;
    var pde := ram.Load(d, i);
    FreeDirReady(m0, m, d, i, fs0, fs);
    if Present(pde) {
      FreeTable(ram, Target(pde));
      ReturnedTable(m0, m, ram.Snapshot(), Freed(m0, d, i), FreedTable(m0, pde), fs0, fs, ram.free);
    }
  }

  lemma FreedNext(m: Mem, d: nat, i: nat)
    ensures Freed(m, d, i + 1) == Freed(m, d, i) + FreedTable(m, Word(m, d, i))
    ensures !Present(Word(m, d, i)) ==> Freed(m, d, i + 1) == Freed(m, d, i)
  {
  }

  lemma InFreed(m: Mem, d: nat, n: nat, f: nat)
    ensures f in Freed(m, d, n) <==> f in Tree(m, d, n)
  {
    FreedElements(m, d, n);
    assert f in multiset(Freed(m, d, n)) <==> f in Freed(m, d, n);
    assert f in multiset(Tree(m, d, n)) <==> f in Tree(m, d, n);
  }

  /** Before entry i is freed, its table and pages are still what they were. */
  lemma FreeDirReady(m0: Mem, m: Mem, d: nat, i: nat, fs0: seq<nat>, fs: seq<nat>)
    requires i < USER_ENTRIES && Owned(m0, d, fs0)
    requires Returned(m0, m, Freed(m0, d, i), fs0, fs)
    ensures Word(m, d, i) == Word(m0, d, i)
    ensures Freed(m0, d, i + 1) == Freed(m0, d, i) + FreedTable(m0, Word(m0, d, i))
    ensures !Present(Word(m0, d, i)) ==> Freed(m0, d, i + 1) == Freed(m0, d, i)
    ensures Present(Word(m0, d, i)) ==>
      var t := Target(Word(m0, d, i));
      var ps := PagesOf(m, t, WORDS);
      && t < PAGES && t !in fs && ps == PagesOf(m0, t, WORDS)
      && Distinct(ps) && t !in ps && InRam(ps) && forall f :: f in ps ==> f !in fs
  {
    DirKept(m0, m, d, i, fs0, fs);
    FreedNext(m0, d, i);
    if Present(Word(m0, d, i)) {
      BranchReady(m0, m, d, i, fs0, fs);
    }
  }

  lemma BranchReady(m0: Mem, m: Mem, d: nat, i: nat, fs0: seq<nat>, fs: seq<nat>)
    requires i < USER_ENTRIES && Owned(m0, d, fs0) && Present(Word(m0, d, i))
    requires Returned(m0, m, Freed(m0, d, i), fs0, fs)
    ensures
      var t := Target(Word(m0, d, i));
      var ps := PagesOf(m, t, WORDS);
      && t < PAGES && t !in fs && ps == PagesOf(m0, t, WORDS)
      && Distinct(ps) && t !in ps && InRam(ps) && forall f :: f in ps ==> f !in fs
  {
    var t := Target(Word(m0, d, i));
    DistinctTail([d] + UserFrames(m0, d));
    BranchApart(m0, d, i);
    TableKept(m0, m, d, i, t, fs0, fs);
    PagesOfFrame(m0, m, t, WORDS);
    PagesKept(m0, m, d, i, t, fs0, fs);
  }

  lemma PagesKept(m0: Mem, m: Mem, d: nat, i: nat, t: nat, fs0: seq<nat>, fs: seq<nat>)
    requires i < USER_ENTRIES && Owned(m0, d, fs0)
    requires Present(Word(m0, d, i)) && t == Target(Word(m0, d, i))
    requires Returned(m0, m, Freed(m0, d, i), fs0, fs)
    requires forall f :: f in PagesOf(m0, t, WORDS) ==> f !in Tree(m0, d, i)
    ensures InRam(PagesOf(m0, t, WORDS))
    ensures forall f :: f in PagesOf(m0, t, WORDS) ==> f !in fs
  {
    var ps := PagesOf(m0, t, WORDS);
    forall f | f in ps
      ensures f < PAGES && f !in fs
    {
      TableKept(m0, m, d, i, f, fs0, fs);
    }
    assert forall k :: 0 <= k < |ps| ==> ps[k] in ps;
  }

  lemma DirKept(m0: Mem, m: Mem, d: nat, i: nat, fs0: seq<nat>, fs: seq<nat>)
    requires i < USER_ENTRIES && Owned(m0, d, fs0)
    requires Returned(m0, m, Freed(m0, d, i), fs0, fs)
    ensures SameContent(m0, d, m, d)
  {
    DistinctAppend([d], UserFrames(m0, d));
    assert d in [d];
    TreePrefix(m0, d, i, USER_ENTRIES);
    InFreed(m0, d, i, d);
    NotReturned(m0, m, Freed(m0, d, i), fs0, fs, d);
  }

  lemma TableKept(m0: Mem, m: Mem, d: nat, i: nat, f: nat, fs0: seq<nat>, fs: seq<nat>)
    requires i < USER_ENTRIES && Owned(m0, d, fs0)
    requires Returned(m0, m, Freed(m0, d, i), fs0, fs)
    requires f in Branch(m0, Word(m0, d, i)) && f !in Tree(m0, d, i)
    ensures f < PAGES && f !in fs && SameContent(m0, f, m, f)
  {
    InTree(m0, d, USER_ENTRIES, i, f);
    InFreed(m0, d, i, f);
    NotReturned(m0, m, Freed(m0, d, i), fs0, fs, f);
  }

  // ----- what fork and exit do to the stock of free pages

  /** Tearing a forked child down and freeing its directory gives back exactly the pages
      the fork took, each once. */
  method ForkThenTeardown(ram: Ram, parent: word)
    requires ram.Valid() && IsPage(parent)
    requires Forkable(ram.Snapshot(), FrameAt(parent), ram.free)
    requires |ram.free| > |UserFrames(ram.Snapshot(), FrameAt(parent))|
    modifies ram, ram.words
    ensures ram.Valid() && ram.end == old(ram.end)
    ensures multiset(ram.free) == multiset(old(ram.free))
  {
    ghost var m0, fs0 := ram.Snapshot(), ram.free;
    var child := CopyProcessMem(ram, parent);
    ghost var m1, fs1, c := ram.Snapshot(), ram.free, FrameAt(child);
    ChildOwned(m0, m1, FrameAt(parent), c, fs0, fs1);
    FreeProcessUserMem(ram, child);
    DirNotFreed(m1, ram.Snapshot(), c, fs1, ram.free);
    ram.FreePage(child);
    AllReturned(m1, c, fs0, fs1);
  }

  lemma DirNotFreed(m0: Mem, m: Mem, d: nat, fs0: seq<nat>, fs: seq<nat>)
    requires Owned(m0, d, fs0) && Returned(m0, m, Freed(m0, d, USER_ENTRIES), fs0, fs)
    ensures d !in fs
  {
    DistinctTail([d] + UserFrames(m0, d));
    InFreed(m0, d, USER_ENTRIES, d);
    NotReturned(m0, m, Freed(m0, d, USER_ENTRIES), fs0, fs, d);
  }

  lemma AllReturned(m: Mem, c: nat, fs0: seq<nat>, fs1: seq<nat>)
    requires multiset(fs0) == multiset([c] + UserFrames(m, c)) + multiset(fs1)
    ensures multiset([c] + (Reversed(Freed(m, c, USER_ENTRIES)) + fs1)) == multiset(fs0)
  {
    FreedElements(m, c, USER_ENTRIES);
    ReversedElements(Freed(m, c, USER_ENTRIES));
  }

  /** sys_exit frees no more than the directory (syscall.c:513), although its comment
      speaks of the user page and the tables as well. So a fork followed by the child's
      exit gives everything back if and only if the parent maps nothing at all in its
      user half; otherwise every table and page of the child is lost. */
  method ForkThenExit(ram: Ram, parent: word)
    requires ram.Valid() && IsPage(parent)
    requires Forkable(ram.Snapshot(), FrameAt(parent), ram.free)
    requires |ram.free| > |UserFrames(ram.Snapshot(), FrameAt(parent))|
    modifies ram, ram.words
    ensures ram.Valid() && ram.end == old(ram.end)
    ensures |ram.free| + |UserFrames(old(ram.Snapshot()), FrameAt(parent))| == |old(ram.free)|
    ensures multiset(ram.free) == multiset(old(ram.free)) <==>
            forall i: nat :: i < USER_ENTRIES ==> !Present(Word(old(ram.Snapshot()), FrameAt(parent), i))
  {
    ghost var m0, fs0 := ram.Snapshot(), ram.free;
    var child := CopyProcessMem(ram, parent);
    ghost var m1, fs1, c := ram.Snapshot(), ram.free, FrameAt(child);
    ChildOwned(m0, m1, FrameAt(parent), c, fs0, fs1);
    ram.FreePage(child);
    ExitBalance(m1, c, fs0, fs1);
    NoTables(m0, FrameAt(parent), USER_ENTRIES);
  }

  lemma ExitBalance(m: Mem, c: nat, fs0: seq<nat>, fs1: seq<nat>)
    requires multiset(fs0) == multiset([c] + UserFrames(m, c)) + multiset(fs1)
    ensures multiset([c] + fs1) == multiset(fs0) <==> |UserFrames(m, c)| == 0
  {
    assert multiset(fs0) == multiset([c] + fs1) + multiset(UserFrames(m, c));
    if multiset([c] + fs1) == multiset(fs0) {
      assert |multiset(fs0)| == |multiset([c] + fs1)| + |multiset(UserFrames(m, c))|;
    }
  }

  /** No entry below n is present. */
  ghost predicate NoneBelow(m: Mem, d: nat, n: nat) {
    forall i: nat :: i < n ==> !Present(Word(m, d, i))
  }

  lemma {:induction false} NoTables(m: Mem, d: nat, n: nat)
    ensures |Tree(m, d, n)| == 0 <==> NoneBelow(m, d, n)
  {
    if n > 0 {
      var k := n - 1;
      NoTables(m, d, k);
      TreeSize(m, d, k);
      BranchSize(m, Word(m, d, k));
      NoneMore(m, d, k);
    }
  }

  lemma NoneMore(m: Mem, d: nat, n: nat)
    ensures NoneBelow(m, d, n + 1) <==> NoneBelow(m, d, n) && !Present(Word(m, d, n))
  {
  }
}
