/** Runs of all processes together, and the kernel's own code as steps of them. */
module IsolationRuns {
  import opened Words
  import opened FreeList
  import opened Paging
  import opened AddressSpace
  import opened PhysicalMemory
  import opened Boot
  import opened Fork
  import opened ForkMeaning
  import opened Isolation
  import opened ZeroStores

  ghost predicate StoresSafely(w: World, w': World, va: word, value: word) {
    && RootStores(w, w', va, value)
    && SafeStore(w, Translate(w.m, w.root, va).frame, va / 4 % 1024, value)
  }

  ghost predicate Next(w: World, w': World) {
    || (exists p, c :: Forks(w, w', p, c))
    || (exists s: nat :: Exits(w, w', s))
    || (exists s: nat, va, value :: Stores(w, w', s, va, value))
    || (exists va, value :: StoresSafely(w, w', va, value))
  }

  /** A step that is neither the exit of process d nor a store of its user program. */
  ghost predicate NextOfOthers(w: World, w': World, d: nat) {
    || (exists p, c :: Forks(w, w', p, c))
    || (exists s: nat :: Exits(w, w', s) && w.dirs[s] != d)
    || (exists s: nat, va, value :: Stores(w, w', s, va, value) && w.dirs[s] != d)
    || (exists va, value :: StoresSafely(w, w', va, value))
  }

  // ----- one step

  ghost predicate ImageKept(w: World, w': World) {
    w'.image == w.image && forall f :: f in w.image ==> SameContent(w.m, f, w'.m, f)
  }

  lemma SafeStep(w: World, w': World, va: word, value: word)
    requires Ok(w) && StoresSafely(w, w', va, value)
    ensures Ok(w') && Undisturbed(w, w')
  {
    ZeroStoreIff(w, w', va, value);
  }

  lemma ExitStep(w: World, w': World, s: nat)
    requires Ok(w) && Exits(w, w', s)
    ensures Ok(w') && ImageKept(w, w')
  {
    ExitKeeps(w, w', s);
    assert ProcessOk(w, w.dirs[s]) && w.dirs[s] in Space(w.m, w.dirs[s]);
  }

  lemma StoreStep(w: World, w': World, s: nat, va: word, value: word)
    requires Ok(w) && Stores(w, w', s, va, value)
    ensures Ok(w') && ImageKept(w, w')
  {
    StoreKeeps(w, w', s, va, value);
    StoreIsPrivate(w, w', s, va, value, s);
  }

  lemma NextKeeps(w: World, w': World)
    requires Ok(w) && Next(w, w')
    ensures Ok(w') && ImageKept(w, w')
  {
    if p, c :| Forks(w, w', p, c) {
      ForkKeeps(w, w', p, c);
    } else if s: nat :| Exits(w, w', s) {
      ExitStep(w, w', s);
    } else if s: nat, va, value :| Stores(w, w', s, va, value) {
      StoreStep(w, w', s, va, value);
    } else {
      var va, value :| StoresSafely(w, w', va, value);
      SafeStep(w, w', va, value);
    }
  }

  /** Process d lives on with the same frames, the same bytes in them and the same
      translations. */
  ghost predicate Untouched(w: World, w': World, d: nat) {
    && d in w'.dirs && Space(w'.m, d) == Space(w.m, d)
    && (forall f :: f in Space(w.m, d) ==> SameContent(w.m, f, w'.m, f))
    && forall va: word {:trigger Translate(w'.m, d, va)} :: Translate(w'.m, d, va) == Translate(w.m, d, va)
  }

  lemma UntouchedByFork(w: World, w': World, p: nat, c: nat, d: nat)
    requires Ok(w) && d in w.dirs && Forks(w, w', p, c)
    ensures Untouched(w, w', d)
  {
    var t :| 0 <= t < |w.dirs| && w.dirs[t] == d;
    assert ProcessOk(w, w.dirs[t]) && w'.dirs[t] == d;
    ForkFree(w, w', c);
    ForkOthers(w, w', c);
    ProcessKept(w, w', d, Elems(w.free));
  }

  lemma UntouchedByExit(w: World, w': World, s: nat, d: nat)
    requires Ok(w) && d in w.dirs && Exits(w, w', s) && w.dirs[s] != d
    ensures Untouched(w, w', d)
  {
    var t :| 0 <= t < |w.dirs| && w.dirs[t] == d;
    assert w.dirs[s] in Space(w.m, w.dirs[s]);
    OthersKept(w, w', s, {w.dirs[s]}, t);
    assert w'.dirs[if t < s then t else t - 1] == d;
  }

  lemma UntouchedByStore(w: World, w': World, s: nat, va: word, value: word, d: nat)
    requires Ok(w) && d in w.dirs && Stores(w, w', s, va, value) && w.dirs[s] != d
    ensures Untouched(w, w', d)
  {
    var t :| 0 <= t < |w.dirs| && w.dirs[t] == d;
    StoreTarget(w, s, va);
    OthersKept(w, w', s, {Translate(w.m, w.dirs[s], va).frame}, t);
  }

  lemma UntouchedBySafeStore(w: World, w': World, va: word, value: word, d: nat)
    requires Ok(w) && d in w.dirs && StoresSafely(w, w', va, value)
    ensures Untouched(w, w', d)
  {
    var t :| 0 <= t < |w.dirs| && w.dirs[t] == d;
    SafeStep(w, w', va, value);
    assert ProcessOk(w, w.dirs[t]);
    SameSpace(w, w', t);
  }

  /** A frame of the space that keeps its content keeps the tree. */
  lemma SameSpace(w: World, w': World, t: nat)
    requires Ok(w) && t < |w.dirs| && Undisturbed(w, w')
    ensures Space(w'.m, w.dirs[t]) == Space(w.m, w.dirs[t])
  {
    var d := w.dirs[t];
    assert d in Space(w.m, d) && SameContent(w.m, d, w'.m, d);
    forall k: nat {:trigger Word(w.m, d, k)} | k < USER_ENTRIES && Present(Word(w.m, d, k))
      ensures SameContent(w.m, Target(Word(w.m, d, k)), w'.m, Target(Word(w.m, d, k)))
    {
      InTree(w.m, d, USER_ENTRIES, k, Target(Word(w.m, d, k)));
      assert Target(Word(w.m, d, k)) in Space(w.m, d);
    }
    TreeFrame(w.m, w'.m, d, USER_ENTRIES);
  }

  lemma OthersLeaveAlone(w: World, w': World, d: nat)
    requires Ok(w) && d in w.dirs && NextOfOthers(w, w', d)
    ensures Next(w, w') && Untouched(w, w', d)
  {
    if p, c :| Forks(w, w', p, c) {
      UntouchedByFork(w, w', p, c, d);
    } else if s: nat :| Exits(w, w', s) && w.dirs[s] != d {
      UntouchedByExit(w, w', s, d);
    } else if s: nat, va, value :| Stores(w, w', s, va, value) && w.dirs[s] != d {
      UntouchedByStore(w, w', s, va, value, d);
    } else {
      var va, value :| StoresSafely(w, w', va, value);
      UntouchedBySafeStore(w, w', va, value, d);
    }
  }

  // ----- every run

  ghost predicate NextAt(run: seq<World>, i: nat) {
    i + 1 < |run| && Next(run[i], run[i + 1])
  }

  ghost predicate NextOfOthersAt(run: seq<World>, i: nat, d: nat) {
    i + 1 < |run| && NextOfOthers(run[i], run[i + 1], d)
  }

  ghost predicate RunOf(run: seq<World>) {
    run != [] && Ok(run[0]) && forall i: nat :: i < |run| - 1 ==> NextAt(run, i)
  }

  ghost predicate RunOfOthers(run: seq<World>, d: nat) {
    run != [] && Ok(run[0]) && d in run[0].dirs && forall i: nat :: i < |run| - 1 ==> NextOfOthersAt(run, i, d)
  }

  lemma RunPrefix(run: seq<World>)
    requires |run| > 1 && RunOf(run)
    ensures RunOf(run[..|run| - 1]) && Next(run[|run| - 2], run[|run| - 1])
  {
    var r := run[..|run| - 1];
    forall i: nat | i < |r| - 1
      ensures NextAt(r, i)
    {
      assert NextAt(run, i);
    }
    assert NextAt(run, |run| - 2);
  }

  lemma RunOfOthersPrefix(run: seq<World>, d: nat)
    requires |run| > 1 && RunOfOthers(run, d)
    ensures RunOfOthers(run[..|run| - 1], d) && NextOfOthers(run[|run| - 2], run[|run| - 1], d)
  {
    var r := run[..|run| - 1];
    forall i: nat | i < |r| - 1
      ensures NextOfOthersAt(r, i, d)
    {
      assert NextOfOthersAt(run, i, d);
    }
    assert NextOfOthersAt(run, |run| - 2, d);
  }

  lemma ImageKeptTwice(a: World, b: World, c: World)
    requires ImageKept(a, b) && ImageKept(b, c)
    ensures ImageKept(a, c)
  {
  }

  lemma UntouchedTwice(a: World, b: World, c: World, d: nat)
    requires Untouched(a, b, d) && Untouched(b, c, d)
    ensures Untouched(a, c, d)
  {
    forall va: word
      ensures Translate(c.m, d, va) == Translate(a.m, d, va)
    {
      assert Translate(b.m, d, va) == Translate(a.m, d, va);
    }
  }

  /** From a sound world on, after any number of forks, exits, stores by the other
      processes, and safe stores by process 0, the world is sound: no two live processes
      other than process 0 share a frame, and the list in memory is that of the free
      pages. The kernel image is as it was. */
  lemma {:induction false} EveryRun(run: seq<World>)
    requires RunOf(run)
    ensures Ok(run[|run| - 1]) && ImageKept(run[0], run[|run| - 1])
    decreases |run|
  {
    var n := |run| - 1;
    if n > 0 {
      RunPrefix(run);
      EveryRun(run[..n]);
      NextKeeps(run[n - 1], run[n]);
      ImageKeptTwice(run[0], run[n - 1], run[n]);
    }
  }

  /** Whatever the others do, a process that neither stores nor exits itself keeps its
      frames, every byte in them and all its translations over the whole run. */
  lemma {:induction false} ProcessUndisturbed(run: seq<World>, d: nat)
    requires RunOfOthers(run, d)
    ensures Ok(run[|run| - 1]) && Untouched(run[0], run[|run| - 1], d)
    decreases |run|
  {
    var n := |run| - 1;
    if n > 0 {
      RunOfOthersPrefix(run, d);
      ProcessUndisturbed(run[..n], d);
      OthersLeaveAlone(run[n - 1], run[n], d);
      NextKeeps(run[n - 1], run[n]);
      UntouchedTwice(run[0], run[n - 1], run[n], d);
    }
  }

  // ----- the kernel's own steps are such steps

  /** World w is what memory, free list and its variables hold. */
  ghost predicate Shows(ram: Ram, w: World)
    reads ram, ram.words
  {
    ram.Valid() && w.m == ram.Snapshot() && w.free == ram.free && w.head == ram.freeList && w.end == ram.end
  }

  /** Booting leaves a sound world with process 0 alone, whichever frames that begin before
      the kernel's end count as its image. */
  method BootWorld(ram: Ram, d: nat, pt: nat, kernelEnd: word, ghost image: set<nat>) returns (ghost w: World)
    requires ram.words.Length == RAM_WORDS && BootFrames(d, pt)
    requires forall f: nat, i: nat {:trigger Word(ram.Snapshot(), f, i)} ::
               f == d || pt <= f < pt + KERNEL_TABLES ==> Word(ram.Snapshot(), f, i) == 0
    requires KERNEL_BASE <= kernelEnd <= KERNEL_BASE + PAGES * 4096 - 3 * 4096
    requires d < FirstFree(kernelEnd) && pt + KERNEL_TABLES <= FirstFree(kernelEnd)
    requires forall f :: f in image ==> KERNEL_BASE + f * 4096 < kernelEnd
    modifies ram, ram.words
    ensures Shows(ram, w) && Ok(w) && w.root == d && w.dirs == [] && w.image == image
  {
    var stack := BootToUser(ram, d, pt, kernelEnd);
    w := World(ram.Snapshot(), d, [], ram.free, ram.freeList, ram.end, image);
  }

  /** Forking process 0 or any other live process is a fork step of the world. */
  method ForkWorld(ram: Ram, parent: word, ghost w: World) returns (child: word, ghost w': World)
    requires Shows(ram, w) && Ok(w) && IsPage(parent)
    requires FrameAt(parent) == w.root || FrameAt(parent) in w.dirs
    requires |ram.free| > |UserFrames(ram.Snapshot(), FrameAt(parent))|
    modifies ram, ram.words
    ensures IsPage(child) && Shows(ram, w') && Ok(w') && Forks(w, w', FrameAt(parent), FrameAt(child))
  {
    ForkParent(w, FrameAt(parent));
    child := CopyProcessMem(ram, parent);
    w' := World(ram.Snapshot(), w.root, w.dirs + [FrameAt(child)], ram.free, ram.freeList, ram.end, w.image);
    ForkKeeps(w, w', FrameAt(parent), FrameAt(child));
  }

  /** free_page on the directory of process s is an exit step of the world. */
  method ExitWorld(ram: Ram, pagedir: word, ghost w: World, ghost s: nat) returns (ghost w': World)
    requires Shows(ram, w) && Ok(w) && IsPage(pagedir) && s < |w.dirs| && FrameAt(pagedir) == w.dirs[s]
    modifies ram, ram.words
    ensures Shows(ram, w') && Ok(w') && Exits(w, w', s)
  {
    assert ProcessOk(w, w.dirs[s]);
    ram.FreePage(pagedir);
    w' := World(ram.Snapshot(), w.root, w.dirs[..s] + w.dirs[s + 1..], ram.free, ram.freeList, ram.end, w.image);
    ExitKeeps(w, w', s);
  }

  lemma ForkedRootView(m0: Mem, m: Mem, p: nat, c: nat, fs0: seq<nat>, fs: seq<nat>)
    requires Forked(m0, m, p, c, fs0, fs)
    ensures fs0 != [] && c == fs0[0]
    ensures forall va: word {:trigger Translate(m, p, va)} :: Translate(m, p, va) == Translate(m0, p, va)
  {
    assert fs0[0] == c;
    forall va: word
      ensures Translate(m, p, va) == Translate(m0, p, va)
    {
      ParentUnchanged(m0, m, p, c, fs0, fs, va);
    }
  }

  /** Why stores by process 0 need the test: if the kernel ends within the first 2 MB, the
      first child's directory lies in the low 4 MB, so process 0 can write to it. Any store
      that changes its first word disturbs the child. */
  method FirstChildInReach(ram: Ram, d: nat, pt: nat, kernelEnd: word, ghost image: set<nat>)
    returns (child: word, ghost w: World)
    requires ram.words.Length == RAM_WORDS && BootFrames(d, pt)
    requires forall f: nat, i: nat {:trigger Word(ram.Snapshot(), f, i)} ::
               f == d || pt <= f < pt + KERNEL_TABLES ==> Word(ram.Snapshot(), f, i) == 0
    requires KERNEL_BASE <= kernelEnd <= KERNEL_BASE + 0x20_0000
    requires d < FirstFree(kernelEnd) && pt + KERNEL_TABLES <= FirstFree(kernelEnd)
    requires forall f :: f in image ==> KERNEL_BASE + f * 4096 < kernelEnd
    modifies ram, ram.words
    ensures IsPage(child) && Shows(ram, w) && Ok(w)
    ensures w.root == d && w.dirs == [FrameAt(child)] && FrameAt(child) == FirstFree(kernelEnd) + 3 && FrameAt(child) < 1024
    ensures Translate(w.m, d, FrameAt(child) * 4096) == Mapped(FrameAt(child), true, true)
    ensures forall w', value: word :: RootStores(w, w', FrameAt(child) * 4096, value) && value != Word(w.m, FrameAt(child), 0) ==>
              !Undisturbed(w, w')
  {
    var stack := BootToUser(ram, d, pt, kernelEnd);
    ghost var w0 := World(ram.Snapshot(), d, [], ram.free, ram.freeList, ram.end, image);
    ghost var va: word := (FirstFree(kernelEnd) + 3) * 4096;
    assert Translate(w0.m, d, va) == Mapped(FirstFree(kernelEnd) + 3, true, true);
    child, w := ForkWorld(ram, Vir(d), w0);
    ForkedRootView(w0.m, w.m, d, FrameAt(child), w0.free, w.free);
    DirectoryInReach(w, FrameAt(child));
  }

  lemma DirectoryInReach(w: World, c: nat)
    requires Ok(w) && w.dirs == [c] && c < 1024
    requires Translate(w.m, w.root, c * 4096) == Mapped(c, true, true)
    ensures forall w', value: word :: RootStores(w, w', c * 4096, value) && value != Word(w.m, c, 0) ==> !Undisturbed(w, w')
  {
    forall w', value: word | RootStores(w, w', c * 4096, value) && value != Word(w.m, c, 0)
      ensures !Undisturbed(w, w')
    {
      FirstWord(c);
      UndisturbedIff(w, w', c, 0, value);
      assert c in Space(w.m, w.dirs[0]);
    }
  }

  lemma FirstWord(c: nat)
    ensures c * 4096 / 4 % 1024 == 0
  {
    assert c * 4096 / 4 == c * 1024;
  }
}
