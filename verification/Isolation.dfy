/** All address spaces together: what fork, exit and the stores of user programs keep. */
module Isolation {
  import opened Words
  import opened FreeList
  import opened AddressSpace
  import opened Fork
  import opened ForkMeaning

  /** Physical memory, the directory of process 0, those of the other live processes, the
      free pages with what free_list holds and the word behind the last of them, and the
      frames of the kernel image: its code and variables. */
  datatype World = World(m: Mem, root: nat, dirs: seq<nat>, free: seq<nat>, head: word, end: word, image: set<nat>)

  /** The frames of an address space: directory, user tables, user pages. */
  function Space(m: Mem, d: nat): set<nat> { {d} + Elems(UserFrames(m, d)) }

  /** Process 0's directory and the tables in it lie outside space s. */
  ghost predicate RootOutside(m: Mem, root: nat, s: set<nat>) {
    && root !in s
    && forall k: nat {:trigger Word(m, root, k)} :: k < WORDS && Present(Word(m, root, k)) ==> Target(Word(m, root, k)) !in s
  }

  /** What every process other than 0 has: a space of its own, apart from the kernel image,
      and the kernel half of process 0. */
  ghost predicate ProcessOk(w: World, d: nat) {
    && Owned(w.m, d, w.free) && Forkable(w.m, d, w.free)
    && RootOutside(w.m, w.root, Space(w.m, d)) && Space(w.m, d) !! w.image
    && forall k: nat :: USER_ENTRIES <= k < WORDS ==> Word(w.m, d, k) == Word(w.m, w.root, k)
  }

  /** Process 0 can be forked and does not open the kernel half to user mode. */
  ghost predicate RootOk(w: World) {
    && Forkable(w.m, w.root, w.free)
    && forall k: nat :: USER_ENTRIES <= k < WORDS && Present(Word(w.m, w.root, k)) ==> !UserBit(Word(w.m, w.root, k))
  }

  /** The list in memory is the list of free pages, and every process is sound. */
  ghost predicate Ok(w: World) {
    && Chain(w.m, w.head, w.free, w.end) && Elems(w.free) !! w.image
    && RootOk(w)
    && (forall s :: 0 <= s < |w.dirs| ==> ProcessOk(w, w.dirs[s]))
    && forall s, t :: 0 <= s < t < |w.dirs| ==> Space(w.m, w.dirs[s]) !! Space(w.m, w.dirs[t])
  }

  // ----- changes that miss an address space

  /** A change outside an owned space leaves the space as it is. */
  lemma SpaceKept(m: Mem, m': Mem, d: nat, touched: set<nat>)
    requires Outside(m, m', touched) && Space(m, d) !! touched
    ensures UserFrames(m', d) == UserFrames(m, d)
    ensures forall f :: f in Space(m, d) ==> SameContent(m, f, m', f)
  {
    assert d in Space(m, d);
    forall k: nat {:trigger Word(m, d, k)} | k < USER_ENTRIES && Present(Word(m, d, k))
      ensures SameContent(m, Target(Word(m, d, k)), m', Target(Word(m, d, k)))
    {
      InTree(m, d, USER_ENTRIES, k, Target(Word(m, d, k)));
      assert Target(Word(m, d, k)) in Space(m, d);
    }
    TreeFrame(m, m', d, USER_ENTRIES);
  }

  /** A change outside a directory and all its tables, with a free list that still avoids
      them, keeps it forkable and keeps its translations. */
  lemma TablesKept(m: Mem, m': Mem, d: nat, free: seq<nat>, free': seq<nat>, touched: set<nat>)
    requires Forkable(m, d, free) && Outside(m, m', touched)
    requires d !in touched && d !in free'
    requires forall k: nat {:trigger Word(m, d, k)} :: k < WORDS && Present(Word(m, d, k)) ==>
               Target(Word(m, d, k)) !in touched && Target(Word(m, d, k)) !in free'
    ensures Forkable(m', d, free')
    ensures forall k: nat :: Word(m', d, k) == Word(m, d, k)
    ensures forall va: word {:trigger Translate(m', d, va)} :: Translate(m', d, va) == Translate(m, d, va)
  {
    forall va: word
      ensures Translate(m', d, va) == Translate(m, d, va)
    {
      var i := DirIndex(va);
      assert Word(m', d, i) == Word(m, d, i);
    }
    forall i: nat, j: nat {:trigger Word(m', Target(Word(m', d, i)), j)} |
      i < USER_ENTRIES && j < WORDS && Present(Word(m', d, i)) && Present(Word(m', Target(Word(m', d, i)), j))
      ensures Target(Word(m', Target(Word(m', d, i)), j)) < PAGES
    {
      assert Word(m', d, i) == Word(m, d, i);
      var t := Target(Word(m, d, i));
      assert Word(m', t, j) == Word(m, t, j);
    }
  }

  /** Every table of a process is in its own space or is one of process 0's. */
  lemma TablesWhere(w: World, d: nat, k: nat)
    requires ProcessOk(w, d) && k < WORDS && Present(Word(w.m, d, k))
    ensures Target(Word(w.m, d, k)) in Space(w.m, d)
         || (Present(Word(w.m, w.root, k)) && Target(Word(w.m, d, k)) == Target(Word(w.m, w.root, k)))
  {
    if k < USER_ENTRIES {
      InTree(w.m, d, USER_ENTRIES, k, Target(Word(w.m, d, k)));
    } else {
      assert Word(w.m, d, k) == Word(w.m, w.root, k);
    }
  }

  /** A process whose space, and process 0's tables, are missed by a change stays as it is. */
  lemma ProcessKept(w: World, w': World, d: nat, touched: set<nat>)
    requires ProcessOk(w, d) && w'.root == w.root && w'.image == w.image
    requires Outside(w.m, w'.m, touched) && Space(w.m, d) !! touched && RootOutside(w.m, w.root, touched)
    requires forall f :: f in w'.free ==> f in w.free || f in touched
    ensures ProcessOk(w', d) && Space(w'.m, d) == Space(w.m, d)
    ensures forall va: word {:trigger Translate(w'.m, d, va)} :: Translate(w'.m, d, va) == Translate(w.m, d, va)
    ensures forall f :: f in Space(w.m, d) ==> SameContent(w.m, f, w'.m, f)
  {
    SpaceKept(w.m, w'.m, d, touched);
    assert d in Space(w.m, d);
    forall k: nat {:trigger Word(w.m, d, k)} | k < WORDS && Present(Word(w.m, d, k))
      ensures Target(Word(w.m, d, k)) !in touched && Target(Word(w.m, d, k)) !in w'.free
    {
      TablesWhere(w, d, k);
    }
    TablesKept(w.m, w'.m, d, w.free, w'.free, touched);
    OwnedKept(w, w', d, touched);
    RootOutsideKept(w, w', Space(w.m, d), touched);
    forall k: nat | USER_ENTRIES <= k < WORDS
      ensures Word(w'.m, d, k) == Word(w'.m, w'.root, k)
    {
      assert Word(w.m, d, k) == Word(w.m, w.root, k);
    }
  }

  lemma OwnedKept(w: World, w': World, d: nat, touched: set<nat>)
    requires Owned(w.m, d, w.free) && UserFrames(w'.m, d) == UserFrames(w.m, d) && Space(w.m, d) !! touched
    requires forall f :: f in w'.free ==> f in w.free || f in touched
    ensures Owned(w'.m, d, w'.free)
  {
    assert d in Space(w.m, d);
    forall f | f in UserFrames(w.m, d)
      ensures f !in w'.free
    {
      assert f in Space(w.m, d);
    }
  }

  lemma RootOutsideKept(w: World, w': World, s: set<nat>, touched: set<nat>)
    requires RootOutside(w.m, w.root, s) && w'.root == w.root
    requires Outside(w.m, w'.m, touched) && w.root !in touched
    ensures RootOutside(w'.m, w'.root, s)
  {
    forall k: nat {:trigger Word(w'.m, w.root, k)} | k < WORDS && Present(Word(w'.m, w.root, k))
      ensures Target(Word(w'.m, w.root, k)) !in s
    {
      assert Word(w'.m, w.root, k) == Word(w.m, w.root, k);
    }
  }

  // ----- the steps

  /** copy_process_mem for the process with directory p, with result c. */
  ghost predicate Forks(w: World, w': World, p: nat, c: nat) {
    && (p == w.root || p in w.dirs)
    && DirState(w.m, w'.m, p, c, USER_ENTRIES, w.free, w'.free)
    && w' == World(w'.m, w.root, w.dirs + [c], w'.free, HeadOf(w'.free, w.end), w.end, w.image)
  }

  /** sys_exit of process s: free_page links its directory, and nothing else, in front of
      the list. */
  ghost predicate Exits(w: World, w': World, s: nat) {
    && s < |w.dirs| && w.dirs[s] < PAGES
    && var d := w.dirs[s];
    w' == World(Put(w.m, d, 0, w.head), w.root, w.dirs[..s] + w.dirs[s + 1..], [d] + w.free, Vir(d), w.end, w.image)
  }

  /** The user program of process s stores a word where its page tables let it. */
  ghost predicate Stores(w: World, w': World, s: nat, va: word, value: word) {
    && s < |w.dirs|
    && var to := Translate(w.m, w.dirs[s], va);
    && to.Mapped? && to.user && to.writable && to.frame < PAGES
    && w' == w.(m := Put(w.m, to.frame, va / 4 % 1024, value))
  }

  // ----- fork

  lemma ForkKeeps(w: World, w': World, p: nat, c: nat)
    requires Ok(w) && Forks(w, w', p, c)
    ensures Ok(w')
  {
    ForkParent(w, p);
    assert Forked(w.m, w'.m, p, c, w.free, w'.free);
    ChildOwned(w.m, w'.m, p, c, w.free, w'.free);
    ChildForkable(w.m, w'.m, p, c, w.free, w'.free);
    ForkFree(w, w', c);
    TablesKept(w.m, w'.m, w.root, w.free, w'.free, Elems(w.free));
    ForkOthers(w, w', c);
    ForkChild(w, w', p, c);
    ForkApart(w, w', c);
  }

  /** The free list is cut behind the child's frames; the rest is still linked. */
  lemma ForkFree(w: World, w': World, c: nat)
    requires Chain(w.m, w.head, w.free, w.end) && w.free == [c] + UserFrames(w'.m, c) + w'.free
    requires Unchanged(w.m, w'.m, w'.free)
    ensures Chain(w'.m, HeadOf(w'.free, w.end), w'.free, w.end)
    ensures forall f :: f in w'.free ==> f in w.free
    ensures Space(w'.m, c) <= Elems(w.free)
  {
    var t := UserFrames(w'.m, c);
    DistinctParts(c, t, w'.free, w.free);
    ChainSuffix(w.m, w'.m, w.head, [c] + t, w'.free, w.end);
    assert forall f :: f in w'.free ==> f in Elems(w.free);
  }

  /** The child's space comes off the free list, so no other space meets it. */
  lemma ForkApart(w: World, w': World, c: nat)
    requires Ok(w) && w'.dirs == w.dirs + [c] && Space(w'.m, c) <= Elems(w.free)
    requires forall s :: 0 <= s < |w.dirs| ==>
               Space(w'.m, w.dirs[s]) == Space(w.m, w.dirs[s]) && Space(w.m, w.dirs[s]) !! Elems(w.free)
    ensures forall s, t :: 0 <= s < t < |w'.dirs| ==> Space(w'.m, w'.dirs[s]) !! Space(w'.m, w'.dirs[t])
  {
    forall s, t | 0 <= s < t < |w'.dirs|
      ensures Space(w'.m, w'.dirs[s]) !! Space(w'.m, w'.dirs[t])
    {
      assert w'.dirs[s] == w.dirs[s];
      if t < |w.dirs| {
        assert Space(w.m, w.dirs[s]) !! Space(w.m, w.dirs[t]);
      } else {
        assert w'.dirs[t] == c;
      }
    }
  }

  /** Any live process can be forked; its kernel half is that of process 0. */
  lemma ForkParent(w: World, p: nat)
    requires Ok(w) && (p == w.root || p in w.dirs)
    ensures Forkable(w.m, p, w.free)
    ensures forall k: nat :: USER_ENTRIES <= k < WORDS ==> Word(w.m, p, k) == Word(w.m, w.root, k)
  {
    if p in w.dirs {
      var s :| 0 <= s < |w.dirs| && w.dirs[s] == p;
      assert ProcessOk(w, w.dirs[s]);
    }
  }

  lemma ForkOthers(w: World, w': World, c: nat)
    requires Ok(w) && Outside(w.m, w'.m, Elems(w.free)) && w'.root == w.root && w'.dirs == w.dirs + [c] && w'.image == w.image
    requires forall f :: f in w'.free ==> f in w.free
    ensures forall s :: 0 <= s < |w.dirs| ==>
              ProcessOk(w', w.dirs[s]) && Space(w'.m, w.dirs[s]) == Space(w.m, w.dirs[s]) && Space(w.m, w.dirs[s]) !! Elems(w.free)
  {
    forall s | 0 <= s < |w.dirs|
      ensures ProcessOk(w', w.dirs[s]) && Space(w'.m, w.dirs[s]) == Space(w.m, w.dirs[s]) && Space(w.m, w.dirs[s]) !! Elems(w.free)
    {
      assert ProcessOk(w, w.dirs[s]);
      ProcessKept(w, w', w.dirs[s], Elems(w.free));
    }
  }

  lemma ForkChild(w: World, w': World, p: nat, c: nat)
    requires Ok(w) && Forks(w, w', p, c) && Space(w'.m, c) <= Elems(w.free)
    requires Owned(w'.m, c, w'.free) && Forkable(w'.m, c, w'.free)
    requires forall k: nat :: Word(w'.m, w.root, k) == Word(w.m, w.root, k)
    ensures ProcessOk(w', c)
  {
    ForkParent(w, p);
    forall k: nat | USER_ENTRIES <= k < WORDS
      ensures Word(w'.m, c, k) == Word(w'.m, w'.root, k)
    {
      assert Word(w'.m, c, k) == Word(w.m, p, k);
    }
    forall k: nat {:trigger Word(w'.m, w.root, k)} | k < WORDS && Present(Word(w'.m, w.root, k))
      ensures Target(Word(w'.m, w.root, k)) !in Space(w'.m, c)
    {
      assert Word(w'.m, w.root, k) == Word(w.m, w.root, k);
    }
  }

  // ----- a change inside one process's space

  /** The processes other than the one whose space a change stays in, and process 0's tables. */
  lemma OthersKept(w: World, w': World, s: nat, touched: set<nat>, t: nat)
    requires Ok(w) && s < |w.dirs| && t < |w.dirs| && t != s && w'.root == w.root && w'.image == w.image
    requires touched <= Space(w.m, w.dirs[s]) && Outside(w.m, w'.m, touched)
    requires forall f :: f in w'.free ==> f in w.free || f in touched
    ensures ProcessOk(w', w.dirs[t]) && Space(w'.m, w.dirs[t]) == Space(w.m, w.dirs[t])
    ensures forall va: word {:trigger Translate(w'.m, w.dirs[t], va)} :: Translate(w'.m, w.dirs[t], va) == Translate(w.m, w.dirs[t], va)
    ensures forall f :: f in Space(w.m, w.dirs[t]) ==> SameContent(w.m, f, w'.m, f)
  {
    assert ProcessOk(w, w.dirs[s]) && ProcessOk(w, w.dirs[t]);
    assert Space(w.m, w.dirs[s]) !! Space(w.m, w.dirs[t]);
    ProcessKept(w, w', w.dirs[t], touched);
  }

  lemma RootKept(w: World, w': World, s: nat, touched: set<nat>)
    requires Ok(w) && s < |w.dirs| && w'.root == w.root
    requires touched <= Space(w.m, w.dirs[s]) && Outside(w.m, w'.m, touched)
    requires forall f :: f in w'.free ==> f in w.free || f in touched
    ensures Forkable(w'.m, w.root, w'.free)
    ensures forall k: nat :: Word(w'.m, w.root, k) == Word(w.m, w.root, k)
    ensures forall va: word {:trigger Translate(w'.m, w.root, va)} :: Translate(w'.m, w.root, va) == Translate(w.m, w.root, va)
  {
    assert ProcessOk(w, w.dirs[s]);
    TablesKept(w.m, w'.m, w.root, w.free, w'.free, touched);
  }

  // ----- exit

  /** Which process slot t of the list without slot s was. */
  function Before(s: nat, t: nat): nat { if t < s then t else t + 1 }

  lemma ExitOther(w: World, w': World, s: nat, t: nat)
    requires Ok(w) && Exits(w, w', s) && t < |w'.dirs|
    ensures w'.dirs[t] == w.dirs[Before(s, t)]
    ensures ProcessOk(w', w'.dirs[t]) && Space(w'.m, w'.dirs[t]) == Space(w.m, w'.dirs[t])
  {
    var d := w.dirs[s];
    ExitSlot(w.dirs, s, t);
    ExitTouches(w.m, w'.m, d, w.head);
    OthersKept(w, w', s, {d}, Before(s, t));
  }

  lemma ExitSlot(dirs: seq<nat>, s: nat, t: nat)
    requires s < |dirs| && t < |dirs| - 1
    ensures Before(s, t) < |dirs| && Before(s, t) != s && (dirs[..s] + dirs[s + 1..])[t] == dirs[Before(s, t)]
  {
  }

  lemma ExitTouches(m: Mem, m': Mem, d: nat, link: word)
    requires d < PAGES && m' == Put(m, d, 0, link)
    ensures Outside(m, m', {d}) && {d} <= Space(m, d)
  {
  }

  lemma ExitFree(w: World, w': World, s: nat)
    requires Ok(w) && Exits(w, w', s)
    ensures Chain(w'.m, w'.head, w'.free, w'.end) && Elems(w'.free) !! w'.image && RootOk(w')
  {
    var d := w.dirs[s];
    assert ProcessOk(w, d) && d in Space(w.m, d);
    ChainPush(w.m, w.head, w.free, w.end, d);
    RootKept(w, w', s, {d});
  }

  lemma ExitKeeps(w: World, w': World, s: nat)
    requires Ok(w) && Exits(w, w', s)
    ensures Ok(w')
  {
    ExitFree(w, w', s);
    forall t | 0 <= t < |w'.dirs|
      ensures ProcessOk(w', w'.dirs[t])
    {
      ExitOther(w, w', s, t);
    }
    forall t, u | 0 <= t < u < |w'.dirs|
      ensures Space(w'.m, w'.dirs[t]) !! Space(w'.m, w'.dirs[u])
    {
      ExitOther(w, w', s, t);
      ExitOther(w, w', s, u);
      assert Space(w.m, w.dirs[Before(s, t)]) !! Space(w.m, w.dirs[Before(s, u)]);
    }
  }

  // ----- user stores

  lemma KernelHalfClosed(w: World, d: nat, k: nat)
    requires Ok(w) && ProcessOk(w, d) && USER_ENTRIES <= k < WORDS && Present(Word(w.m, d, k))
    ensures !UserBit(Word(w.m, d, k))
  {
    assert Word(w.m, d, k) == Word(w.m, w.root, k);
  }

  /** The page a user program can write to is one of its own pages: not its directory and
      not a table of anyone. */
  lemma StoreTarget(w: World, s: nat, va: word)
    requires Ok(w) && s < |w.dirs| && Translate(w.m, w.dirs[s], va).Mapped? && Translate(w.m, w.dirs[s], va).user
    ensures va < KERNEL_BASE
    ensures var f := Translate(w.m, w.dirs[s], va).frame;
      && f in Space(w.m, w.dirs[s]) && f != w.dirs[s]
      && forall k: nat {:trigger Word(w.m, w.dirs[s], k)} :: k < WORDS && Present(Word(w.m, w.dirs[s], k)) ==> Target(Word(w.m, w.dirs[s], k)) != f
  {
    var d := w.dirs[s];
    assert ProcessOk(w, d);
    PageNumber(va);
    var i, j := DirIndex(va), TableIndex(va);
    if i >= USER_ENTRIES {
      KernelHalfClosed(w, d, i);
    }
    var f := Target(Word(w.m, Target(Word(w.m, d, i)), j));
    InPages(w.m, Target(Word(w.m, d, i)), WORDS, f);
    InTree(w.m, d, USER_ENTRIES, i, f);
    DistinctTail([d] + UserFrames(w.m, d));
    forall k: nat {:trigger Word(w.m, d, k)} | k < WORDS && Present(Word(w.m, d, k))
      ensures Target(Word(w.m, d, k)) != f
    {
      if k < USER_ENTRIES {
        TableIsNoPage(w.m, d, i, j, k);
      } else {
        assert Word(w.m, d, k) == Word(w.m, w.root, k);
      }
    }
  }

  /** In a tree without repetition no page is also a table. */
  lemma TableIsNoPage(m: Mem, d: nat, i: nat, j: nat, k: nat)
    requires Distinct(UserFrames(m, d)) && i < USER_ENTRIES && j < WORDS && k < USER_ENTRIES
    requires Present(Word(m, d, i)) && Present(Word(m, Target(Word(m, d, i)), j)) && Present(Word(m, d, k))
    ensures Target(Word(m, Target(Word(m, d, i)), j)) != Target(Word(m, d, k))
  {
    var f := Target(Word(m, Target(Word(m, d, i)), j));
    InPages(m, Target(Word(m, d, i)), WORDS, f);
    BranchApart(m, d, i);
    BranchApart(m, d, k);
    if i < k {
      InTree(m, d, k, i, f);
    } else if k < i {
      InTree(m, d, i, k, Target(Word(m, d, k)));
    }
  }

  /** A store changes no translation of its own process, and no frame of it but the one
      stored to. */
  lemma OwnKept(w: World, w': World, s: nat, va: word, value: word)
    requires Ok(w) && Stores(w, w', s, va, value)
    ensures ProcessOk(w', w.dirs[s]) && Space(w'.m, w.dirs[s]) == Space(w.m, w.dirs[s])
    ensures forall v: word {:trigger Translate(w'.m, w.dirs[s], v)} :: Translate(w'.m, w.dirs[s], v) == Translate(w.m, w.dirs[s], v)
  {
    var d, f := w.dirs[s], Translate(w.m, w.dirs[s], va).frame;
    assert ProcessOk(w, d);
    StoreTarget(w, s, va);
    forall k: nat {:trigger Word(w.m, d, k)} | k < USER_ENTRIES && Present(Word(w.m, d, k))
      ensures SameContent(w.m, Target(Word(w.m, d, k)), w'.m, Target(Word(w.m, d, k)))
    {
    }
    TreeFrame(w.m, w'.m, d, USER_ENTRIES);
    TablesKept(w.m, w'.m, d, w.free, w'.free, {f});
    RootKept(w, w', s, {f});
    RootOutsideKept(w, w', Space(w.m, d), {f});
  }

  lemma StoreKeeps(w: World, w': World, s: nat, va: word, value: word)
    requires Ok(w) && Stores(w, w', s, va, value)
    ensures Ok(w')
  {
    var f := Translate(w.m, w.dirs[s], va).frame;
    StoreTarget(w, s, va);
    StoreChain(w, w', s, va, value);
    RootKept(w, w', s, {f});
    forall t | 0 <= t < |w.dirs|
      ensures ProcessOk(w', w.dirs[t]) && Space(w'.m, w.dirs[t]) == Space(w.m, w.dirs[t])
    {
      if t == s {
        OwnKept(w, w', s, va, value);
      } else {
        OthersKept(w, w', s, {f}, t);
      }
    }
  }

  /** A user store misses the free list. */
  lemma StoreChain(w: World, w': World, s: nat, va: word, value: word)
    requires Ok(w) && Stores(w, w', s, va, value)
    ensures Chain(w'.m, w.head, w.free, w.end)
  {
    var f := Translate(w.m, w.dirs[s], va).frame;
    StoreTarget(w, s, va);
    assert ProcessOk(w, w.dirs[s]);
    ChainFrame(w.m, w'.m, w.head, w.free, w.end, {f});
  }

  /** Isolation: what one process stores changes no translation of any process, process 0
      included, no byte of any frame that belongs to another process or to the kernel
      image, and no link of the free list. */
  lemma StoreIsPrivate(w: World, w': World, s: nat, va: word, value: word, t: nat)
    requires Ok(w) && Stores(w, w', s, va, value) && t < |w.dirs|
    ensures forall v: word {:trigger Translate(w'.m, w.dirs[t], v)} :: Translate(w'.m, w.dirs[t], v) == Translate(w.m, w.dirs[t], v)
    ensures forall v: word {:trigger Translate(w'.m, w.root, v)} :: Translate(w'.m, w.root, v) == Translate(w.m, w.root, v)
    ensures t != s ==> forall f :: f in Space(w.m, w.dirs[t]) ==> SameContent(w.m, f, w'.m, f)
    ensures forall f :: f in w.image ==> SameContent(w.m, f, w'.m, f)
    ensures Chain(w'.m, w'.head, w'.free, w'.end)
  {
    var f := Translate(w.m, w.dirs[s], va).frame;
    StoreTarget(w, s, va);
    StoreChain(w, w', s, va, value);
    RootKept(w, w', s, {f});
    assert ProcessOk(w, w.dirs[s]);
    if t == s {
      OwnKept(w, w', s, va, value);
    } else {
      OthersKept(w, w', s, {f}, t);
    }
  }

  /** Two user pages of a process that lie in the same frame are the same page. */
  lemma PagesApart(w: World, s: nat, a: word, b: word)
    requires Ok(w) && s < |w.dirs| && a < KERNEL_BASE && b < KERNEL_BASE
    requires Translate(w.m, w.dirs[s], a).Mapped? && Translate(w.m, w.dirs[s], b).Mapped?
    ensures Translate(w.m, w.dirs[s], a).frame == Translate(w.m, w.dirs[s], b).frame <==> a / 4096 == b / 4096
  {
    var d := w.dirs[s];
    assert ProcessOk(w, d);
    PageNumber(a);
    PageNumber(b);
    SamePage(a, b);
    DistinctAppend([d], UserFrames(w.m, d));
    if a / 4096 != b / 4096 {
      TreeInjective(w.m, d, DirIndex(a), TableIndex(a), DirIndex(b), TableIndex(b));
    }
  }

  lemma WordNumber(a: word)
    ensures a / 4 == a / 4096 * 1024 + a / 4 % 1024
  {
    assert a / 4 / 1024 == a / 4096;
  }

  /** The user half of a process is memory: after a store every user address reads as
      before, but those in the word stored to, which read as the value. */
  lemma StoreThenLoad(w: World, w': World, s: nat, va: word, value: word, a: word)
    requires Ok(w) && Stores(w, w', s, va, value)
    requires a < KERNEL_BASE && Translate(w.m, w.dirs[s], a).Mapped?
    ensures Translate(w'.m, w.dirs[s], a) == Translate(w.m, w.dirs[s], a)
    ensures Word(w'.m, Translate(w.m, w.dirs[s], a).frame, a / 4 % 1024) ==
            if a / 4 == va / 4 then value else Word(w.m, Translate(w.m, w.dirs[s], a).frame, a / 4 % 1024)
  {
    StoreTarget(w, s, va);
    OwnKept(w, w', s, va, value);
    PagesApart(w, s, a, va);
    WordNumber(a);
    WordNumber(va);
  }
}
