/** What the stores of process 0 can do to everyone else. Its user half maps the first
    4 MB of memory, whatever lies there. */
module ZeroStores {
  import opened Words
  import opened FreeList
  import opened AddressSpace
  import opened Fork
  import opened Isolation

  /** Process 0 stores a word where its page tables let it. */
  ghost predicate RootStores(w: World, w': World, va: word, value: word) {
    var to := Translate(w.m, w.root, va);
    && to.Mapped? && to.user && to.writable && to.frame < PAGES
    && w' == w.(m := Put(w.m, to.frame, va / 4 % 1024, value))
  }

  /** Nothing of anyone else's has changed: no frame of another process or of the kernel
      image, no translation of any process, no link of the free list. */
  ghost predicate Undisturbed(w: World, w': World) {
    && Chain(w'.m, w.head, w.free, w.end)
    && (forall f :: f in w.image ==> SameContent(w.m, f, w'.m, f))
    && (forall s, f {:trigger SameContent(w.m, f, w'.m, f), w.dirs[s]} ::
          0 <= s < |w.dirs| && f in Space(w.m, w.dirs[s]) ==> SameContent(w.m, f, w'.m, f))
    && (forall va: word {:trigger Translate(w'.m, w.root, va)} :: Translate(w'.m, w.root, va) == Translate(w.m, w.root, va))
    && forall s, va: word {:trigger Translate(w'.m, w.dirs[s], va)} ::
         0 <= s < |w.dirs| ==> Translate(w'.m, w.dirs[s], va) == Translate(w.m, w.dirs[s], va)
  }

  // ----- the test

  /** What table entry pte means behind directory entry pde. */
  function Shown(pde: word, pte: word): Translation {
    if !Present(pde) || !Present(pte) then Fault
    else Mapped(Target(pte), UserBit(pde) && UserBit(pte), Writable(pde) && Writable(pte))
  }

  /** In nobody's space. */
  ghost predicate Nobodys(w: World, f: nat) {
    forall s :: 0 <= s < |w.dirs| ==> f !in Space(w.m, w.dirs[s])
  }

  /** The test before a store of value to word i of frame f: no frame of another process or
      of the kernel image; not the link of a free page; in a table of process 0, an entry
      that means the same to every directory entry that names the table; in process 0's
      directory, an entry behind which the same 1024 pages are found. */
  ghost predicate Harmless(w: World, f: nat, i: nat, value: word)
    requires f < PAGES && i < WORDS
  {
    var m' := Put(w.m, f, i, value);
    && Nobodys(w, f) && f !in w.image
    && !(f in w.free && i == 0)
    && (forall k: nat {:trigger Word(w.m, w.root, k)} :: k < WORDS && Present(Word(w.m, w.root, k)) && Target(Word(w.m, w.root, k)) == f ==>
          Shown(Word(w.m, w.root, k), value) == Shown(Word(w.m, w.root, k), Word(w.m, f, i)))
    && (f == w.root ==>
          forall j: nat {:trigger Word(m', Target(value), j)} :: j < WORDS ==>
            Shown(value, Word(m', Target(value), j)) == Shown(Word(w.m, f, i), Word(w.m, Target(Word(w.m, f, i)), j)))
  }

  /** The further test on an entry stored into process 0's directory: the table it names is
      in RAM, not the directory itself, not free and in nobody's space; and the kernel half,
      which all processes have in common, only changes while process 0 is alone, and stays
      closed to user mode. */
  ghost predicate EntryFits(w: World, f: nat, i: nat, value: word) {
    f == w.root ==>
      && (Present(value) ==> var t := Target(value); t < PAGES && t != w.root && t !in w.free && Nobodys(w, t))
      && (i >= USER_ENTRIES ==> w.dirs == [] && (Present(value) ==> !UserBit(value)))
  }

  ghost predicate SafeStore(w: World, f: nat, i: nat, value: word)
    requires f < PAGES && i < WORDS
  {
    Word(w.m, f, i) == value || (Harmless(w, f, i, value) && EntryFits(w, f, i, value))
  }

  // ----- a harmless store disturbs nobody

  lemma WalkShown(m: Mem, d: nat, i: nat, j: nat)
    ensures Walk(m, d, i, j) == Shown(Word(m, d, i), Word(m, Target(Word(m, d, i)), j))
  {
  }

  /** The address of a page's first byte. */
  function PageAddress(i: nat, j: nat): (va: word)
    requires i < 1024 && j < 1024
    ensures DirIndex(va) == i && TableIndex(va) == j
  {
    (i * 1024 + j) * 4096
  }

  lemma RootTranslations(w: World, f: nat, i: nat, value: word, va: word)
    requires Ok(w) && f < PAGES && i < WORDS && Harmless(w, f, i, value)
    ensures Translate(Put(w.m, f, i, value), w.root, va) == Translate(w.m, w.root, va)
  {
    var m' := Put(w.m, f, i, value);
    var k, j := DirIndex(va), TableIndex(va);
    WalkShown(w.m, w.root, k, j);
    WalkShown(m', w.root, k, j);
    if f == w.root && k == i {
      assert Shown(value, Word(m', Target(value), j)) == Shown(Word(w.m, f, i), Word(w.m, Target(Word(w.m, f, i)), j));
    }
  }

  lemma DirTranslations(w: World, s: nat, f: nat, i: nat, value: word, va: word)
    requires Ok(w) && s < |w.dirs| && f < PAGES && i < WORDS && Harmless(w, f, i, value)
    ensures Translate(Put(w.m, f, i, value), w.dirs[s], va) == Translate(w.m, w.dirs[s], va)
  {
    var m', d := Put(w.m, f, i, value), w.dirs[s];
    var k, j := DirIndex(va), TableIndex(va);
    assert ProcessOk(w, d) && d in Space(w.m, d);
    WalkShown(w.m, d, k, j);
    WalkShown(m', d, k, j);
    if Present(Word(w.m, d, k)) {
      if k < USER_ENTRIES {
        InTree(w.m, d, USER_ENTRIES, k, Target(Word(w.m, d, k)));
      } else {
        assert Word(w.m, d, k) == Word(w.m, w.root, k);
      }
    }
  }

  /** A store that misses the links leaves the list. */
  lemma LinksMissed(m: Mem, head: word, free: seq<nat>, end: word, f: nat, i: nat, value: word)
    requires Chain(m, head, free, end) && f < PAGES && i < WORDS && !(f in free && i == 0)
    ensures Chain(Put(m, f, i, value), head, free, end)
  {
  }

  lemma HarmlessStore(w: World, w': World, f: nat, i: nat, value: word)
    requires Ok(w) && f < PAGES && i < WORDS && w'.m == Put(w.m, f, i, value) && Harmless(w, f, i, value)
    ensures Undisturbed(w, w')
  {
    LinksMissed(w.m, w.head, w.free, w.end, f, i, value);
    forall v: word
      ensures Translate(w'.m, w.root, v) == Translate(w.m, w.root, v)
    {
      RootTranslations(w, f, i, value, v);
    }
    forall s, v: word | 0 <= s < |w.dirs|
      ensures Translate(w'.m, w.dirs[s], v) == Translate(w.m, w.dirs[s], v)
    {
      DirTranslations(w, s, f, i, value, v);
    }
  }

  // ----- and no other store does

  lemma TableHit(w: World, m': Mem, f: nat, i: nat, value: word, k: nat)
    requires Ok(w) && f < PAGES && i < WORDS && m' == Put(w.m, f, i, value)
    requires k < WORDS && Present(Word(w.m, w.root, k)) && Target(Word(w.m, w.root, k)) == f
    requires forall va: word {:trigger Translate(m', w.root, va)} :: Translate(m', w.root, va) == Translate(w.m, w.root, va)
    ensures Shown(Word(w.m, w.root, k), value) == Shown(Word(w.m, w.root, k), Word(w.m, f, i))
  {
    var va := PageAddress(k, i);
    assert Translate(m', w.root, va) == Translate(w.m, w.root, va);
    WalkShown(w.m, w.root, k, i);
    WalkShown(m', w.root, k, i);
  }

  lemma DirectoryHit(w: World, m': Mem, i: nat, value: word, j: nat)
    requires Ok(w) && i < WORDS && j < WORDS && m' == Put(w.m, w.root, i, value)
    requires forall va: word {:trigger Translate(m', w.root, va)} :: Translate(m', w.root, va) == Translate(w.m, w.root, va)
    ensures Shown(value, Word(m', Target(value), j)) == Shown(Word(w.m, w.root, i), Word(w.m, Target(Word(w.m, w.root, i)), j))
  {
    var va := PageAddress(i, j);
    assert Translate(m', w.root, va) == Translate(w.m, w.root, va);
    WalkShown(w.m, w.root, i, j);
    WalkShown(m', w.root, i, j);
  }

  /** Two memories with the same list agree on the links. */
  lemma LinkKept(m: Mem, m': Mem, head: word, fs: seq<nat>, end: word, f: nat)
    requires Chain(m, head, fs, end) && Chain(m', head, fs, end)
    ensures f in fs ==> Word(m', f, 0) == Word(m, f, 0)
  {
    if f in fs {
      var k :| 0 <= k < |fs| && fs[k] == f;
      assert Word(m, fs[k], 0) == Link(fs, k + 1, end);
    }
  }

  lemma OnlyHarmless(w: World, w': World, f: nat, i: nat, value: word)
    requires Ok(w) && f < PAGES && i < WORDS
    requires w'.m == Put(w.m, f, i, value) && Word(w.m, f, i) != value && Undisturbed(w, w')
    ensures Harmless(w, f, i, value)
  {
    assert Word(w'.m, f, i) == value;
    forall s | 0 <= s < |w.dirs|
      ensures f !in Space(w.m, w.dirs[s])
    {
      assert f in Space(w.m, w.dirs[s]) ==> SameContent(w.m, f, w'.m, f);
    }
    LinkKept(w.m, w'.m, w.head, w.free, w.end, f);
    forall k: nat {:trigger Word(w.m, w.root, k)} | k < WORDS && Present(Word(w.m, w.root, k)) && Target(Word(w.m, w.root, k)) == f
      ensures Shown(Word(w.m, w.root, k), value) == Shown(Word(w.m, w.root, k), Word(w.m, f, i))
    {
      TableHit(w, w'.m, f, i, value, k);
    }
    if f == w.root {
      forall j: nat | j < WORDS
        ensures Shown(value, Word(w'.m, Target(value), j)) == Shown(Word(w.m, f, i), Word(w.m, Target(Word(w.m, f, i)), j))
      {
        DirectoryHit(w, w'.m, i, value, j);
      }
    }
  }

  lemma SameWord(m: Mem, f: nat, i: nat)
    requires f < PAGES && i < WORDS
    ensures Put(m, f, i, Word(m, f, i)) == m
  {
  }

  /** A store of process 0 leaves everyone undisturbed if and only if it is harmless, or
      stores what is there already. */
  lemma UndisturbedIff(w: World, w': World, f: nat, i: nat, value: word)
    requires Ok(w) && f < PAGES && i < WORDS && w'.m == Put(w.m, f, i, value)
    ensures Undisturbed(w, w') <==> Word(w.m, f, i) == value || Harmless(w, f, i, value)
  {
    if Word(w.m, f, i) == value {
      SameWord(w.m, f, i);
    } else if Undisturbed(w, w') {
      OnlyHarmless(w, w', f, i, value);
    } else if Harmless(w, f, i, value) {
      HarmlessStore(w, w', f, i, value);
    }
  }

  // ----- what keeps the world sound

  /** After a safe store process 0's tables are still in order. */
  lemma RootFits(w: World, w': World, f: nat, i: nat, value: word)
    requires Ok(w) && f < PAGES && i < WORDS && w' == w.(m := Put(w.m, f, i, value))
    requires Harmless(w, f, i, value) && EntryFits(w, f, i, value)
    ensures RootOk(w')
  {
    forall k: nat, j: nat {:trigger Word(w'.m, Target(Word(w'.m, w.root, k)), j)} |
      k < USER_ENTRIES && j < WORDS && Present(Word(w'.m, w.root, k)) && Present(Word(w'.m, Target(Word(w'.m, w.root, k)), j))
      ensures Target(Word(w'.m, Target(Word(w'.m, w.root, k)), j)) < PAGES
    {
      PageInRam(w, w'.m, f, i, value, k, j);
    }
  }

  /** A page of process 0 is where one was before. */
  lemma PageInRam(w: World, m': Mem, f: nat, i: nat, value: word, k: nat, j: nat)
    requires Ok(w) && f < PAGES && i < WORDS && m' == Put(w.m, f, i, value)
    requires Harmless(w, f, i, value) && EntryFits(w, f, i, value)
    requires k < USER_ENTRIES && j < WORDS && Present(Word(m', w.root, k)) && Present(Word(m', Target(Word(m', w.root, k)), j))
    ensures Target(Word(m', Target(Word(m', w.root, k)), j)) < PAGES
  {
    var va := PageAddress(k, j);
    RootTranslations(w, f, i, value, va);
    WalkShown(w.m, w.root, k, j);
    WalkShown(m', w.root, k, j);
    assert Present(Word(w.m, Target(Word(w.m, w.root, k)), j));
  }

  /** So are those of the other processes. */
  lemma OtherFits(w: World, w': World, f: nat, i: nat, value: word, d: nat)
    requires Ok(w) && f < PAGES && i < WORDS && w' == w.(m := Put(w.m, f, i, value)) && d in w.dirs
    requires Word(w.m, f, i) != value && Harmless(w, f, i, value) && EntryFits(w, f, i, value)
    ensures ProcessOk(w', d) && Space(w'.m, d) == Space(w.m, d)
  {
    var s :| 0 <= s < |w.dirs| && w.dirs[s] == d;
    assert ProcessOk(w, w.dirs[s]) && f !in Space(w.m, w.dirs[s]);
    SpaceKept(w.m, w'.m, d, {f});
    assert d in Space(w.m, d);
    OwnedKept(w, w', d, {f});
    StillForkable(w.m, w'.m, d, w.free, f);
    forall k: nat {:trigger Word(w'.m, w.root, k)} | k < WORDS && Present(Word(w'.m, w.root, k))
      ensures Target(Word(w'.m, w.root, k)) !in Space(w.m, d)
    {
      if f != w.root || k != i {
        assert Word(w'.m, w.root, k) == Word(w.m, w.root, k);
      }
    }
    forall k: nat | USER_ENTRIES <= k < WORDS
      ensures Word(w'.m, d, k) == Word(w'.m, w.root, k)
    {
      assert Word(w.m, d, k) == Word(w.m, w.root, k);
    }
  }

  /** A change outside an address space leaves it forkable, whatever becomes of the tables of
      its kernel half. */
  lemma StillForkable(m: Mem, m': Mem, d: nat, free: seq<nat>, f: nat)
    requires Forkable(m, d, free) && Outside(m, m', {f}) && f !in Space(m, d)
    ensures Forkable(m', d, free)
  {
    assert d in Space(m, d);
    forall k: nat, j: nat {:trigger Word(m', Target(Word(m', d, k)), j)} |
      k < USER_ENTRIES && j < WORDS && Present(Word(m', d, k)) && Present(Word(m', Target(Word(m', d, k)), j))
      ensures Target(Word(m', Target(Word(m', d, k)), j)) < PAGES
    {
      assert Word(m', d, k) == Word(m, d, k);
      var t := Target(Word(m, d, k));
      InTree(m, d, USER_ENTRIES, k, t);
      assert t in Space(m, d) && Word(m', t, j) == Word(m, t, j);
    }
  }

  lemma SafeKeeps(w: World, w': World, f: nat, i: nat, value: word)
    requires Ok(w) && f < PAGES && i < WORDS && w' == w.(m := Put(w.m, f, i, value))
    requires SafeStore(w, f, i, value)
    ensures Ok(w')
  {
    if Word(w.m, f, i) == value {
      SameWord(w.m, f, i);
    } else {
      LinksMissed(w.m, w.head, w.free, w.end, f, i, value);
      RootFits(w, w', f, i, value);
      forall s | 0 <= s < |w.dirs|
        ensures ProcessOk(w', w.dirs[s]) && Space(w'.m, w.dirs[s]) == Space(w.m, w.dirs[s])
      {
        OtherFits(w, w', f, i, value, w.dirs[s]);
      }
    }
  }

  /** In a world that is sound after the store, the new entry fits. */
  lemma OnlyFits(w: World, w': World, i: nat, value: word)
    requires Ok(w) && w.root < PAGES && i < WORDS && w' == w.(m := Put(w.m, w.root, i, value)) && Ok(w')
    requires Word(w.m, w.root, i) != value && Nobodys(w, w.root)
    ensures EntryFits(w, w.root, i, value)
  {
    assert Word(w'.m, w.root, i) == value;
    if Present(value) {
      forall s | 0 <= s < |w.dirs|
        ensures Target(value) !in Space(w.m, w.dirs[s])
      {
        assert ProcessOk(w', w'.dirs[s]);
        SpaceKept(w.m, w'.m, w.dirs[s], {w.root});
      }
    }
    if i >= USER_ENTRIES && w.dirs != [] {
      KernelHalfFixed(w, w', i, value);
      assert false;
    }
  }

  /** With another process alive, a sound world has the kernel half it had before. */
  lemma KernelHalfFixed(w: World, w': World, i: nat, value: word)
    requires Ok(w) && w.dirs != [] && w.root < PAGES && USER_ENTRIES <= i < WORDS
    requires w' == w.(m := Put(w.m, w.root, i, value)) && Ok(w') && Nobodys(w, w.root)
    ensures Word(w.m, w.root, i) == value
  {
    var d := w.dirs[0];
    assert ProcessOk(w, d) && ProcessOk(w', w'.dirs[0]) && d in Space(w.m, d);
    assert Word(w.m, d, i) == Word(w.m, w.root, i) && Word(w'.m, d, i) == Word(w.m, d, i);
  }

  /** A store of process 0 leaves everyone undisturbed and the world sound if and only if it
      passes the test. */
  lemma ZeroStoreIff(w: World, w': World, va: word, value: word)
    requires Ok(w) && RootStores(w, w', va, value)
    ensures Undisturbed(w, w') && Ok(w') <==> SafeStore(w, Translate(w.m, w.root, va).frame, va / 4 % 1024, value)
  {
    var f, i := Translate(w.m, w.root, va).frame, va / 4 % 1024;
    UndisturbedIff(w, w', f, i, value);
    if SafeStore(w, f, i, value) {
      SafeKeeps(w, w', f, i, value);
    } else if Undisturbed(w, w') && Ok(w') && f == w.root {
      OnlyFits(w, w', i, value);
    }
  }
}
