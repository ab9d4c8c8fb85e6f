/** What copy_process_mem's result means for the programs that run in it. */
module ForkMeaning {
  import opened Words
  import opened FreeList
  import opened AddressSpace
  import opened Fork

  /** m is what CopyProcessMem leaves behind when it copies p to c in m0. */
  ghost predicate Forked(m0: Mem, m: Mem, p: nat, c: nat, fs0: seq<nat>, fs: seq<nat>) {
    && Forkable(m0, p, fs0) && Distinct(fs0) && InRam(fs0)
    && DirState(m0, m, p, c, USER_ENTRIES, fs0, fs)
  }

  /** The child maps the same user addresses; each to a page of its own that came off
      the free list, readable and writable from user mode, and holding what the
      parent's page holds unless that page was itself free. */
  lemma ChildUserHalf(m0: Mem, m: Mem, p: nat, c: nat, fs0: seq<nat>, fs: seq<nat>, va: word)
    requires Forked(m0, m, p, c, fs0, fs) && va < KERNEL_BASE
    ensures Translate(m0, p, va).Fault? <==> Translate(m, c, va).Fault?
    ensures
      var old_, new_ := Translate(m0, p, va), Translate(m, c, va);
      new_.Mapped? ==>
        && new_.user && new_.writable
        && new_.frame in UserFrames(m, c) && new_.frame in fs0 && new_.frame !in fs
        && (old_.frame !in fs0 ==> SameContent(m0, old_.frame, m, new_.frame))
  {
    var i, j := DirIndex(va), TableIndex(va);
    assert i < USER_ENTRIES;
    assert CopiedDirEntry(m0, m, p, c, i, Elems(fs0));
    if Present(Word(m0, p, i)) {
      var t0, t := Target(Word(m0, p, i)), Target(Word(m, c, i));
      assert CopiedEntry(m0, m, t0, t, j, Elems(fs0));
      if Present(Word(m0, t0, j)) {
        InPages(m, t, WORDS, Target(Word(m, t, j)));
        InTree(m, c, USER_ENTRIES, i, Target(Word(m, t, j)));
        DistinctParts(c, UserFrames(m, c), fs, fs0);
      }
    }
  }

  /** The kernel half is carried over. */
  lemma ChildKernelHalf(m0: Mem, m: Mem, p: nat, c: nat, fs0: seq<nat>, fs: seq<nat>, va: word)
    requires Forked(m0, m, p, c, fs0, fs) && KERNEL_BASE <= va
    ensures Word(m, c, DirIndex(va)) == Word(m0, p, DirIndex(va))
    ensures Translate(m, c, va) == Translate(m0, p, va)
  {
    var i := DirIndex(va);
    assert i >= USER_ENTRIES;
    assert Word(m, c, i) == Word(m0, p, i);
    if Present(Word(m0, p, i)) {
      assert Target(Word(m0, p, i)) !in fs0;
    }
  }

  /** The parent's translations stay, and so does every frame that was not free. */
  lemma ParentUnchanged(m0: Mem, m: Mem, p: nat, c: nat, fs0: seq<nat>, fs: seq<nat>, va: word)
    requires Forked(m0, m, p, c, fs0, fs)
    ensures Translate(m, p, va) == Translate(m0, p, va)
    ensures forall f :: f !in fs0 ==> SameContent(m0, f, m, f)
  {
    var i := DirIndex(va);
    assert Word(m, p, i) == Word(m0, p, i);
    if Present(Word(m0, p, i)) {
      assert Target(Word(m0, p, i)) !in fs0;
    }
  }

  /** Two pages of the child never share a frame, whatever the parent shares. */
  lemma ChildPagesApart(m0: Mem, m: Mem, p: nat, c: nat, fs0: seq<nat>, fs: seq<nat>, a: word, b: word)
    requires Forked(m0, m, p, c, fs0, fs) && a < KERNEL_BASE && b < KERNEL_BASE
    requires a / 4096 != b / 4096
    requires Translate(m, c, a).Mapped? && Translate(m, c, b).Mapped?
    ensures Translate(m, c, a).frame != Translate(m, c, b).frame
  {
    SamePage(a, b);
    ChildOwned(m0, m, p, c, fs0, fs);
    DistinctAppend([c], UserFrames(m, c));
    TreeInjective(m, c, DirIndex(a), TableIndex(a), DirIndex(b), TableIndex(b));
  }

  /** The child owns its directory, tables and pages, none of which is free any more,
      and it took exactly one page for each frame of the parent's user half and one for
      the directory. */
  lemma ChildOwned(m0: Mem, m: Mem, p: nat, c: nat, fs0: seq<nat>, fs: seq<nat>)
    requires Forked(m0, m, p, c, fs0, fs)
    ensures Owned(m, c, fs)
    ensures |fs0| == |fs| + 1 + |UserFrames(m0, p)| && |UserFrames(m, c)| == |UserFrames(m0, p)|
    ensures multiset(fs0) == multiset([c] + UserFrames(m, c)) + multiset(fs)
  {
    var t := UserFrames(m, c);
    DistinctParts(c, t, fs, fs0);
    DistinctAppend([c] + t, fs);
    assert c < PAGES && InRam(t) by {
      assert fs0[0] == c;
      assert forall k :: 0 <= k < |t| ==> fs0[1 + k] == t[k];
    }
  }

  /** The child can itself be forked: its tables are apart from the free list. */
  lemma ChildForkable(m0: Mem, m: Mem, p: nat, c: nat, fs0: seq<nat>, fs: seq<nat>)
    requires Forked(m0, m, p, c, fs0, fs)
    ensures Forkable(m, c, fs)
  {
    ChildOwned(m0, m, p, c, fs0, fs);
    var t := UserFrames(m, c);
    forall k: nat {:trigger Word(m, c, k)} | k < WORDS && Present(Word(m, c, k))
      ensures Target(Word(m, c, k)) < PAGES && Target(Word(m, c, k)) != c && Target(Word(m, c, k)) !in fs
    {
      if k < USER_ENTRIES {
        InTree(m, c, USER_ENTRIES, k, Target(Word(m, c, k)));
        DistinctAppend([c], t);
        assert c in [c];
        assert Target(Word(m, c, k)) in t;
      } else {
        assert Word(m, c, k) == Word(m0, p, k);
        assert fs0[0] == c;
        assert Target(Word(m0, p, k)) !in fs0;
      }
    }
    forall i: nat, j: nat {:trigger Word(m, Target(Word(m, c, i)), j)} |
      i < USER_ENTRIES && j < WORDS && Present(Word(m, c, i)) && Present(Word(m, Target(Word(m, c, i)), j))
      ensures Target(Word(m, Target(Word(m, c, i)), j)) < PAGES
    {
      var f := Target(Word(m, Target(Word(m, c, i)), j));
      InPages(m, Target(Word(m, c, i)), WORDS, f);
      InTree(m, c, USER_ENTRIES, i, f);
    }
  }
}
