/** The user half of an address space as the list of frames it is built from. */
module AddressSpace {
  import opened Words
  import opened FreeList

  /** The frames named by the first n entries of table t. */
  function PagesOf(m: Mem, t: nat, n: nat): (s: seq<nat>) {
    if n == 0 then []
    else PagesOf(m, t, n - 1) + if Present(Word(m, t, n - 1)) then [Target(Word(m, t, n - 1))] else []
  }

  /** For the first n entries of directory d: each table, followed by its pages. */
  function Tree(m: Mem, d: nat, n: nat): seq<nat> {
    if n == 0 then [] else Tree(m, d, n - 1) + Branch(m, Word(m, d, n - 1))
  }

  function Branch(m: Mem, pde: word): seq<nat> {
    if Present(pde) then [Target(pde)] + PagesOf(m, Target(pde), WORDS) else []
  }

  /** Every frame of the user half: tables and pages. */
  function UserFrames(m: Mem, d: nat): seq<nat> { Tree(m, d, USER_ENTRIES) }

  lemma PrefixAppend(s: seq<nat>, a: seq<nat>, b: seq<nat>)
    requires s <= a
    ensures s <= a + b
  {
  }

  lemma {:induction false} PagesOfPrefix(m: Mem, t: nat, n: nat, k: nat)
    requires n <= k
    ensures PagesOf(m, t, n) <= PagesOf(m, t, k)
    decreases k
  {
    if n < k {
      PagesOfPrefix(m, t, n, k - 1);
    }
  }

  lemma TreeNext(m: Mem, d: nat, n: nat)
    ensures Tree(m, d, n) <= Tree(m, d, n + 1)
  {
    PrefixAppend(Tree(m, d, n), Tree(m, d, n), Branch(m, Word(m, d, n)));
  }

  lemma TreeSize(m: Mem, d: nat, n: nat)
    ensures |Tree(m, d, n + 1)| == |Tree(m, d, n)| + |Branch(m, Word(m, d, n))|
  {
  }

  lemma BranchSize(m: Mem, pde: word)
    ensures |Branch(m, pde)| == 0 <==> !Present(pde)
  {
  }

  lemma {:induction false} TreePrefix(m: Mem, d: nat, n: nat, k: nat)
    requires n <= k
    ensures Tree(m, d, n) <= Tree(m, d, k)
    decreases k - n
  {
    if n < k {
      TreeNext(m, d, n);
      TreePrefix(m, d, n + 1, k);
    }
  }

  /** A frame is in PagesOf exactly when a present entry names it. */
  lemma {:induction false} InPages(m: Mem, t: nat, n: nat, f: nat)
    ensures f in PagesOf(m, t, n) <==> exists j: nat :: j < n && Present(Word(m, t, j)) && Target(Word(m, t, j)) == f
  {
    if n > 0 {
      InPages(m, t, n - 1, f);
    }
  }

  lemma InTree(m: Mem, d: nat, n: nat, i: nat, f: nat)
    requires i < n && f in Branch(m, Word(m, d, i))
    ensures f in Tree(m, d, n)
  {
    TreePrefix(m, d, i + 1, n);
    var s, r := Tree(m, d, i), Branch(m, Word(m, d, i));
    assert f in s + r;
  }

  lemma {:induction false} PagesOfFrame(m: Mem, m': Mem, t: nat, n: nat)
    requires forall k: nat :: k < n ==> Word(m', t, k) == Word(m, t, k)
    ensures PagesOf(m', t, n) == PagesOf(m, t, n)
  {
    if n > 0 {
      PagesOfFrame(m, m', t, n - 1);
    }
  }

  /** The tree depends on the directory's entries and its tables only. */
  lemma {:induction false} TreeFrame(m: Mem, m': Mem, d: nat, n: nat)
    requires forall k: nat :: k < n ==> Word(m', d, k) == Word(m, d, k)
    requires forall k: nat {:trigger Word(m, d, k)} :: k < n && Present(Word(m, d, k)) ==>
               SameContent(m, Target(Word(m, d, k)), m', Target(Word(m, d, k)))
    ensures Tree(m', d, n) == Tree(m, d, n)
  {
    if n > 0 {
      TreeFrame(m, m', d, n - 1);
      var pde := Word(m, d, n - 1);
      if Present(pde) {
        PagesOfFrame(m, m', Target(pde), WORDS);
      }
    }
  }

  // ----- ownership

  /** Directory d, its tables and its user pages are pairwise different frames of RAM,
      and none of them is free. */
  ghost predicate Owned(m: Mem, d: nat, free: seq<nat>) {
    && d < PAGES && InRam(UserFrames(m, d))
    && Distinct([d] + UserFrames(m, d))
    && d !in free && forall f :: f in UserFrames(m, d) ==> f !in free
  }

  /** In a tree without repetition no two present table entries name the same page. */
  lemma TreeInjective(m: Mem, d: nat, i: nat, j: nat, i': nat, j': nat)
    requires Distinct(UserFrames(m, d))
    requires i < USER_ENTRIES && j < WORDS && i' < USER_ENTRIES && j' < WORDS && (i != i' || j != j')
    requires Present(Word(m, d, i)) && Present(Word(m, Target(Word(m, d, i)), j))
    requires Present(Word(m, d, i')) && Present(Word(m, Target(Word(m, d, i')), j'))
    ensures Target(Word(m, Target(Word(m, d, i)), j)) != Target(Word(m, Target(Word(m, d, i')), j'))
  {
    if i < i' || (i == i' && j < j') {
      TreeOrdered(m, d, i, j, i', j');
    } else {
      TreeOrdered(m, d, i', j', i, j);
    }
  }

  lemma TreeOrdered(m: Mem, d: nat, i: nat, j: nat, i': nat, j': nat)
    requires Distinct(UserFrames(m, d))
    requires i <= i' < USER_ENTRIES && j < WORDS && j' < WORDS && (i == i' ==> j < j')
    requires Present(Word(m, d, i)) && Present(Word(m, Target(Word(m, d, i)), j))
    requires Present(Word(m, d, i')) && Present(Word(m, Target(Word(m, d, i')), j'))
    ensures Target(Word(m, Target(Word(m, d, i)), j)) != Target(Word(m, Target(Word(m, d, i')), j'))
  {
    var t, t' := Target(Word(m, d, i)), Target(Word(m, d, i'));
    var f, f' := Target(Word(m, t, j)), Target(Word(m, t', j'));
    BranchApart(m, d, i');
    InPages(m, t, WORDS, f);
    InPages(m, t', WORDS, f');
    if i < i' {
      InTree(m, d, i', i, f);
    } else {
      PagesOrdered(m, t, j, j');
    }
  }

  /** A branch repeats nothing, neither within itself nor from the branches before it. */
  lemma BranchApart(m: Mem, d: nat, i: nat)
    requires Distinct(UserFrames(m, d)) && i < USER_ENTRIES && Present(Word(m, d, i))
    ensures Distinct(PagesOf(m, Target(Word(m, d, i)), WORDS))
    ensures forall f :: f in PagesOf(m, Target(Word(m, d, i)), WORDS) ==> f !in Tree(m, d, i)
    ensures Target(Word(m, d, i)) !in Tree(m, d, i)
    ensures Target(Word(m, d, i)) !in PagesOf(m, Target(Word(m, d, i)), WORDS)
  {
    var t := Target(Word(m, d, i));
    var ps := PagesOf(m, t, WORDS);
    TreePrefix(m, d, i + 1, USER_ENTRIES);
    DistinctPrefix(Tree(m, d, i) + ([t] + ps), UserFrames(m, d));
    DistinctAppend(Tree(m, d, i), [t] + ps);
    DistinctAppend([t], ps);
    assert t in [t] && t in [t] + ps && forall f :: f in ps ==> f in [t] + ps;
  }

  lemma PagesOrdered(m: Mem, t: nat, j: nat, j': nat)
    requires Distinct(PagesOf(m, t, WORDS)) && j < j' < WORDS
    requires Present(Word(m, t, j)) && Present(Word(m, t, j'))
    ensures Target(Word(m, t, j)) != Target(Word(m, t, j'))
  {
    var f' := Target(Word(m, t, j'));
    PagesOfPrefix(m, t, j' + 1, WORDS);
    DistinctPrefix(PagesOf(m, t, j') + [f'], PagesOf(m, t, WORDS));
    DistinctAppend(PagesOf(m, t, j'), [f']);
    InPages(m, t, j', Target(Word(m, t, j)));
    assert f' in [f'];
  }

  lemma DistinctPrefix(a: seq<nat>, b: seq<nat>)
    requires a <= b && Distinct(b)
    ensures Distinct(a)
  {
  }
}
