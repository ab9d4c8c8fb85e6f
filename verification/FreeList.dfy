/** The intrusive free-page list: the link of a free page is its own word 0. */
module FreeList {
  import opened Words

  predicate Distinct(s: seq<nat>) {
    forall i, j :: 0 <= i < j < |s| ==> s[i] != s[j]
  }

  predicate InRam(s: seq<nat>) {
    forall k :: 0 <= k < |s| ==> s[k] < PAGES
  }

  function Elems(s: seq<nat>): set<nat> { set x | x in s }

  /** What points at position k of the list: the page there, or the word after the last page. */
  function Link(fs: seq<nat>, k: nat, end: word): word
    requires InRam(fs) && k <= |fs|
  {
    if k < |fs| then Vir(fs[k]) else end
  }

  /** head leads through exactly the pages fs, each once, and then holds end. */
  ghost predicate Chain(m: Mem, head: word, fs: seq<nat>, end: word) {
    && Distinct(fs) && InRam(fs)
    && head == Link(fs, 0, end)
    && forall k {:trigger Word(m, fs[k], 0)} :: 0 <= k < |fs| ==> Word(m, fs[k], 0) == Link(fs, k + 1, end)
  }

  /** What free_list holds while fs is the list. */
  function HeadOf(fs: seq<nat>, end: word): word {
    if fs == [] then end else if fs[0] < PAGES then Vir(fs[0]) else 0
  }

  /** A list whose first pages pre have been taken, the others being as they were. */
  lemma ChainSuffix(m: Mem, m': Mem, head: word, pre: seq<nat>, fs: seq<nat>, end: word)
    requires Chain(m, head, pre + fs, end) && Unchanged(m, m', fs)
    ensures Chain(m', HeadOf(fs, end), fs, end)
  {
    var all, n := pre + fs, |pre|;
    DistinctAppend(pre, fs);
    forall k | 0 <= k < |fs|
      ensures fs[k] < PAGES
    {
      assert all[n + k] == fs[k];
    }
    forall k | 0 <= k < |fs|
      ensures Word(m', fs[k], 0) == Link(fs, k + 1, end)
    {
      assert all[n + k] == fs[k] && fs[k] in fs;
      assert Word(m, all[n + k], 0) == Link(all, n + k + 1, end);
      if k + 1 < |fs| {
        assert all[n + k + 1] == fs[k + 1];
      }
    }
  }

  lemma DistinctTail(s: seq<nat>)
    requires Distinct(s) && s != []
    ensures s == [s[0]] + s[1..]
    ensures Distinct(s[1..]) && s[0] !in s[1..]
  {
    assert s == [s[0]] + s[1..];
    DistinctAppend([s[0]], s[1..]);
  }

  lemma ChainPop(m: Mem, head: word, fs: seq<nat>, end: word)
    requires Chain(m, head, fs, end) && fs != []
    ensures fs[0] < PAGES && head == Vir(fs[0]) && IsPage(head) && FrameAt(head) == fs[0]
    ensures fs == [fs[0]] + fs[1..] && fs[0] !in fs[1..]
    ensures Chain(m, Word(m, fs[0], 0), fs[1..], end)
  {
    DistinctTail(fs);
    var r := fs[1..];
    assert forall k :: 0 <= k < |r| ==> r[k] == fs[k + 1];
  }

  lemma ChainPush(m: Mem, head: word, fs: seq<nat>, end: word, f: nat)
    requires Chain(m, head, fs, end) && f !in fs && f < PAGES
    ensures Chain(Put(m, f, 0, head), Vir(f), [f] + fs, end)
  {
    var m', r := Put(m, f, 0, head), [f] + fs;
    DistinctAppend([f], fs);
    assert InRam(r);
    forall k | 0 <= k < |r|
      ensures Word(m', r[k], 0) == Link(r, k + 1, end)
    {
      if k > 0 {
        assert r[k] == fs[k - 1] != f;
        assert Link(r, k + 1, end) == Link(fs, k, end);
      }
    }
  }

  /** Freeing a page that is on the list already closes a circle: what free_page leaves is
      a list again if and only if the page was not on it. */
  lemma DoubleFreeIff(m: Mem, head: word, fs: seq<nat>, f: nat)
    requires Chain(m, head, fs, 0) && f < PAGES
    ensures (exists gs :: Chain(Put(m, f, 0, head), Vir(f), gs, 0)) <==> f !in fs
  {
    if f !in fs {
      ChainPush(m, head, fs, 0, f);
    } else {
      var j :| 0 <= j < |fs| && fs[j] == f;
      forall gs
        ensures !Chain(Put(m, f, 0, head), Vir(f), gs, 0)
      {
        if Chain(Put(m, f, 0, head), Vir(f), gs, 0) {
          Circle(m, head, fs, f, j, gs, j);
        }
      }
    }
  }

  /** Behind the page come the pages that were in front of it. */
  lemma {:induction false} Circle(m: Mem, head: word, fs: seq<nat>, f: nat, j: nat, gs: seq<nat>, k: nat)
    requires Chain(m, head, fs, 0) && j < |fs| && fs[j] == f && k <= j
    requires Chain(Put(m, f, 0, head), Vir(f), gs, 0)
    ensures |gs| > k + 1 && gs[0] == f && gs[k + 1] == fs[k]
  {
    var m' := Put(m, f, 0, head);
    LinkInjective(gs, 0, [f], 0);
    if k == 0 {
      assert Word(m', gs[0], 0) == Link(fs, 0, 0);
    } else {
      Circle(m, head, fs, f, j, gs, k - 1);
      assert Word(m', gs[k], 0) == Word(m, fs[k - 1], 0);
    }
    LinkInjective(gs, k + 1, fs, k);
  }

  lemma LinkInjective(gs: seq<nat>, i: nat, fs: seq<nat>, k: nat)
    requires InRam(gs) && InRam(fs) && i <= |gs| && k < |fs| && Link(gs, i, 0) == Link(fs, k, 0)
    ensures i < |gs| && gs[i] == fs[k]
  {
  }

  /** The list survives every store outside it. */
  lemma ChainFrame(m: Mem, m': Mem, head: word, fs: seq<nat>, end: word, touched: set<nat>)
    requires Chain(m, head, fs, end) && Outside(m, m', touched)
    requires forall f :: f in fs ==> f !in touched
    ensures Chain(m', head, fs, end)
  {
  }

  lemma DistinctAppend(a: seq<nat>, b: seq<nat>)
    ensures Distinct(a + b) <==> Distinct(a) && Distinct(b) && forall x :: x in a ==> x !in b
  {
    var s := a + b;
    if Distinct(s) {
      forall i, j | 0 <= i < j < |a| ensures a[i] != a[j] {
        assert s[i] == a[i] && s[j] == a[j];
      }
      forall i, j | 0 <= i < j < |b| ensures b[i] != b[j] {
        assert s[|a| + i] == b[i] && s[|a| + j] == b[j];
      }
      forall x | x in a ensures x !in b {
        var i :| 0 <= i < |a| && a[i] == x;
        assert s[i] == x;
        forall j | 0 <= j < |b| ensures b[j] != x {
          assert s[|a| + j] == b[j];
        }
      }
    } else {
      var i, j :| 0 <= i < j < |s| && s[i] == s[j];
      if j < |a| {
        assert a[i] == a[j];
      } else if |a| <= i {
        assert b[i - |a|] == b[j - |a|];
      } else {
        assert a[i] in a && b[j - |a|] in b;
      }
    }
  }

  /** A list without repetition, cut behind its first element and once more. */
  lemma DistinctParts(c: nat, a: seq<nat>, b: seq<nat>, s: seq<nat>)
    requires s == [c] + a + b && Distinct(s)
    ensures c !in a && c !in b && forall x :: x in a ==> x !in b
    ensures Elems(s) == {c} + Elems(a) + Elems(b)
  {
    DistinctAppend([c] + a, b);
    DistinctAppend([c], a);
    assert c in [c] && forall x :: x in a ==> x in [c] + a;
    assert forall x :: x in s <==> x == c || x in a || x in b;
  }

  lemma Regroup(c: nat, a: seq<nat>, t: nat, b: seq<nat>, rest: seq<nat>)
    ensures [c] + a + ([t] + b + rest) == [c] + (a + ([t] + b)) + rest
  {
  }
}
