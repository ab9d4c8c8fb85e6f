/** Every run of alloc_page, free_page, page_map and stores to handed-out pages. */
module PageRuns {
  import opened Words
  import opened FreeList
  import opened PhysicalMemory
  import opened Paging
  import opened Boot

  /** One request. A request that its caller may not make is skipped: taking a page when
      none is free (the list then ends in the zero word), or touching a page the caller
      does not hold. */
  datatype PageOp =
    | Alloc
    | Free(frame: nat)
    | Write(frame: nat, i: nat, w: word)
    | Map(va: word, phy: word, privilege: nat)

  /** Memory, the free pages in list order, the pages in the hands of callers, and the
      page tables that page_map has taken. */
  datatype State = State(m: Mem, free: seq<nat>, held: set<nat>, tables: set<nat>)

  // ----- one request

  /** page_map needs a new table for va. */
  predicate Absent(m: Mem, d: nat, va: word) { !Present(Word(m, d, DirIndex(va))) }

  /** The frame of the table that holds va's entry once the page is mapped. */
  function TableFor(s: State, d: nat, va: word): nat
    requires Absent(s.m, d, va) ==> s.free != []
  {
    if Absent(s.m, d, va) then s.free[0] else Target(Word(s.m, d, DirIndex(va)))
  }

  /** page_map's change of memory: va leads to phy, every other page where it led before,
      and nothing but the directory entry and the table is written. */
  ghost predicate Mapping(s: State, m: Mem, d: nat, va: word, phy: word, privilege: nat)
    requires Absent(s.m, d, va) ==> s.free != []
  {
    var pde, t := Word(s.m, d, DirIndex(va)), TableFor(s, d, va);
    && Target(Word(m, d, DirIndex(va))) == t && Outside(s.m, m, {d, t})
    && (forall k: nat :: k != DirIndex(va) ==> Word(m, d, k) == Word(s.m, d, k))
    && forall va': word {:trigger Translate(m, d, va')} ::
         Translate(m, d, va') ==
           if va' / 4096 == va / 4096
           then Mapped(phy / 4096, privilege == USER && (Present(pde) ==> UserBit(pde)), Present(pde) ==> Writable(pde))
           else Translate(s.m, d, va')
  }

  predicate MayMap(s: State, d: nat, va: word, privilege: nat) {
    privilege < 2 && (Absent(s.m, d, va) ==> s.free != [])
  }

  /** What a request does, d being the page directory of the running process. */
  ghost predicate Step(d: nat, s: State, op: PageOp, s': State) {
    match op
    case Alloc =>
      if s.free == [] then s' == s else s' == s.(free := s.free[1..], held := s.held + {s.free[0]})
    case Free(f) =>
      if f !in s.held || f >= PAGES then s' == s
      else s' == State(Put(s.m, f, 0, HeadOf(s.free, 0)), [f] + s.free, s.held - {f}, s.tables)
    case Write(f, i, w) =>
      if f !in s.held || f >= PAGES || i >= WORDS then s' == s else s' == s.(m := Put(s.m, f, i, w))
    case Map(va, phy, privilege) =>
      if !MayMap(s, d, va, privilege) then s' == s
      else
        && Mapping(s, s'.m, d, va, phy, privilege) && s'.held == s.held
        && s'.free == (if Absent(s.m, d, va) then s.free[1..] else s.free)
        && s'.tables == (if Absent(s.m, d, va) then s.tables + {s.free[0]} else s.tables)
  }

  // ----- who has which page

  /** The pool is split into free pages, pages held by callers and page tables. */
  ghost predicate Partition(free: seq<nat>, held: set<nat>, tables: set<nat>, pool: set<nat>) {
    && Elems(free) + held + tables == pool
    && Elems(free) !! held !! tables
  }

  /** Directory d and its tables are neither free nor in the hands of a caller. */
  ghost predicate Calm(m: Mem, d: nat, free: seq<nat>, held: set<nat>) {
    && TablesApart(m, d, free) && NoSharing(m, d)
    && d !in held && forall k: nat {:trigger Word(m, d, k)} :: k < 1024 && Present(Word(m, d, k)) ==> Target(Word(m, d, k)) !in held
  }

  /** What holds between any two requests. */
  ghost predicate Ok(d: nat, s: State, pool: set<nat>) {
    && Chain(s.m, HeadOf(s.free, 0), s.free, 0)
    && Partition(s.free, s.held, s.tables, pool)
    && Calm(s.m, d, s.free, s.held)
    && forall f :: f in pool ==> f < PAGES
  }

  lemma PartitionTake(free: seq<nat>, held: set<nat>, tables: set<nat>, pool: set<nat>)
    requires Partition(free, held, tables, pool) && free != [] && Distinct(free)
    ensures Partition(free[1..], held + {free[0]}, tables, pool)
    ensures Partition(free[1..], held, tables + {free[0]}, pool)
    ensures free[0] !in held + tables
  {
    DistinctTail(free);
    assert Elems(free) == {free[0]} + Elems(free[1..]) by {
      assert forall x :: x in free <==> x == free[0] || x in free[1..];
    }
    assert free[0] in Elems(free);
  }

  lemma PartitionGive(free: seq<nat>, held: set<nat>, tables: set<nat>, pool: set<nat>, f: nat)
    requires Partition(free, held, tables, pool) && f in held
    ensures Partition([f] + free, held - {f}, tables, pool)
  {
    assert Elems([f] + free) == {f} + Elems(free);
  }

  lemma CalmStore(m0: Mem, m1: Mem, d: nat, free: seq<nat>, free': seq<nat>, held: set<nat>, held': set<nat>)
    requires Calm(m0, d, free, held) && held' <= held
    requires Outside(m0, m1, held)
    requires forall f :: f in free' ==> f in free || f in held
    ensures Calm(m1, d, free', held')
  {
  }

  lemma TakeKeeps(d: nat, s: State, s': State, pool: set<nat>)
    requires Ok(d, s, pool) && Step(d, s, Alloc, s')
    ensures Ok(d, s', pool)
  {
    if s.free != [] {
      PartitionTake(s.free, s.held, s.tables, pool);
      ChainPop(s.m, HeadOf(s.free, 0), s.free, 0);
      assert s.free[0] in s.free && forall f :: f in s'.free ==> f in s.free;
    }
  }

  lemma GiveKeeps(d: nat, s: State, s': State, pool: set<nat>, f: nat)
    requires Ok(d, s, pool) && Step(d, s, Free(f), s')
    ensures Ok(d, s', pool)
  {
    if f in s.held && f < PAGES {
      assert f !in Elems(s.free);
      PartitionGive(s.free, s.held, s.tables, pool, f);
      ChainPush(s.m, HeadOf(s.free, 0), s.free, 0, f);
      CalmStore(s.m, s'.m, d, s.free, s'.free, s.held, s'.held);
    }
  }

  lemma WriteKeeps(d: nat, s: State, s': State, pool: set<nat>, f: nat, i: nat, w: word)
    requires Ok(d, s, pool) && Step(d, s, Write(f, i, w), s')
    ensures Ok(d, s', pool)
  {
    if f in s.held && f < PAGES && i < WORDS {
      assert f !in Elems(s.free);
      ChainFrame(s.m, s'.m, HeadOf(s.free, 0), s.free, 0, {f});
      CalmStore(s.m, s'.m, d, s.free, s'.free, s.held, s'.held);
    }
  }

  /** A table that page_map takes comes off the free list, so it is nobody's page. */
  lemma CalmMap(s: State, m: Mem, d: nat, va: word, phy: word, privilege: nat, free': seq<nat>)
    requires Calm(s.m, d, s.free, s.held) && MayMap(s, d, va, privilege) && Mapping(s, m, d, va, phy, privilege)
    requires Absent(s.m, d, va) ==> s.free[0] < PAGES && s.free[0] !in s.held && s.free[0] !in free'
    requires forall f :: f in free' ==> f in s.free
    ensures Calm(m, d, free', s.held)
  {
    if Absent(s.m, d, va) {
      assert s.free[0] in s.free;
    }
  }

  lemma MapKeeps(d: nat, s: State, s': State, pool: set<nat>, va: word, phy: word, privilege: nat)
    requires Ok(d, s, pool) && Step(d, s, Map(va, phy, privilege), s')
    ensures Ok(d, s', pool)
  {
    if MayMap(s, d, va, privilege) {
      var t := TableFor(s, d, va);
      if Absent(s.m, d, va) {
        PartitionTake(s.free, s.held, s.tables, pool);
        ChainPop(s.m, HeadOf(s.free, 0), s.free, 0);
        assert s'.free == s.free[1..] && HeadOf(s'.free, 0) == Word(s.m, s.free[0], 0);
      }
      CalmMap(s, s'.m, d, va, phy, privilege, s'.free);
      assert d !in s'.free && t !in s'.free;
      ChainFrame(s.m, s'.m, HeadOf(s'.free, 0), s'.free, 0, {d, t});
    }
  }

  lemma StepKeeps(d: nat, s: State, op: PageOp, s': State, pool: set<nat>)
    requires Ok(d, s, pool) && Step(d, s, op, s')
    ensures Ok(d, s', pool)
  {
    match op
    case Alloc => TakeKeeps(d, s, s', pool);
    case Free(f) => GiveKeeps(d, s, s', pool, f);
    case Write(f, i, w) => WriteKeeps(d, s, s', pool, f, i, w);
    case Map(va, phy, privilege) => MapKeeps(d, s, s', pool, va, phy, privilege);
  }

  // ----- the record of a run

  datatype Event = Got(frame: nat) | Gave(frame: nat) | Neither

  /** Whether a request hands a page out or takes one back. */
  function EventOf(d: nat, s: State, op: PageOp): Event {
    match op
    case Alloc => if s.free == [] then Neither else Got(s.free[0])
    case Free(f) => if f in s.held && f < PAGES then Gave(f) else Neither
    case Write(_, _, _) => Neither
    case Map(va, _, privilege) => if MayMap(s, d, va, privilege) && Absent(s.m, d, va) then Got(s.free[0]) else Neither
  }

  /** Every hand-out of f is followed by a return. */
  ghost predicate Settled(trace: seq<Event>, f: nat) {
    forall i :: 0 <= i < |trace| && trace[i] == Got(f) ==> exists k :: i < k < |trace| && trace[k] == Gave(f)
  }

  /** No page is handed out twice without a return between. */
  ghost predicate NeverTwice(trace: seq<Event>) {
    forall i, j :: 0 <= i < j < |trace| && trace[i].Got? && trace[j] == trace[i] ==>
      exists k :: i < k < j && trace[k] == Gave(trace[i].frame)
  }

  /** The pages out are exactly those whose last hand-out has not been followed by a return. */
  ghost predicate Sound(trace: seq<Event>, taken: set<nat>) {
    NeverTwice(trace) && forall f: nat :: f !in taken <==> Settled(trace, f)
  }

  lemma SettledMore(trace: seq<Event>, g: nat, e: Event)
    requires e != Got(g) && e != Gave(g)
    ensures Settled(trace + [e], g) <==> Settled(trace, g)
  {
    var t := trace + [e];
    if Settled(trace, g) {
      forall i | 0 <= i < |t| && t[i] == Got(g)
        ensures exists k :: i < k < |t| && t[k] == Gave(g)
      {
        assert trace[i] == Got(g);
        var k :| i < k < |trace| && trace[k] == Gave(g);
        assert t[k] == Gave(g);
      }
    }
    if Settled(t, g) {
      forall i | 0 <= i < |trace| && trace[i] == Got(g)
        ensures exists k :: i < k < |trace| && trace[k] == Gave(g)
      {
        assert t[i] == Got(g);
        var k :| i < k < |t| && t[k] == Gave(g);
        assert trace[k] == Gave(g);
      }
    }
  }

  /** An event that is not a second hand-out leaves the old hand-outs separated. */
  lemma NeverTwiceMore(trace: seq<Event>, e: Event)
    requires NeverTwice(trace) && (e.Got? ==> Settled(trace, e.frame))
    ensures NeverTwice(trace + [e])
  {
    var t := trace + [e];
    forall i, j | 0 <= i < j < |t| && t[i].Got? && t[j] == t[i]
      ensures exists k :: i < k < j && t[k] == Gave(t[i].frame)
    {
      assert trace[i] == t[i];
      if j < |trace| {
        var k :| i < k < j && trace[k] == Gave(trace[i].frame);
        assert t[k] == Gave(t[i].frame);
      } else {
        var k :| i < k < |trace| && trace[k] == Gave(e.frame);
        assert t[k] == Gave(t[i].frame);
      }
    }
  }

  /** The pages out after one more event. */
  function TakenAfter(taken: set<nat>, e: Event): set<nat> {
    match e
    case Got(f) => taken + {f}
    case Gave(f) => taken - {f}
    case Neither => taken
  }

  lemma SoundMore(trace: seq<Event>, taken: set<nat>, e: Event)
    requires Sound(trace, taken) && (e.Got? ==> e.frame !in taken)
    ensures Sound(trace + [e], TakenAfter(taken, e))
  {
    var t := trace + [e];
    NeverTwiceMore(trace, e);
    assert t[|trace|] == e;
    forall g: nat
      ensures g !in TakenAfter(taken, e) <==> Settled(t, g)
    {
      if e != Got(g) && e != Gave(g) {
        SettledMore(trace, g, e);
      }
    }
  }

  // ----- every run

  /** states is a run of the requests ops that starts with nothing handed out. */
  ghost predicate IsRun(d: nat, states: seq<State>, ops: seq<PageOp>) {
    && |states| == |ops| + 1
    && states[0].held == {} && states[0].tables == {} && Ok(d, states[0], Elems(states[0].free))
    && forall i {:trigger ops[i]} :: 0 <= i < |ops| ==> Step(d, states[i], ops[i], states[i + 1])
  }

  /** What the requests did, one event for each. */
  function Trace(d: nat, states: seq<State>, ops: seq<PageOp>): (t: seq<Event>)
    requires |states| == |ops| + 1
    ensures |t| == |ops| && forall i :: 0 <= i < |ops| ==> t[i] == EventOf(d, states[i], ops[i])
  {
    seq(|ops|, i requires 0 <= i < |ops| => EventOf(d, states[i], ops[i]))
  }

  lemma StepTaken(d: nat, s: State, op: PageOp, s': State, pool: set<nat>)
    requires Ok(d, s, pool) && Step(d, s, op, s')
    ensures s'.held + s'.tables == TakenAfter(s.held + s.tables, EventOf(d, s, op))
    ensures EventOf(d, s, op).Got? ==> EventOf(d, s, op).frame !in s.held + s.tables
  {
    if s.free != [] {
      PartitionTake(s.free, s.held, s.tables, pool);
    }
  }

  lemma StepSound(d: nat, s: State, op: PageOp, s': State, pool: set<nat>, trace: seq<Event>)
    requires Ok(d, s, pool) && Step(d, s, op, s') && Sound(trace, s.held + s.tables)
    ensures Ok(d, s', pool) && Sound(trace + [EventOf(d, s, op)], s'.held + s'.tables)
  {
    StepKeeps(d, s, op, s', pool);
    StepTaken(d, s, op, s', pool);
    SoundMore(trace, s.held + s.tables, EventOf(d, s, op));
  }

  /** On every run from a list of free pages on: the list stays a list, free pages, held
      pages and tables are a partition of the pages that were free at the start, no page
      is handed out twice without a return between, and the pages out are those whose
      last hand-out has not been returned. (By prefixes this holds in every state.) */
  lemma {:induction false} EveryRun(d: nat, states: seq<State>, ops: seq<PageOp>)
    requires IsRun(d, states, ops)
    ensures var s := states[|ops|];
      && Ok(d, s, Elems(states[0].free))
      && Sound(Trace(d, states, ops), s.held + s.tables)
    decreases |ops|
  {
    if ops == [] {
      assert Sound([], {});
      assert Trace(d, states, ops) == [] && states[0].held + states[0].tables == {};
    } else {
      var n := |ops| - 1;
      RunPrefix(d, states, ops);
      EveryRun(d, states[..n + 1], ops[..n]);
      StepSound(d, states[n], ops[n], states[n + 1], Elems(states[0].free), Trace(d, states[..n + 1], ops[..n]));
      assert Trace(d, states, ops) == Trace(d, states[..n + 1], ops[..n]) + [EventOf(d, states[n], ops[n])];
    }
  }

  lemma RunPrefix(d: nat, states: seq<State>, ops: seq<PageOp>)
    requires IsRun(d, states, ops) && ops != []
    ensures var n := |ops| - 1;
      && IsRun(d, states[..n + 1], ops[..n]) && states[..n + 1][n] == states[n]
      && states[..n + 1][0] == states[0] && Step(d, states[n], ops[n], states[n + 1])
  {
  }

  lemma RunMore(d: nat, states: seq<State>, ops: seq<PageOp>, op: PageOp, s': State)
    requires IsRun(d, states, ops) && Step(d, states[|ops|], op, s')
    ensures IsRun(d, states + [s'], ops + [op])
  {
  }

  // ----- the code's runs are such runs

  /** One request. */
  method Serve(ram: Ram, pagedir: word, op: PageOp, held: set<nat>, ghost tables: set<nat>, ghost pool: set<nat>)
    returns (held': set<nat>, ghost tables': set<nat>)
    requires ram.Valid() && IsPage(pagedir) && ram.end == 0
    requires Ok(FrameAt(pagedir), State(ram.Snapshot(), ram.free, held, tables), pool)
    modifies ram, ram.words
    ensures ram.Valid() && ram.end == 0
    ensures Step(FrameAt(pagedir), State(old(ram.Snapshot()), old(ram.free), held, tables), op,
                 State(ram.Snapshot(), ram.free, held', tables'))
  {
    held', tables' := held, tables;
    ghost var s := State(ram.Snapshot(), ram.free, held, tables);
    match op {
      case Alloc =>
        if ram.freeList != 0 {
          var page := ram.AllocPage();
          held' := held + {FrameAt(page)};
        }
      case Free(f) =>
        if f in held {
          assert f < PAGES && f !in Elems(s.free);
          ram.FreePage(Vir(f));
          held' := held - {f};
        }
      case Write(f, i, w) =>
        if f in held && i < WORDS {
          assert f !in Elems(s.free);
          ram.Store(f, i, w);
          ChainFrame(s.m, ram.Snapshot(), ram.freeList, ram.free, ram.end, {f});
        }
      case Map(va, phy, privilege) =>
        var pde := ram.Load(FrameAt(pagedir), DirIndex(va));
        if privilege < 2 && (Present(pde) || ram.freeList != 0) {
          PageMap(ram, pagedir, va, phy, privilege);
          if !Present(pde) {
            tables' := tables + {s.free[0]};
          }
        }
    }
  }

  /** One more request of a run. */
  method ServeNext(ram: Ram, pagedir: word, op: PageOp, held: set<nat>, ghost tables: set<nat>, ghost states: seq<State>, ghost ops: seq<PageOp>)
    returns (held': set<nat>, ghost tables': set<nat>, ghost states': seq<State>)
    requires ram.Valid() && IsPage(pagedir) && ram.end == 0
    requires IsRun(FrameAt(pagedir), states, ops) && states[|ops|] == State(ram.Snapshot(), ram.free, held, tables)
    modifies ram, ram.words
    ensures ram.Valid() && ram.end == 0
    ensures IsRun(FrameAt(pagedir), states', ops + [op]) && states'[0] == states[0]
    ensures states'[|ops| + 1] == State(ram.Snapshot(), ram.free, held', tables')
  {
    EveryRun(FrameAt(pagedir), states, ops);
    held', tables' := Serve(ram, pagedir, op, held, tables, Elems(states[0].free));
    ghost var s := State(ram.Snapshot(), ram.free, held', tables');
    RunMore(FrameAt(pagedir), states, ops, op, s);
    states' := states + [s];
  }

  /** The requests ops, one after the other; states is the run they make. */
  method Run(ram: Ram, pagedir: word, ops: seq<PageOp>) returns (held: set<nat>, ghost tables: set<nat>, ghost states: seq<State>)
    requires ram.Valid() && IsPage(pagedir) && ram.end == 0
    requires TablesApart(ram.Snapshot(), FrameAt(pagedir), ram.free) && NoSharing(ram.Snapshot(), FrameAt(pagedir))
    modifies ram, ram.words
    ensures ram.Valid() && ram.end == 0
    ensures IsRun(FrameAt(pagedir), states, ops) && states[0] == State(old(ram.Snapshot()), old(ram.free), {}, {})
    ensures states[|ops|] == State(ram.Snapshot(), ram.free, held, tables)
  {
    ghost var s0 := State(ram.Snapshot(), ram.free, {}, {});
    held, tables, states := {}, {}, [s0];
    RunStarts(FrameAt(pagedir), s0);
    ghost var done: seq<PageOp> := [];
    for n := 0 to |ops|
      invariant ram.Valid() && ram.end == 0 && done == ops[..n]
      invariant IsRun(FrameAt(pagedir), states, done) && states[0] == s0
      invariant states[n] == State(ram.Snapshot(), ram.free, held, tables)
    {
      held, tables, states := ServeNext(ram, pagedir, ops[n], held, tables, states, done);
      done := done + [ops[n]];
    }
  }

  lemma RunStarts(d: nat, s0: State)
    requires Chain(s0.m, HeadOf(s0.free, 0), s0.free, 0) && s0.held == {} && s0.tables == {}
    requires TablesApart(s0.m, d, s0.free) && NoSharing(s0.m, d)
    ensures IsRun(d, [s0], [])
  {
  }

  /** From reset on: after boot, any run of page requests by process 0. The last word of
      RAM's last page, which init_memory leaves alone, has to be zero. */
  method BootThenRun(ram: Ram, d: nat, pt: nat, kernelEnd: word, ops: seq<PageOp>)
    returns (held: set<nat>, ghost tables: set<nat>, ghost states: seq<State>)
    requires ram.words.Length == RAM_WORDS && BootFrames(d, pt)
    requires forall f: nat, i: nat {:trigger Word(ram.Snapshot(), f, i)} ::
               f == d || pt <= f < pt + KERNEL_TABLES ==> Word(ram.Snapshot(), f, i) == 0
    requires KERNEL_BASE <= kernelEnd <= KERNEL_BASE + PAGES * 4096 - 3 * 4096
    requires d < FirstFree(kernelEnd) && pt + KERNEL_TABLES <= FirstFree(kernelEnd)
    requires Word(ram.Snapshot(), PAGES - 1, 0) == 0
    modifies ram, ram.words
    ensures ram.Valid() && IsRun(d, states, ops)
    ensures states[0].free == Range(FirstFree(kernelEnd) + 3, PAGES)
    ensures states[|ops|] == State(ram.Snapshot(), ram.free, held, tables)
    ensures Partition(ram.free, held, tables, Elems(Range(FirstFree(kernelEnd) + 3, PAGES)))
    ensures Sound(Trace(d, states, ops), held + tables)
  {
    var stack := BootToUser(ram, d, pt, kernelEnd);
    held, tables, states := Run(ram, Vir(d), ops);
    EveryRun(d, states, ops);
  }
}
