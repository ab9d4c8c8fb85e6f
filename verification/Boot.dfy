/** From entry (entry.c) to user mode (switch_to_user of main.c): the boot page tables
    and the private first table of process 0. */
module Boot {
  import opened Words
  import opened FreeList
  import opened PhysicalMemory
  import opened Paging
  import opened AddressSpace
  import opened Fork

  const KERNEL_TABLES: nat := 256

  // ----- the boot page tables

  /** What entry's loops write to entry j of boot table k. The loop guard tests for an
      address beyond PHY_SIZE, so the frame right behind RAM is mapped too. */
  function BootEntry(k: nat, j: nat): word {
    if k * 1024 + j <= PAGES then Entry(k * 1024 + j, SUPERVISOR) else 0
  }

  /** Directory d and boot tables pt, pt + 1, ... are separate frames of RAM. */
  predicate BootFrames(d: nat, pt: nat) {
    d < PAGES && pt + KERNEL_TABLES <= PAGES && (d < pt || pt + KERNEL_TABLES <= d)
  }

  /** Boot table k is filled. */
  ghost predicate TableFilled(m: Mem, pt: nat, k: nat) {
    forall j: nat :: j < WORDS ==> Word(m, pt + k, j) == BootEntry(k, j)
  }

  ghost predicate BootTables(m: Mem, pt: nat, n: nat) {
    forall k: nat :: k < n ==> TableFilled(m, pt, k)
  }

  lemma TableKept(m: Mem, m': Mem, pt: nat, k: nat)
    requires TableFilled(m, pt, k) && SameContent(m, pt + k, m', pt + k)
    ensures TableFilled(m', pt, k)
  {
  }

  /** A change outside the tables leaves them filled. */
  lemma BootTablesKept(m: Mem, m': Mem, pt: nat, n: nat, touched: set<nat>)
    requires BootTables(m, pt, n) && Outside(m, m', touched) && forall f :: f in touched ==> f < pt || pt + n <= f
    ensures BootTables(m', pt, n)
  {
    forall k: nat | k < n
      ensures TableFilled(m', pt, k)
    {
      TableKept(m, m', pt, k);
    }
  }

  /** The paging structures entry leaves behind. */
  ghost predicate BootState(m: Mem, d: nat, pt: nat) {
    && BootFrames(d, pt)
    && BootTables(m, pt, KERNEL_TABLES)
    && Word(m, d, 0) == Entry(pt, SUPERVISOR)
    && (forall i: nat :: 0 < i < USER_ENTRIES ==> Word(m, d, i) == 0)
    && (forall i: nat :: USER_ENTRIES <= i < WORDS ==> Word(m, d, i) == Entry(pt + (i - USER_ENTRIES), SUPERVISOR))
  }

  /** The inner loop: one boot table, cut off behind RAM. */
  method FillBootTable(ram: Ram, t: nat, k: nat)
    requires ram.words.Length == RAM_WORDS && t < PAGES && k < KERNEL_TABLES
    requires forall j: nat :: j < WORDS ==> Word(ram.Snapshot(), t, j) == 0
    modifies ram.words
    ensures Outside(old(ram.Snapshot()), ram.Snapshot(), {t})
    ensures forall j: nat :: j < WORDS ==> Word(ram.Snapshot(), t, j) == BootEntry(k, j)
  {
    for j := 0 to WORDS
      invariant Outside(old(ram.Snapshot()), ram.Snapshot(), {t})
      invariant forall l: nat :: l < j ==> Word(ram.Snapshot(), t, l) == BootEntry(k, l)
      invariant forall l: nat :: j <= l < WORDS ==> Word(ram.Snapshot(), t, l) == 0
    {
      var base := k * 0x40_0000 + j * 4096;
      if base > PAGES * 4096 {
        break;
      }
      ram.Store(t, j, base + 1 + 2 + 0);
    }
  }

  /** The body of the outer loop: a directory entry and its table. */
  method FillBootDirEntry(ram: Ram, d: nat, i: nat, t: nat)
    requires ram.words.Length == RAM_WORDS && d < PAGES && t < PAGES && d != t && USER_ENTRIES <= i < WORDS
    requires forall j: nat :: j < WORDS ==> Word(ram.Snapshot(), t, j) == 0
    modifies ram.words
    ensures Outside(old(ram.Snapshot()), ram.Snapshot(), {d, t})
    ensures forall j: nat :: j < WORDS ==> Word(ram.Snapshot(), t, j) == BootEntry(i - USER_ENTRIES, j)
    ensures Word(ram.Snapshot(), d, i) == Entry(t, SUPERVISOR)
    ensures forall l: nat :: l != i ==> Word(ram.Snapshot(), d, l) == Word(old(ram.Snapshot()), d, l)
  {
    ram.Store(d, i, t * 4096 + 0 + 2 + 1);
    FillBootTable(ram, t, i - USER_ENTRIES);
  }

  /** The last tables are still empty after n rounds of the outer loop. */
  ghost predicate TablesEmpty(m: Mem, pt: nat, n: nat) {
    forall f: nat, j: nat {:trigger Word(m, f, j)} :: pt + n <= f < pt + KERNEL_TABLES ==> Word(m, f, j) == 0
  }

  /** The directory and the rest of memory when the outer loop has reached entry i. */
  ghost predicate DirProgress(m0: Mem, m: Mem, d: nat, pt: nat, i: nat)
    requires BootFrames(d, pt) && USER_ENTRIES <= i <= WORDS
  {
    && (forall l: nat :: l < USER_ENTRIES ==> Word(m, d, l) == 0)
    && (forall l: nat :: USER_ENTRIES <= l < i ==> Word(m, d, l) == Entry(pt + (l - USER_ENTRIES), SUPERVISOR))
    && forall f: nat, l: nat {:trigger Word(m, f, l)} :: f != d && (f < pt || pt + KERNEL_TABLES <= f) ==> Word(m, f, l) == Word(m0, f, l)
  }

  lemma TablesNext(m: Mem, m': Mem, d: nat, pt: nat, n: nat)
    requires BootFrames(d, pt) && n < KERNEL_TABLES && BootTables(m, pt, n) && Outside(m, m', {d, pt + n})
    requires TableFilled(m', pt, n)
    ensures BootTables(m', pt, n + 1)
  {
    BootTablesKept(m, m', pt, n, {d, pt + n});
  }

  lemma EmptyNext(m: Mem, m': Mem, d: nat, pt: nat, n: nat)
    requires BootFrames(d, pt) && n < KERNEL_TABLES && TablesEmpty(m, pt, n) && Outside(m, m', {d, pt + n})
    ensures TablesEmpty(m', pt, n + 1)
  {
  }

  lemma DirNext(m0: Mem, m: Mem, m': Mem, d: nat, pt: nat, i: nat)
    requires BootFrames(d, pt) && USER_ENTRIES <= i < WORDS && DirProgress(m0, m, d, pt, i)
    requires var t := pt + (i - USER_ENTRIES);
      && Outside(m, m', {d, t}) && Word(m', d, i) == Entry(t, SUPERVISOR)
      && forall l: nat :: l != i ==> Word(m', d, l) == Word(m, d, l)
    ensures DirProgress(m0, m', d, pt, i + 1)
  {
  }

  /** All three after n rounds of the outer loop. */
  ghost predicate BootLoop(m0: Mem, m: Mem, d: nat, pt: nat, n: nat)
    requires BootFrames(d, pt) && n <= KERNEL_TABLES
  {
    BootTables(m, pt, n) && TablesEmpty(m, pt, n) && DirProgress(m0, m, d, pt, USER_ENTRIES + n)
  }

  lemma BootLoopNext(m0: Mem, m: Mem, m': Mem, d: nat, pt: nat, n: nat)
    requires BootFrames(d, pt) && n < KERNEL_TABLES && BootLoop(m0, m, d, pt, n)
    requires Outside(m, m', {d, pt + n}) && Word(m', d, USER_ENTRIES + n) == Entry(pt + n, SUPERVISOR)
    requires forall l: nat :: l != USER_ENTRIES + n ==> Word(m', d, l) == Word(m, d, l)
    requires TableFilled(m', pt, n)
    ensures BootLoop(m0, m', d, pt, n + 1)
  {
    TablesNext(m, m', d, pt, n);
    EmptyNext(m, m', d, pt, n);
    DirNext(m0, m, m', d, pt, USER_ENTRIES + n);
  }

  lemma BootLoopStart(m: Mem, d: nat, pt: nat)
    requires BootFrames(d, pt) && forall i: nat :: i < WORDS ==> Word(m, d, i) == 0
    requires forall f: nat, j: nat {:trigger Word(m, f, j)} :: pt <= f < pt + KERNEL_TABLES ==> Word(m, f, j) == 0
    ensures BootLoop(m, m, d, pt, 0)
  {
  }

  /** Entry 0 becomes a copy of entry 0x300. */
  lemma BootLoopDone(m0: Mem, m: Mem, d: nat, pt: nat)
    requires BootFrames(d, pt) && BootLoop(m0, m, d, pt, KERNEL_TABLES)
    ensures var m' := Put(m, d, 0, Word(m, d, USER_ENTRIES));
      && BootState(m', d, pt)
      && forall f: nat, i: nat {:trigger Word(m', f, i)} :: f != d && (f < pt || pt + KERNEL_TABLES <= f) ==> Word(m', f, i) == Word(m0, f, i)
  {
    BootTablesKept(m, Put(m, d, 0, Word(m, d, USER_ENTRIES)), pt, KERNEL_TABLES, {d});
  }

  /** entry steps 1 to 3. The directory and the tables are zero-initialised globals. */
  method BuildBootTables(ram: Ram, d: nat, pt: nat)
    requires ram.words.Length == RAM_WORDS && BootFrames(d, pt)
    requires forall i: nat :: i < WORDS ==> Word(ram.Snapshot(), d, i) == 0
    requires forall f: nat, j: nat {:trigger Word(ram.Snapshot(), f, j)} ::
               pt <= f < pt + KERNEL_TABLES ==> Word(ram.Snapshot(), f, j) == 0
    modifies ram.words
    ensures BootState(ram.Snapshot(), d, pt)
    ensures forall f: nat, i: nat {:trigger Word(ram.Snapshot(), f, i)} ::
              f != d && (f < pt || pt + KERNEL_TABLES <= f) ==> Word(ram.Snapshot(), f, i) == Word(old(ram.Snapshot()), f, i)
  {
    ghost var m0 := ram.Snapshot();
    BootLoopStart(m0, d, pt);
    for i := USER_ENTRIES to WORDS
      invariant BootLoop(m0, ram.Snapshot(), d, pt, i - USER_ENTRIES)
    {
      FillNext(ram, d, pt, i, m0);
    }
    BootLoopDone(m0, ram.Snapshot(), d, pt);
    var pde := ram.Load(d, USER_ENTRIES);
    ram.Store(d, 0, pde);
  }

  /** One round of the outer loop. */
  method FillNext(ram: Ram, d: nat, pt: nat, i: nat, ghost m0: Mem)
    requires ram.words.Length == RAM_WORDS && BootFrames(d, pt) && USER_ENTRIES <= i < WORDS
    requires BootLoop(m0, ram.Snapshot(), d, pt, i - USER_ENTRIES)
    modifies ram.words
    ensures BootLoop(m0, ram.Snapshot(), d, pt, i + 1 - USER_ENTRIES)
  {
    ghost var m := ram.Snapshot();
    FillBootDirEntry(ram, d, i, pt + (i - USER_ENTRIES));
    BootLoopNext(m0, m, ram.Snapshot(), d, pt, i - USER_ENTRIES);
  }

  /** Boot maps kernel address base + x to physical x for every page up to and including
      PHY_SIZE, for the supervisor only, and nothing above. The first 4 MB also appear at
      address 0, through the very same table. */
  lemma BootTranslation(m: Mem, d: nat, pt: nat, va: word)
    requires BootState(m, d, pt)
    ensures Word(m, d, 0) == Word(m, d, USER_ENTRIES) && !NoSharing(m, d)
    ensures Translate(m, d, va) ==
      if va >= KERNEL_BASE then
        if (va - KERNEL_BASE) / 4096 <= PAGES then Mapped((va - KERNEL_BASE) / 4096, false, true) else Fault
      else if va < 0x40_0000 then Mapped(va / 4096, false, true)
      else Fault
  {
    PageNumber(va);
    BootWalk(m, d, pt, DirIndex(va), TableIndex(va));
    assert Present(Word(m, d, 0)) && Present(Word(m, d, USER_ENTRIES));
  }

  lemma BootWalk(m: Mem, d: nat, pt: nat, i: nat, j: nat)
    requires BootState(m, d, pt) && i < WORDS && j < WORDS
    ensures Walk(m, d, i, j) ==
      if i >= USER_ENTRIES then
        if (i - USER_ENTRIES) * 1024 + j <= PAGES then Mapped((i - USER_ENTRIES) * 1024 + j, false, true) else Fault
      else if i == 0 then Mapped(j, false, true)
      else Fault
  {
    if 0 < i < USER_ENTRIES {
      assert Word(m, d, i) == 0;
    } else {
      var k := if i >= USER_ENTRIES then i - USER_ENTRIES else 0;
      WalkBoot(m, d, pt, i, j, k, pt + k);
    }
  }

  lemma BootEntryShows(k: nat, j: nat)
    requires k < KERNEL_TABLES && j < WORDS
    ensures var e := BootEntry(k, j);
      && (Present(e) <==> k * 1024 + j <= PAGES)
      && (Present(e) ==> Target(e) == k * 1024 + j && !UserBit(e) && Writable(e))
  {
  }

  lemma WalkBoot(m: Mem, d: nat, pt: nat, i: nat, j: nat, k: nat, t: nat)
    requires k < KERNEL_TABLES && j < WORDS && t == pt + k < PAGES && TableFilled(m, pt, k)
    requires Word(m, d, i) == Entry(t, SUPERVISOR)
    ensures Walk(m, d, i, j) == if k * 1024 + j <= PAGES then Mapped(k * 1024 + j, false, true) else Fault
  {
    assert Word(m, t, j) == BootEntry(k, j);
    BootEntryShows(k, j);
    WalkThrough(m, d, i, j, t, SUPERVISOR);
  }

  /** The walk behind a directory entry made by generate_page_dir_item. */
  lemma WalkThrough(m: Mem, d: nat, i: nat, j: nat, t: nat, privilege: nat)
    requires t < 0x10_0000 && privilege < 2 && Word(m, d, i) == Entry(t, privilege)
    ensures var pte := Word(m, t, j);
      Walk(m, d, i, j) == if !Present(pte) then Fault else Mapped(Target(pte), privilege == USER && UserBit(pte), Writable(pte))
  {
  }

  // ----- switch_to_user

  const USER_STACK_START: word := 0xBFFF_FFFC

  /** Assigning PAGE_PRIVILEGE_USER to the privilege bit of an entry. */
  function Unprivileged(e: word): (r: word)
    ensures UserBit(r) && Present(r) == Present(e) && Writable(r) == Writable(e) && Target(r) == Target(e)
    ensures r / 8 % 512 == e / 8 % 512
  {
    if UserBit(e) then e
    else
      AddBit(e);
      HighBits(e);
      LowBits(e, e + 4);
      e + 4
  }

  lemma AddBit(e: word)
    requires !UserBit(e)
    ensures e + 4 < 0x1_0000_0000 && UserBit(e + 4) && (e + 4) % 4 == e % 4 && Target(e + 4) == Target(e)
  {
    AddFour(e);
    AddBitAt(e, e / 8, e % 8);
  }

  lemma HighBits(e: word)
    requires !UserBit(e)
    ensures (e + 4) / 8 == e / 8
  {
    var q, r := e / 8, e % 8;
    assert e == 8 * q + r;
    Bit2(q, r);
    assert e + 4 == 8 * q + (r + 4) && r + 4 < 8;
  }

  lemma AddFour(e: word)
    ensures (e + 4) % 4 == e % 4
  {
  }

  lemma AddBitAt(e: word, q: nat, r: nat)
    requires e == 8 * q + r && r < 8 && !UserBit(e)
    ensures e + 4 < 0x1_0000_0000 && UserBit(e + 4) && Target(e + 4) == Target(e)
  {
    Bit2(q, r);
    assert r < 4;
    assert e + 4 == 8 * q + (r + 4);
    assert q < 0x2000_0000;
    Bit2(q, r + 4);
    Page(q, r);
    Page(q, r + 4);
  }

  lemma Bit2(q: nat, r: nat)
    requires r < 8
    ensures (8 * q + r) / 4 % 2 == 1 <==> r >= 4
  {
    assert (8 * q + r) / 4 == 2 * q + if r >= 4 then 1 else 0;
  }

  lemma Page(q: nat, r: nat)
    requires r < 8
    ensures (8 * q + r) / 4096 == q / 512
  {
    var k, s := q / 512, q % 512;
    assert 8 * q + r == 4096 * k + (8 * s + r) && 8 * s + r < 4096;
  }

  /** The two low bits decide whether an entry is present and writable. */
  lemma LowBits(e: word, f: word)
    requires e % 4 == f % 4
    ensures Present(e) == Present(f) && Writable(e) == Writable(f)
  {
  }

  /** The boot structures once entry 0 has a private user table t for the first 4 MB. */
  ghost predicate PrivateState(m: Mem, d: nat, pt: nat, t: nat) {
    && BootFrames(d, pt)
    && BootTables(m, pt, KERNEL_TABLES)
    && t < PAGES && t != d && (t < pt || pt + KERNEL_TABLES <= t)
    && Word(m, d, 0) == Entry(t, USER)
    && (forall i: nat :: 0 < i < USER_ENTRIES ==> Word(m, d, i) == 0)
    && (forall i: nat :: USER_ENTRIES <= i < WORDS ==> Word(m, d, i) == Entry(pt + (i - USER_ENTRIES), SUPERVISOR))
    && forall j: nat :: j < WORDS ==> Word(m, t, j) == Unprivileged(BootEntry(0, j))
  }

  ghost predicate KernelApart(d: nat, pt: nat, free: seq<nat>) {
    d !in free && forall f :: f in free ==> f < pt || pt + KERNEL_TABLES <= f
  }

  lemma KernelApartRest(d: nat, pt: nat, free: seq<nat>)
    requires KernelApart(d, pt, free) && free != []
    ensures KernelApart(d, pt, free[1..])
    ensures free[0] != d && (free[0] < pt || pt + KERNEL_TABLES <= free[0])
  {
    assert free[0] in free && forall f :: f in free[1..] ==> f in free;
  }

  /** Redirecting entry 0 to an opened copy of its table gives the private state. */
  lemma PrivateFromBoot(m0: Mem, m: Mem, d: nat, pt: nat, t: nat)
    requires BootState(m0, d, pt) && Outside(m0, m, {d, t})
    requires t < PAGES && t != d && (t < pt || pt + KERNEL_TABLES <= t)
    requires Word(m, d, 0) == Entry(t, USER) && forall i: nat :: i != 0 ==> Word(m, d, i) == Word(m0, d, i)
    requires forall j: nat :: j < WORDS ==> Word(m, t, j) == Unprivileged(Word(m0, pt, j))
    ensures PrivateState(m, d, pt, t)
  {
    BootTablesKept(m0, m, pt, KERNEL_TABLES, {d, t});
    forall j: nat | j < WORDS
      ensures Word(m, t, j) == Unprivileged(BootEntry(0, j))
    {
      assert TableFilled(m0, pt, 0);
      assert Word(m0, pt + 0, j) == BootEntry(0, j);
    }
  }

  lemma PrivateWalk(m: Mem, d: nat, pt: nat, t: nat, i: nat, j: nat)
    requires PrivateState(m, d, pt, t) && i < WORDS && j < WORDS
    ensures Walk(m, d, i, j) ==
      if i >= USER_ENTRIES then
        if (i - USER_ENTRIES) * 1024 + j <= PAGES then Mapped((i - USER_ENTRIES) * 1024 + j, false, true) else Fault
      else if i == 0 then Mapped(j, true, true)
      else Fault
  {
    if i >= USER_ENTRIES {
      var k := i - USER_ENTRIES;
      WalkBoot(m, d, pt, i, j, k, pt + k);
    } else if i == 0 {
      WalkThrough(m, d, i, j, t, USER);
    }
  }

  lemma PrivateTables(m: Mem, d: nat, pt: nat, t: nat, free: seq<nat>)
    requires PrivateState(m, d, pt, t) && KernelApart(d, pt, free) && t !in free
    ensures TablesApart(m, d, free) && NoSharing(m, d)
  {
  }

  /** Steps 1 to 4: a private copy of the first kernel table, open to user mode. */
  method PrivateFirstTable(ram: Ram, d: nat, ghost pt: nat) returns (t: nat)
    requires ram.Valid() && ram.free != []
    requires BootState(ram.Snapshot(), d, pt) && KernelApart(d, pt, ram.free)
    modifies ram, ram.words
    ensures ram.Valid() && ram.end == old(ram.end)
    ensures t == old(ram.free)[0] && ram.free == old(ram.free)[1..] && t !in ram.free
    ensures PrivateState(ram.Snapshot(), d, pt, t) && Outside(old(ram.Snapshot()), ram.Snapshot(), {d, t})
  {
    ghost var m0 := ram.Snapshot();
    KernelApartRest(d, pt, ram.free);
    var page := ram.AllocPage();
    t := FrameAt(page);
    var pde := ram.Load(d, 0);
    ram.CopyPage(Vir(Target(pde)), page);
    ghost var m1 := ram.Snapshot();
    ChainFrame(m0, m1, ram.freeList, ram.free, ram.end, {t});
    OpenTable(ram, t);
    ghost var m2 := ram.Snapshot();
    ram.Store(d, 0, Entry(t, USER));
    ghost var m3 := ram.Snapshot();
    ChainFrame(m2, m3, ram.freeList, ram.free, ram.end, {d});
    PrivateFromBoot(m0, m3, d, pt, t);
  }

  /** Step 3: every entry of table t becomes accessible from user mode. */
  method OpenTable(ram: Ram, t: nat)
    requires ram.Valid() && t < PAGES && t !in ram.free
    modifies ram.words
    ensures ram.Valid() && ram.end == old(ram.end)
    ensures Outside(old(ram.Snapshot()), ram.Snapshot(), {t})
    ensures forall j: nat :: j < WORDS ==> Word(ram.Snapshot(), t, j) == Unprivileged(Word(old(ram.Snapshot()), t, j))
  {
    ghost var m0 := ram.Snapshot();
    for i := 0 to WORDS
      invariant Outside(m0, ram.Snapshot(), {t})
      invariant forall j: nat :: j < i ==> Word(ram.Snapshot(), t, j) == Unprivileged(Word(m0, t, j))
      invariant forall j: nat :: i <= j < WORDS ==> Word(ram.Snapshot(), t, j) == Word(m0, t, j)
    {
      var e := ram.Load(t, i);
      ram.Store(t, i, Unprivileged(e));
    }
    ChainFrame(m0, ram.Snapshot(), ram.freeList, ram.free, ram.end, {t});
  }

  /** What process 0 sees: the kernel as boot mapped it, the low 4 MB and the stack page
      from user mode, and nothing else. */
  function UserView(stack: nat, va: word): Translation {
    if va >= KERNEL_BASE then
      if (va - KERNEL_BASE) / 4096 <= PAGES then Mapped((va - KERNEL_BASE) / 4096, false, true) else Fault
    else if va < 0x40_0000 then Mapped(va / 4096, true, true)
    else if va / 4096 == USER_STACK_START / 4096 then Mapped(stack, true, true)
    else Fault
  }

  /** switch_to_user steps 1 to 5. It takes three pages: the private table, the stack and
      the stack's table. Afterwards no two directory entries share a table, the kernel
      half is as before, and process 0 is ready to be forked. */
  method SwitchToUser(ram: Ram, d: nat, ghost pt: nat) returns (stack: word)
    requires ram.Valid() && |ram.free| >= 3
    requires BootState(ram.Snapshot(), d, pt) && KernelApart(d, pt, ram.free)
    modifies ram, ram.words
    ensures ram.Valid() && ram.end == old(ram.end)
    ensures IsPage(stack) && FrameAt(stack) == old(ram.free)[1] && ram.free == old(ram.free)[3..]
    ensures forall va: word {:trigger Translate(ram.Snapshot(), d, va)} ::
              Translate(ram.Snapshot(), d, va) == UserView(FrameAt(stack), va)
    ensures forall k: nat :: USER_ENTRIES <= k < WORDS ==> Word(ram.Snapshot(), d, k) == Word(old(ram.Snapshot()), d, k)
    ensures NoSharing(ram.Snapshot(), d) && Forkable(ram.Snapshot(), d, ram.free)
    ensures |UserFrames(ram.Snapshot(), d)| == 1027
  {
    ghost var fs0 := ram.free;
    KernelApartRest(d, pt, fs0);
    KernelApartRest(d, pt, fs0[1..]);
    var t := PrivateFirstTable(ram, d, pt);
    ghost var m1 := ram.Snapshot();
    stack := ram.AllocPage();
    assert ram.free == fs0[1..][1..] && FrameAt(stack) == fs0[1];
    PrivateTables(m1, d, pt, t, ram.free);
    assert DirIndex(0xBFFF_F000) == 767;
    PageMap(ram, Vir(d), 0xBFFF_F000, stack - KERNEL_BASE, USER);
    SeesUserView(m1, ram.Snapshot(), d, pt, t, fs0[1]);
    UserViewForkable(ram.Snapshot(), d, fs0[1], ram.free);
    StackEntryPresent(ram.Snapshot(), d, fs0[1]);
    UserFrameCount(ram.Snapshot(), d, fs0[1]);
  }

  lemma StackEntryPresent(m: Mem, d: nat, stack: nat)
    requires forall va: word {:trigger Translate(m, d, va)} :: Translate(m, d, va) == UserView(stack, va)
    ensures Present(Word(m, d, USER_ENTRIES - 1))
  {
    var va: word := 0xBFFF_F000;
    assert DirIndex(va) == USER_ENTRIES - 1;
    assert Translate(m, d, va) == UserView(stack, va);
  }

  lemma SeesUserView(m1: Mem, m: Mem, d: nat, pt: nat, t: nat, stack: nat)
    requires PrivateState(m1, d, pt, t)
    requires forall va: word {:trigger Translate(m, d, va)} ::
               Translate(m, d, va) == if va / 4096 == 0xBFFF_F000 / 4096 then Mapped(stack, true, true) else Translate(m1, d, va)
    ensures forall va: word {:trigger Translate(m, d, va)} :: Translate(m, d, va) == UserView(stack, va)
  {
    forall va: word
      ensures Translate(m, d, va) == UserView(stack, va)
    {
      PageNumber(va);
      PrivateWalk(m1, d, pt, t, DirIndex(va), TableIndex(va));
    }
  }

  // ----- how much process 0 maps

  lemma {:induction false} AllPresent(m: Mem, t: nat, n: nat)
    requires forall j: nat :: j < n ==> Present(Word(m, t, j))
    ensures |PagesOf(m, t, n)| == n
  {
    if n > 0 {
      AllPresent(m, t, n - 1);
    }
  }

  lemma {:induction false} OnePresent(m: Mem, t: nat, n: nat, k: nat)
    requires forall j: nat :: j < n ==> (Present(Word(m, t, j)) <==> j == k)
    ensures |PagesOf(m, t, n)| == if k < n then 1 else 0
  {
    if n > 0 {
      OnePresent(m, t, n - 1, k);
    }
  }

  lemma {:induction false} TwoTables(m: Mem, d: nat, n: nat, a: nat, b: nat)
    requires forall i: nat {:trigger Branch(m, Word(m, d, i))} :: i < n ==>
               |Branch(m, Word(m, d, i))| == if i == 0 then a else if i == USER_ENTRIES - 1 then b else 0
    ensures |Tree(m, d, n)| == (if n > 0 then a else 0) + if n >= USER_ENTRIES then b else 0
  {
    if n > 0 {
      TwoTables(m, d, n - 1, a, b);
      TreeSize(m, d, n - 1);
    }
  }

  /** Whether table entry j behind directory entry i is present shows in the translation. */
  lemma SeenPresent(m: Mem, d: nat, stack: nat, i: nat, j: nat)
    requires i < USER_ENTRIES && j < WORDS && Present(Word(m, d, i))
    requires forall va: word {:trigger Translate(m, d, va)} :: Translate(m, d, va) == UserView(stack, va)
    ensures Present(Word(m, Target(Word(m, d, i)), j)) <==> i == 0 || (i == USER_ENTRIES - 1 && j == WORDS - 1)
  {
    var va: word := (i * 1024 + j) * 4096;
    assert DirIndex(va) == i && TableIndex(va) == j;
    assert Translate(m, d, va) == UserView(stack, va);
  }

  /** Two tables, the 1024 low pages and the stack page. */
  lemma UserFrameCount(m: Mem, d: nat, stack: nat)
    requires forall i: nat :: 0 < i < USER_ENTRIES - 1 ==> !Present(Word(m, d, i))
    requires Present(Word(m, d, 0)) && Present(Word(m, d, USER_ENTRIES - 1))
    requires forall va: word {:trigger Translate(m, d, va)} :: Translate(m, d, va) == UserView(stack, va)
    ensures |UserFrames(m, d)| == 1027
  {
    var last := USER_ENTRIES - 1;
    forall j: nat | j < WORDS
      ensures Present(Word(m, Target(Word(m, d, 0)), j))
      ensures Present(Word(m, Target(Word(m, d, last)), j)) <==> j == WORDS - 1
    {
      SeenPresent(m, d, stack, 0, j);
      SeenPresent(m, d, stack, last, j);
    }
    AllPresent(m, Target(Word(m, d, 0)), WORDS);
    OnePresent(m, Target(Word(m, d, last)), WORDS, WORDS - 1);
    forall i: nat {:trigger Branch(m, Word(m, d, i))} | i < USER_ENTRIES
      ensures |Branch(m, Word(m, d, i))| == if i == 0 then 1025 else if i == last then 2 else 0
    {
    }
    TwoTables(m, d, USER_ENTRIES, 1025, 2);
  }

  lemma UserViewForkable(m: Mem, d: nat, stack: nat, free: seq<nat>)
    requires TablesApart(m, d, free) && stack < PAGES
    requires forall va: word {:trigger Translate(m, d, va)} :: Translate(m, d, va) == UserView(stack, va)
    ensures Forkable(m, d, free)
  {
    forall i: nat, j: nat {:trigger Word(m, Target(Word(m, d, i)), j)} |
      i < USER_ENTRIES && j < WORDS && Present(Word(m, d, i)) && Present(Word(m, Target(Word(m, d, i)), j))
      ensures Target(Word(m, Target(Word(m, d, i)), j)) < PAGES
    {
      var va: word := (i * 1024 + j) * 4096;
      assert DirIndex(va) == i && TableIndex(va) == j;
      assert Translate(m, d, va) == UserView(stack, va);
    }
  }

  /** Building the free list above the kernel leaves the boot tables alone. */
  lemma BootStateKept(m: Mem, m': Mem, d: nat, pt: nat, lo: nat)
    requires BootState(m, d, pt) && d < lo <= PAGES && pt + KERNEL_TABLES <= lo
    requires forall f: nat, i: nat {:trigger Word(m', f, i)} :: f < lo ==> Word(m', f, i) == Word(m, f, i)
    ensures BootState(m', d, pt) && KernelApart(d, pt, Range(lo, PAGES))
  {
    forall k: nat | k < KERNEL_TABLES
      ensures TableFilled(m', pt, k)
    {
      assert TableFilled(m, pt, k);
      TableKept(m, m', pt, k);
    }
  }

  /** The boot tables, then the free list over everything above the kernel. */
  method BootMemory(ram: Ram, d: nat, pt: nat, kernelEnd: word, ghost lo: nat)
    requires ram.words.Length == RAM_WORDS && BootFrames(d, pt)
    requires forall f: nat, i: nat {:trigger Word(ram.Snapshot(), f, i)} ::
               f == d || pt <= f < pt + KERNEL_TABLES ==> Word(ram.Snapshot(), f, i) == 0
    requires KERNEL_BASE <= kernelEnd <= KERNEL_BASE + PAGES * 4096 && lo == FirstFree(kernelEnd) < PAGES
    requires d < lo && pt + KERNEL_TABLES <= lo
    modifies ram, ram.words
    ensures ram.Valid() && ram.end == Word(old(ram.Snapshot()), PAGES - 1, 0) && ram.free == Range(lo, PAGES)
    ensures BootState(ram.Snapshot(), d, pt) && KernelApart(d, pt, ram.free)
  {
    BuildBootTables(ram, d, pt);
    ghost var m1 := ram.Snapshot();
    InitMemory(ram, kernelEnd);
    BootStateKept(m1, ram.Snapshot(), d, pt, lo);
  }

  lemma FirstFreeBelow(kernelEnd: word, pages: nat)
    requires pages <= PAGES && KERNEL_BASE <= kernelEnd <= KERNEL_BASE + PAGES * 4096 - pages * 4096
    ensures FirstFree(kernelEnd) + pages <= PAGES
  {
  }

  /** From reset to user mode: the boot tables, then the free list over everything above
      the kernel, then process 0's view. The kernel image holds the paging structures. */
  method BootToUser(ram: Ram, d: nat, pt: nat, kernelEnd: word) returns (stack: word)
    requires ram.words.Length == RAM_WORDS && BootFrames(d, pt)
    requires forall f: nat, i: nat {:trigger Word(ram.Snapshot(), f, i)} ::
               f == d || pt <= f < pt + KERNEL_TABLES ==> Word(ram.Snapshot(), f, i) == 0
    requires KERNEL_BASE <= kernelEnd <= KERNEL_BASE + PAGES * 4096 - 3 * 4096
    requires d < FirstFree(kernelEnd) && pt + KERNEL_TABLES <= FirstFree(kernelEnd)
    modifies ram, ram.words
    ensures ram.Valid() && ram.end == Word(old(ram.Snapshot()), PAGES - 1, 0)
    ensures ram.free == Range(FirstFree(kernelEnd) + 3, PAGES)
    ensures IsPage(stack) && FrameAt(stack) == FirstFree(kernelEnd) + 1
    ensures forall va: word {:trigger Translate(ram.Snapshot(), d, va)} ::
              Translate(ram.Snapshot(), d, va) == UserView(FrameAt(stack), va)
    ensures forall k: nat :: USER_ENTRIES <= k < WORDS ==> !UserBit(Word(ram.Snapshot(), d, k))
    ensures NoSharing(ram.Snapshot(), d) && Forkable(ram.Snapshot(), d, ram.free)
    ensures |UserFrames(ram.Snapshot(), d)| == 1027
  {
    FirstFreeBelow(kernelEnd, 3);
    BootMemory(ram, d, pt, kernelEnd, FirstFree(kernelEnd));
    RangeDrop(FirstFree(kernelEnd), PAGES, 3);
    ghost var m := ram.Snapshot();
    stack := SwitchToUser(ram, d, pt);
    KernelClosed(m, ram.Snapshot(), d, pt);
  }

  lemma KernelClosed(m: Mem, m': Mem, d: nat, pt: nat)
    requires BootState(m, d, pt)
    requires forall k: nat :: USER_ENTRIES <= k < WORDS ==> Word(m', d, k) == Word(m, d, k)
    ensures forall k: nat :: USER_ENTRIES <= k < WORDS ==> !UserBit(Word(m', d, k))
  {
  }
}
