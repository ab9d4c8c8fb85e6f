/** Every run of file-system requests on a formatted disk. */
module FsRuns {
  import opened Bytes
  import opened Layout
  import opened BlockDevice
  import opened Inodes
  import opened Bitmap
  import opened FileData
  import opened FsInvariant
  import opened FsInit

  /** A request by the holder of live inode n. A request that its caller may not make is
      skipped: growing a file when no block up to 700 is clear, or writing to slots that
      are not allocated. */
  datatype FsOp =
    | Create
    | Grow(n: nat)
    | Save(n: nat, size: uint32)
    | WriteData(n: nat, offset: nat, data: seq<byte>)

  /** The disk, the inodes handed out as their holders have them, and the numbers of those
      that have been saved. */
  datatype State = State(d: Blocks, live: seq<Inode>, saved: set<nat>)

  // ----- one request

  /** The test a caller can make before writing: every slot the range reaches is in use. */
  predicate MayWrite(slots: Slots, offset: nat, size: nat) {
    && offset + size <= MAX_BLOCKS * BLOCK_SIZE
    && (size > 0 ==> forall k :: 0 <= k < MAX_BLOCKS ==> offset / BLOCK_SIZE <= k && k * BLOCK_SIZE < offset + size ==> slots[k] != 0)
  }

  /** The test is exactly what WriteFile needs to put all the data where it belongs. */
  lemma MayWriteIff(slots: Slots, offset: nat, size: nat)
    requires forall k :: 0 <= k < MAX_BLOCKS ==> slots[k] < TOTAL_BLOCKS
    ensures MayWrite(slots, offset, size) <==> Allocated(slots, offset, offset + size)
  {
  }

  ghost predicate MayGrow(s: State, n: nat) {
    n < |s.live| && HasRoom(s.d) && FreeSlot(s.live[n].blockNo, 0) < MAX_BLOCKS
  }

  /** The next inode of the chain is handed out, with all its slots empty. */
  ghost predicate Creation(s: State, s': State) {
    var k := |s.live|;
    && k < INODES && |s'.live| == k + 1 && s'.live[..k] == s.live && s'.saved == s.saved
    && s'.d == s.d[0 := s'.d[0]] && FreeFrom(s'.d, k + 1)
    && SuperAt(s'.d[0]).bitmapNo == SuperAt(s.d[0]).bitmapNo
    && SuperAt(s'.d[0]).rootBlock == SuperAt(s.d[0]).rootBlock && SuperAt(s'.d[0]).rootOffset == SuperAt(s.d[0]).rootOffset
    && var ino := s'.live[k];
    && ino.myBlock == PlaceBlock(k) && ino.myOffset == PlaceOffset(k) && ino.blockNo == seq(MAX_BLOCKS, _ => 0)
    && ino == Nth(s.d, k).(blockNo := ino.blockNo)
  }

  /** The first clear block goes into the file's first empty slot. */
  ghost predicate Growth(s: State, n: nat, s': State)
    requires MayGrow(s, n)
  {
    var c := FirstClear(s.d[BITMAP], 0);
    && c <= FILE_SYS_BLOCKS && s'.d == HandedOut(s.d, c)
    && s'.live == Given(s.live, n, FreeSlot(s.live[n].blockNo, 0), c) && s'.saved == s.saved
  }

  /** The inode gets its new size and is written to its place. */
  ghost predicate Saving(s: State, n: nat, size: uint32, s': State)
    requires n < |s.live|
  {
    var ino := s.live[n].(size := size);
    && ino.myBlock < TOTAL_BLOCKS && ino.myOffset + INODE_SIZE <= BLOCK_SIZE
    && s' == State(InodeStored(s.d, ino), s.live[n := ino], s.saved + {n})
  }

  /** What a request does. */
  ghost predicate Step(s: State, op: FsOp, s': State) {
    match op
    case Create => if |s.live| < INODES then Creation(s, s') else s' == s
    case Grow(n) => if MayGrow(s, n) then Growth(s, n, s') else s' == s
    case Save(n, size) => if n < |s.live| then Saving(s, n, size, s') else s' == s
    case WriteData(n, offset, data) =>
      if n < |s.live| && MayWrite(s.live[n].blockNo, offset, |data|)
      then s'.live == s.live && s'.saved == s.saved && Written(s.d, s'.d, s.live[n].blockNo, offset, data, |data|)
      else s' == s
  }

  /** What the kernel function returns, 1 for a skipped request. */
  ghost function Reply(s: State, op: FsOp): int {
    match op
    case Create => if |s.live| < INODES then 0 else -1
    case Grow(n) =>
      if n >= |s.live| || !HasRoom(s.d) then 1
      else if FreeSlot(s.live[n].blockNo, 0) < MAX_BLOCKS then 0 else -1
    case Save(n, _) => if n < |s.live| then 0 else 1
    case WriteData(n, offset, data) => if n < |s.live| && MayWrite(s.live[n].blockNo, offset, |data|) then 0 else 1
  }

  ghost predicate Ok(s: State) { FsInv(s.d, s.live, s.saved) }

  // ----- one request keeps the invariant

  lemma MayWriteAllocated(s: State, n: nat, offset: nat, size: nat)
    requires Ok(s) && n < |s.live| && MayWrite(s.live[n].blockNo, offset, size)
    ensures Allocated(s.live[n].blockNo, offset, offset + size) && Separate(s.live[n].blockNo)
    ensures Head(s.live[n].blockNo, offset, size) == size
  {
    SlotsOnDisk(s.d, s.live, s.saved, n);
    forall k: nat | size > 0 && offset / BLOCK_SIZE <= k && k * BLOCK_SIZE < offset + size
      ensures 0 < s.live[n].blockNo[k] < TOTAL_BLOCKS
    {
      assert k < MAX_BLOCKS;
    }
    if size > 0 {
      assert offset / BLOCK_SIZE <= LastSlot(offset, size);
    }
  }

  lemma CreateKeeps(s: State, s': State)
    requires Ok(s) && Creation(s, s')
    ensures Ok(s')
  {
    var ino := s'.live[|s.live|];
    AllocatedInode(s.d, s'.d, s.live, s.saved, ino);
    assert s'.live == s.live + [ino];
  }

  lemma SaveKeeps(s: State, s': State, n: nat, size: uint32)
    requires Ok(s) && n < |s.live| && Saving(s, n, size, s')
    ensures Ok(s')
  {
    FieldsChanged(s.d, s.live, s.saved, n, s.live[n].(size := size));
    InodeSaved(s.d, s'.live, s.saved, n);
  }

  lemma StepKeeps(s: State, op: FsOp, s': State)
    requires Ok(s) && Step(s, op, s')
    ensures Ok(s')
  {
    match op
    case Create =>
      if |s.live| < INODES {
        CreateKeeps(s, s');
      }
    case Grow(n) =>
      if MayGrow(s, n) {
        AllocatedBlock(s.d, s.live, s.saved, n);
      }
    case Save(n, size) =>
      if n < |s.live| {
        SaveKeeps(s, s', n, size);
      }
    case WriteData(n, offset, data) =>
      if n < |s.live| && MayWrite(s.live[n].blockNo, offset, |data|) {
        MayWriteAllocated(s, n, offset, |data|);
        FileWritten(s.d, s'.d, s.live, s.saved, n, offset, data);
      }
  }

  // ----- every run

  /** Each request leads from one state to the next. */
  ghost predicate Follows(states: seq<State>, ops: seq<FsOp>) {
    |states| == |ops| + 1 && forall i {:trigger ops[i]} :: 0 <= i < |ops| ==> Step(states[i], ops[i], states[i + 1])
  }

  /** The state init_file leaves: three inodes, exactly the blocks 0 to 86 busy. */
  ghost predicate Fresh(s: State) {
    Ok(s) && |s.live| == 3 && s.saved == {0, 1, 2} && BusyBelow(s.d, 87)
  }

  /** How many of the creations succeeded. */
  ghost function Creations(states: seq<State>, ops: seq<FsOp>): nat
    requires |states| == |ops| + 1
  {
    if ops == [] then 0
    else
      var n := |ops| - 1;
      Creations(states[..n + 1], ops[..n]) + if ops[n] == Create && Reply(states[n], Create) == 0 then 1 else 0
  }

  lemma RunPrefix(states: seq<State>, ops: seq<FsOp>)
    requires Follows(states, ops) && ops != []
    ensures var n := |ops| - 1;
      && Follows(states[..n + 1], ops[..n]) && states[..n + 1][n] == states[n]
      && states[..n + 1][0] == states[0] && Step(states[n], ops[n], states[n + 1])
  {
  }

  lemma RunMore(states: seq<State>, ops: seq<FsOp>, op: FsOp, s': State)
    requires Follows(states, ops) && Step(states[|ops|], op, s')
    ensures Follows(states + [s'], ops + [op])
  {
  }

  lemma StepCount(s: State, op: FsOp, s': State)
    requires Ok(s) && Step(s, op, s')
    ensures |s'.live| == |s.live| + if op == Create && Reply(s, Create) == 0 then 1 else 0
  {
  }

  /** On every run from a sound state on: every slot in use names a busy block of the data
      area, no block is in two slots, the chain of free inodes and the metadata bits are
      sound, and the inodes out are those at the start and one for each successful
      creation, never more than 200. (By prefixes this holds in every state.) */
  lemma {:induction false} EveryRun(states: seq<State>, ops: seq<FsOp>)
    requires Follows(states, ops) && Ok(states[0])
    ensures Ok(states[|ops|])
    ensures |states[|ops|].live| == |states[0].live| + Creations(states, ops) <= INODES
    decreases |ops|
  {
    if ops != [] {
      var n := |ops| - 1;
      RunPrefix(states, ops);
      EveryRun(states[..n + 1], ops[..n]);
      StepKeeps(states[n], ops[n], states[n + 1]);
      StepCount(states[n], ops[n], states[n + 1]);
    }
  }

  // ----- files do not disturb each other

  /** The slots of file n and the contents of its blocks are the same in both states. */
  ghost predicate SameFile(s: State, s': State, n: nat) {
    && n < |s.live| && n < |s'.live| && s'.live[n].blockNo == s.live[n].blockNo
    && forall a: nat {:trigger s.live[n].blockNo[a]} :: a < MAX_BLOCKS && s.live[n].blockNo[a] != 0 ==>
         s.live[n].blockNo[a] < TOTAL_BLOCKS && s'.d[s.live[n].blockNo[a]] == s.d[s.live[n].blockNo[a]]
  }

  /** The request is none that grows or writes file n. */
  predicate LeavesAlone(op: FsOp, n: nat) {
    (op.Grow? || op.WriteData?) ==> op.n != n
  }

  lemma GrowthElsewhere(s: State, s': State, m: nat, n: nat)
    requires Ok(s) && MayGrow(s, m) && Growth(s, m, s') && n < |s.live| && n != m
    ensures SameFile(s, s', n)
  {
    HandedOutOk(s.d);
    forall a: nat | a < MAX_BLOCKS && s.live[n].blockNo[a] != 0
      ensures s.live[n].blockNo[a] < TOTAL_BLOCKS && s'.d[s.live[n].blockNo[a]] == s.d[s.live[n].blockNo[a]]
    {
      assert Busy(s.d[BITMAP], s.live[n].blockNo[a]);
    }
  }

  lemma MetadataElsewhere(s: State, s': State, n: nat)
    requires Ok(s) && n < |s.live| && n < |s'.live| && s'.live[n].blockNo == s.live[n].blockNo
    requires forall b :: FIRST_DATA <= b < TOTAL_BLOCKS ==> s'.d[b] == s.d[b]
    ensures SameFile(s, s', n)
  {
    forall a: nat | a < MAX_BLOCKS && s.live[n].blockNo[a] != 0
      ensures s.live[n].blockNo[a] < TOTAL_BLOCKS && s'.d[s.live[n].blockNo[a]] == s.d[s.live[n].blockNo[a]]
    {
      assert FIRST_DATA <= s.live[n].blockNo[a] <= FILE_SYS_BLOCKS;
    }
  }

  lemma WriteElsewhere(s: State, s': State, m: nat, offset: nat, data: seq<byte>, n: nat)
    requires Ok(s) && Step(s, WriteData(m, offset, data), s') && n < |s.live| && n != m
    ensures SameFile(s, s', n)
  {
    if m < |s.live| && MayWrite(s.live[m].blockNo, offset, |data|) {
      MayWriteAllocated(s, m, offset, |data|);
      FileWritten(s.d, s'.d, s.live, s.saved, m, offset, data);
      forall a: nat | a < MAX_BLOCKS && s.live[n].blockNo[a] != 0
        ensures s.live[n].blockNo[a] < TOTAL_BLOCKS && s'.d[s.live[n].blockNo[a]] == s.d[s.live[n].blockNo[a]]
      {
        assert FIRST_DATA <= s.live[n].blockNo[a] <= FILE_SYS_BLOCKS;
      }
    } else {
      MetadataElsewhere(s, s', n);
    }
  }

  lemma SavingElsewhere(s: State, s': State, m: nat, size: uint32, n: nat)
    requires Ok(s) && m < |s.live| && Saving(s, m, size, s') && n < |s.live|
    ensures SameFile(s, s', n)
  {
    assert s.live[m].myBlock == PlaceBlock(m);
    MetadataElsewhere(s, s', n);
  }

  lemma StepLeaves(s: State, op: FsOp, s': State, n: nat)
    requires Ok(s) && Step(s, op, s') && n < |s.live| && LeavesAlone(op, n)
    ensures SameFile(s, s', n)
  {
    match op
    case Create =>
      if |s.live| < INODES {
        assert s'.live[n] == s'.live[..|s.live|][n];
      }
      MetadataElsewhere(s, s', n);
    case Grow(m) =>
      if MayGrow(s, m) {
        GrowthElsewhere(s, s', m, n);
      } else {
        MetadataElsewhere(s, s', n);
      }
    case Save(m, size) =>
      if m < |s.live| {
        SavingElsewhere(s, s', m, size, n);
      } else {
        MetadataElsewhere(s, s', n);
      }
    case WriteData(m, offset, data) => WriteElsewhere(s, s', m, offset, data, n);
  }

  /** On every run a file keeps its blocks and their contents as long as nobody grows or
      writes that very file, whatever happens to the others. */
  lemma {:induction false} FileKept(states: seq<State>, ops: seq<FsOp>, n: nat)
    requires Follows(states, ops) && Ok(states[0]) && n < |states[0].live|
    requires forall i :: 0 <= i < |ops| ==> LeavesAlone(ops[i], n)
    ensures SameFile(states[0], states[|ops|], n)
    decreases |ops|
  {
    if ops == [] {
      MetadataElsewhere(states[0], states[0], n);
    } else {
      var k := |ops| - 1;
      RunPrefix(states, ops);
      FileKept(states[..k + 1], ops[..k], n);
      EveryRun(states[..k + 1], ops[..k]);
      StepLeaves(states[k], ops[k], states[k + 1], n);
    }
  }

  /** Data stays: what a request has written is still in the file after any run of requests
      that do not grow or write that file. */
  lemma WriteSurvives(s: State, states: seq<State>, ops: seq<FsOp>, n: nat, offset: nat, data: seq<byte>, p: nat)
    requires Ok(s) && n < |s.live| && MayWrite(s.live[n].blockNo, offset, |data|)
    requires Follows(states, ops) && Step(s, WriteData(n, offset, data), states[0])
    requires forall i :: 0 <= i < |ops| ==> LeavesAlone(ops[i], n)
    requires offset <= p < offset + |data|
    ensures n < |states[|ops|].live| && FileByte(states[|ops|].d, states[|ops|].live[n].blockNo, p, data[p - offset])
  {
    MayWriteAllocated(s, n, offset, |data|);
    SlotOf(s.live[n].blockNo, offset, |data|, p - offset);
    StepKeeps(s, WriteData(n, offset, data), states[0]);
    FileKept(states, ops, n);
    assert ByteAt(states[0].d, s.live[n].blockNo, p) == data[p - offset];
    assert states[0].live[n].blockNo[p / BLOCK_SIZE] != 0;
  }

  // ----- the code's runs are such runs

  /** One request. */
  method Serve(disk: Disk, op: FsOp, junk: seq<byte>, live: seq<Inode>, ghost saved: set<nat>)
    returns (r: int, live': seq<Inode>, ghost saved': set<nat>)
    requires disk.Valid() && |junk| == BLOCK_SIZE - 36
    requires Ok(State(disk.Now(), live, saved))
    modifies disk.blocks
    ensures Step(State(old(disk.Now()), live, saved), op, State(disk.Now(), live', saved'))
    ensures r == Reply(State(old(disk.Now()), live, saved), op)
  {
    live', saved', r := live, saved, 1;
    match op {
      case Create =>
        var ino;
        r, ino := AllocInode(disk, junk, |live|);
        if r == 0 {
          live' := live + [ino];
          assert live'[..|live|] == live;
        }
      case Grow(n) =>
        if n < |live| {
          r, live' := ServeGrow(disk, n, live, saved);
        }
      case Save(n, size) =>
        if n < |live| {
          var ino := live[n].(size := size);
          live', saved' := live[n := ino], saved + {n};
          WriteInode(disk, ino);
          r := 0;
        }
      case WriteData(n, offset, data) =>
        if n < |live| && MayWrite(live[n].blockNo, offset, |data|) {
          MayWriteAllocated(State(disk.Now(), live, saved), n, offset, |data|);
          var file := new OpenFile(offset);
          var ino;
          r, ino := WriteFile(disk, file, live[n], data);
        }
    }
  }

  method ServeGrow(disk: Disk, n: nat, live: seq<Inode>, ghost saved: set<nat>) returns (r: int, live': seq<Inode>)
    requires disk.Valid() && Ok(State(disk.Now(), live, saved)) && n < |live|
    modifies disk.blocks
    ensures Step(State(old(disk.Now()), live, saved), Grow(n), State(disk.Now(), live', saved))
    ensures r == Reply(State(old(disk.Now()), live, saved), Grow(n))
  {
    ghost var d := disk.Now();
    live', r := live, 1;
    var room := CheckRoom(disk);
    if room {
      FreshIffRoom(d);
      var ino;
      r, ino := AllocBlock(disk, live[n]);
      if r == 0 {
        live' := live[n := ino];
        assert live' == Given(live, n, FreeSlot(live[n].blockNo, 0), FirstClear(d[BITMAP], 0));
      }
    }
  }

  /** The test a caller can make before growing a file. */
  method CheckRoom(disk: Disk) returns (room: bool)
    requires disk.Valid() && BitmapOk(disk.Now())
    ensures room <==> HasRoom(disk.Now())
  {
    FreshIffRoom(disk.Now());
    var b := disk.ReadBlock(BITMAP);
    var behind: byte := *;
    var c := GetFreeBlock(b, behind);
    room := c <= FILE_SYS_BLOCKS;
  }

  /** results are what the requests of a run returned. */
  ghost predicate Replied(states: seq<State>, ops: seq<FsOp>, results: seq<int>) {
    |states| == |ops| + 1 && |results| == |ops| && forall i :: 0 <= i < |ops| ==> results[i] == Reply(states[i], ops[i])
  }

  lemma RepliedMore(states: seq<State>, ops: seq<FsOp>, results: seq<int>, op: FsOp, s': State)
    requires Replied(states, ops, results)
    ensures Replied(states + [s'], ops + [op], results + [Reply(states[|ops|], op)])
  {
  }

  /** One more request of a run. */
  method ServeNext(disk: Disk, op: FsOp, junk: seq<byte>, live: seq<Inode>, results: seq<int>,
                   ghost saved: set<nat>, ghost states: seq<State>, ghost ops: seq<FsOp>)
    returns (live': seq<Inode>, results': seq<int>, ghost saved': set<nat>, ghost states': seq<State>)
    requires disk.Valid() && |junk| == BLOCK_SIZE - 36
    requires Follows(states, ops) && Ok(states[0]) && Replied(states, ops, results)
    requires states[|ops|] == State(disk.Now(), live, saved)
    modifies disk.blocks
    ensures Follows(states', ops + [op]) && states'[0] == states[0] && Replied(states', ops + [op], results')
    ensures states'[|ops| + 1] == State(disk.Now(), live', saved')
  {
    EveryRun(states, ops);
    var r;
    r, live', saved' := Serve(disk, op, junk, live, saved);
    ghost var s := State(disk.Now(), live', saved');
    RunMore(states, ops, op, s);
    RepliedMore(states, ops, results, op, s);
    states', results' := states + [s], results + [r];
  }

  /** Formatting, then the requests ops; states is the run they make and results what they
      returned. */
  method Run(disk: Disk, junk: Junk, ops: seq<FsOp>) returns (live: seq<Inode>, results: seq<int>, ghost saved: set<nat>, ghost states: seq<State>)
    requires disk.Valid() && |junk.tail| == BLOCK_SIZE - 36 && |junk.inodeBlocks| == INODE_BLOCKS
    modifies disk.blocks
    ensures Follows(states, ops) && Fresh(states[0]) && states[|ops|] == State(disk.Now(), live, saved)
    ensures Replied(states, ops, results)
    ensures |live| == 3 + Creations(states, ops) <= INODES
  {
    var root, mypro, shell := InitFile(disk, junk);
    live, saved, results := [root, mypro, shell], {0, 1, 2}, [];
    states := [State(disk.Now(), live, saved)];
    ghost var done: seq<FsOp> := [];
    for i := 0 to |ops|
      invariant done == ops[..i] && Follows(states, done) && Fresh(states[0])
      invariant states[i] == State(disk.Now(), live, saved) && Replied(states, done, results)
    {
      live, results, saved, states := ServeNext(disk, ops[i], junk.tail, live, results, saved, states, done);
      done := done + [ops[i]];
    }
    EveryRun(states, ops);
  }

  // ----- a write behind the first block

  lemma LiveIsSane(d: Blocks, live: seq<Inode>, saved: set<nat>, n: nat)
    requires FsInv(d, live, saved) && n < |live|
    ensures Sane(d, live[n].blockNo) && Separate(live[n].blockNo)
  {
  }

  /** The first two steps of sys_creat on a freshly formatted disk: an inode with block 87. */
  method SmallFile(disk: Disk, junk: Junk) returns (ino: Inode)
    requires disk.Valid() && |junk.tail| == BLOCK_SIZE - 36 && |junk.inodeBlocks| == INODE_BLOCKS
    modifies disk.blocks
    ensures Sane(disk.Now(), ino.blockNo) && Separate(ino.blockNo) && BusyBelow(disk.Now(), 88)
    ensures ino.blockNo[0] == 87 && forall k :: 1 <= k < MAX_BLOCKS ==> ino.blockNo[k] == 0
    ensures SuperAt(disk.Now()[0]).freeBlock == 2 && SuperAt(disk.Now()[0]).freeOffset == 0
  {
    var root, mypro, shell := InitFile(disk, junk);
    ghost var live := [root, mypro, shell];
    ghost var d0 := disk.Now();
    var r;
    r, ino := AllocInode(disk, junk.tail, 3);
    ghost var d1, i1 := disk.Now(), ino;
    AllocatedInode(d0, d1, live, {0, 1, 2}, i1);
    FirstClearIs(d1[BITMAP], 87);
    assert HasRoom(d1) by { assert !Busy(d1[BITMAP], 87); }
    assert (live + [i1])[3] == i1;
    AllocatedBlock(d1, live + [i1], {0, 1, 2}, 3);
    HandedOutOk(d1);
    r, ino := AllocBlock(disk, ino);
    LiveIsSane(disk.Now(), Given(live + [i1], 3, 0, 87), {0, 1, 2}, 3);
  }

  /** The first byte of the superblock is the low byte of its first field. */
  lemma FirstByteOverwritten(b: Block, b': Block)
    requires SuperAt(b).freeBlock == 2 && b' == Splice(b, 0, [1])
    ensures SuperAt(b').freeBlock == 1 && SuperAt(b').freeOffset == SuperAt(b).freeOffset
  {
    var s, s' := Slice(b, 0, 36), Slice(b', 0, 36);
    DecodeAt(s, 0);
    DecodeAt(s', 0);
    DecodeAt(s, 1);
    DecodeAt(s', 1);
    assert s'[4..8] == s[4..8];
    FirstByteOfTwo(s[0..4], s'[0..4]);
  }

  lemma FirstByteOfTwo(s: seq<byte>, t: seq<byte>)
    requires |s| == 4 && |t| == 4 && Word4(s) == 2 && t[0] == 1 && t[1..] == s[1..]
    ensures Word4(t) == 1
  {
    assert t[1] == t[1..][0] && t[2] == t[1..][1] && t[3] == t[1..][2];
  }

  /** Writing 513 bytes of 1 into that file reports success. Afterwards byte 512 of the
      file is 0, the byte meant for it is the first byte of the superblock, and the free
      chain starts at the root directory's inode. */
  method WriteBehindFirstBlock(disk: Disk, junk: Junk) returns (r: int, ino': Inode)
    requires disk.Valid() && |junk.tail| == BLOCK_SIZE - 36 && |junk.inodeBlocks| == INODE_BLOCKS
    modifies disk.blocks
    ensures r == 0
    ensures FileByte(disk.Now(), ino'.blockNo, 511, 1) && FileByte(disk.Now(), ino'.blockNo, 512, 0)
    ensures SuperAt(disk.Now()[0]).freeBlock == PlaceBlock(0) && SuperAt(disk.Now()[0]).freeOffset == PlaceOffset(0)
  {
    var ino := SmallFile(disk, junk);
    ghost var d := disk.Now();
    var data := seq(513, _ => 1);
    var file := new OpenFile(0);
    assert LastSlot(0, 513) == 1 && Head(ino.blockNo, 0, 513) == 512;
    r, ino' := WriteFile(disk, file, ino, data);
    ghost var d' := disk.Now();
    HoleHead(d, d', ino, ino', 0, data, 512, 511);
    HoleTail(d, d', ino, ino', 0, data, 512, 512);
    TailInSuperblock(d, d', ino, ino', 0, data, 512);
    assert data[512..] == [1];
    FirstByteOverwritten(d[0], d'[0]);
  }
}
