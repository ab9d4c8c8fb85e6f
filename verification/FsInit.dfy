/** init_file: formatting the disk. */
module FsInit {
  import opened Bytes
  import opened Layout
  import opened BlockDevice
  import opened Inodes
  import opened Bitmap
  import opened FsInvariant
  import opened Strings
  import opened Directory

  const REGULAR_FILE: nat := 0
  const DIRECTORY_FILE: nat := 1
  const SUPER_BLOCK_SECTOR: nat := 300
  const SHELL_SECTOR: nat := 357
  const MYPRO_SECTOR: nat := 372
  const PROGRAM_BLOCKS: nat := 15     // SHELL_BLOCKS and MYPRO_BLOCKS

  /** Exactly the blocks below n are busy. */
  ghost predicate BusyBelow(d: Blocks, n: nat) {
    forall k: nat {:trigger Busy(d[BITMAP], k)} :: k < BITS ==> (Busy(d[BITMAP], k) <==> k < n)
  }

  /** The program's 15 blocks start at block b; its other slots are empty. */
  ghost predicate OnBlocks(i: Inode, b: nat) {
    forall a :: 0 <= a < MAX_BLOCKS ==> i.blockNo[a] == if a < PROGRAM_BLOCKS then b + a else 0
  }

  /** Of inode i only the mode and the slots have been set. */
  predicate ModeAndSlots(i: Inode, j: Inode) {
    j == i.(mode := j.mode, blockNo := j.blockNo) && j.mode / 0x1_0000 == i.mode / 0x1_0000
  }

  /** The assignment to the 16-bit mode field. */
  function SetMode(i: Inode, mode: nat): (r: Inode)
    requires mode < 0x1_0000
    ensures r == i.(mode := r.mode) && r.mode % 0x1_0000 == mode && r.mode / 0x1_0000 == i.mode / 0x1_0000
  {
    i.(mode := i.mode / 0x1_0000 * 0x1_0000 + mode)
  }

  /** init_dataBlockBit: all bits clear but those of the metadata blocks. */
  method InitDataBlockBit(disk: Disk)
    requires disk.Valid()
    modifies disk.blocks
    ensures BusyBelow(disk.Now(), FIRST_DATA)
    ensures forall b :: BITMAP < b < BITMAP + BITMAP_BLOCKS ==> disk.Now()[b] == ZeroBlock()
    ensures forall b :: 0 <= b < TOTAL_BLOCKS && !(BITMAP <= b < BITMAP + BITMAP_BLOCKS) ==> disk.Now()[b] == old(disk.Now())[b]
  {
    var arr := ZeroBlock();
    for i := 1 to BITMAP_BLOCKS + 1
      invariant forall b :: BITMAP < b < INODE_BLOCKS + i ==> disk.Now()[b] == ZeroBlock()
      invariant forall b :: 0 <= b < TOTAL_BLOCKS && !(BITMAP <= b < BITMAP + BITMAP_BLOCKS) ==> disk.Now()[b] == old(disk.Now())[b]
    {
      disk.WriteBlock(arr, INODE_BLOCKS + i);
    }
    var busyBlock := 1 + BITMAP_BLOCKS + INODE_BLOCKS;
    var byteNo, bit := busyBlock / 8, busyBlock % 8;
    for j := 0 to byteNo
      invariant forall k :: 0 <= k < BLOCK_SIZE ==> arr[k] == if k < j then 255 else 0
    {
      arr := arr[j := 255];
    }
    // 56 is a multiple of 8: no single bits are left to set in the next byte
    assert bit == 0;
    ByteWidth();
    disk.WriteBlock(arr, INODE_BLOCKS + 1);
    forall k: nat | k < BITS
      ensures Busy(arr, k) <==> k < FIRST_DATA
    {
      AllOnes(8, k % 8);
      ZeroBits(k % 8);
    }
  }

  /** Sets the mode of live inode n and writes it to disk. */
  method SaveAs(disk: Disk, ino: Inode, mode: nat, ghost live: seq<Inode>, ghost saved: set<nat>, ghost n: nat) returns (ino': Inode)
    requires disk.Valid() && FsInv(disk.Now(), live, saved) && n < |live| && live[n] == ino && mode < 0x1_0000
    modifies disk.blocks
    ensures ino' == SetMode(ino, mode) && FsInv(disk.Now(), live[n := ino'], saved + {n})
    ensures Nth(disk.Now(), n) == ino' && forall m: nat :: m < INODES && m != n ==> Nth(disk.Now(), m) == Nth(old(disk.Now()), m)
    ensures forall b :: 0 <= b < TOTAL_BLOCKS && !(1 <= b <= INODE_BLOCKS) ==> disk.Now()[b] == old(disk.Now())[b]
  {
    ghost var d := disk.Now();
    ino' := SetMode(ino, mode);
    FieldsChanged(d, live, saved, n, ino');
    InodeSaved(d, live[n := ino'], saved, n);
    InodeStoredAlone(d, ino', n, |live|);
    WriteInode(disk, ino');
  }

  /** The start of create_rootDir: an inode and its first block. */
  method AllocRoot(disk: Disk, junk: seq<byte>) returns (root: Inode)
    requires disk.Valid() && |junk| == BLOCK_SIZE - 36
    requires FsInv(disk.Now(), [], {}) && BusyBelow(disk.Now(), FIRST_DATA)
    modifies disk.blocks
    ensures FsInv(disk.Now(), [root], {}) && BusyBelow(disk.Now(), FIRST_DATA + 1) && disk.Now()[FIRST_DATA] == ZeroBlock()
    ensures root.blockNo[0] == FIRST_DATA && forall k :: 1 <= k < MAX_BLOCKS ==> root.blockNo[k] == 0
    ensures root == Nth(old(disk.Now()), 0).(blockNo := root.blockNo)
    ensures forall b :: 0 < b < TOTAL_BLOCKS && b != BITMAP && b != FIRST_DATA ==> disk.Now()[b] == old(disk.Now())[b]
  {
    ghost var d0 := disk.Now();
    var r;
    r, root := AllocInode(disk, junk, 0);
    ghost var d1, r1 := disk.Now(), root;
    AllocatedInode(d0, d1, [], {}, root);
    assert [] + [r1] == [r1];
    FirstClearIs(d1[BITMAP], FIRST_DATA);
    assert HasRoom(d1) by { assert !Busy(d1[BITMAP], FIRST_DATA); }
    AllocatedBlock(d1, [r1], {}, 0);
    HandedOutOk(d1);
    r, root := AllocBlock(disk, root);
    assert Given([r1], 0, FreeSlot(r1.blockNo, 0), FIRST_DATA) == [root];
  }

  lemma InodesStay(d: Blocks, d': Blocks)
    requires forall b :: 1 <= b <= INODE_BLOCKS ==> d'[b] == d[b]
    ensures forall m: nat :: m < INODES ==> Nth(d', m) == Nth(d, m)
  {
    forall m: nat | m < INODES
      ensures Nth(d', m) == Nth(d, m)
    {
      assert d'[PlaceBlock(m)] == d[PlaceBlock(m)];
    }
  }

  /** The superblock names inode 0 as the root directory. */
  predicate RootRecorded(d: Blocks) {
    SuperAt(d[0]).rootBlock == PlaceBlock(0) && SuperAt(d[0]).rootOffset == PlaceOffset(0)
  }

  /** create_rootDir: the first inode and the first data block go to the root directory. */
  method CreateRootDir(disk: Disk, junk: seq<byte>) returns (root: Inode)
    requires disk.Valid() && |junk| == BLOCK_SIZE - 36
    requires FsInv(disk.Now(), [], {}) && BusyBelow(disk.Now(), FIRST_DATA)
    modifies disk.blocks
    ensures FsInv(disk.Now(), [root], {0}) && BusyBelow(disk.Now(), FIRST_DATA + 1) && disk.Now()[FIRST_DATA] == ZeroBlock()
    ensures Nth(disk.Now(), 0) == root && root.size == 0 && root.mode % 0x1_0000 == DIRECTORY_FILE
    ensures ModeAndSlots(Nth(old(disk.Now()), 0).(size := 0), root)
    ensures forall m: nat :: 0 < m < INODES ==> Nth(disk.Now(), m) == Nth(old(disk.Now()), m)
    ensures forall b :: INODE_BLOCKS < b < TOTAL_BLOCKS && b != BITMAP && b != FIRST_DATA ==> disk.Now()[b] == old(disk.Now())[b]
    ensures root.blockNo[0] == FIRST_DATA && forall k :: 1 <= k < MAX_BLOCKS ==> root.blockNo[k] == 0
    ensures RootRecorded(disk.Now())
  {
    ghost var d0 := disk.Now();
    root := AllocRoot(disk, junk);
    InodesStay(d0, disk.Now());
    ghost var d2, r2 := disk.Now(), root;
    root := root.(size := 0);
    FieldsChanged(d2, [r2], {}, 0, root);
    ghost var r3 := root;
    assert [r2][0 := r3] == [r3];
    root := SaveAs(disk, root, DIRECTORY_FILE, [r3], {}, 0);
    assert [r3][0 := root] == [root] && {} + {0} == {0};
    ghost var d3 := disk.Now();
    RecordRoot(disk, root, junk, [root], {0});
    InodesStay(d3, disk.Now());
  }

  /** The end of create_rootDir: the superblock learns the root inode's place. */
  method RecordRoot(disk: Disk, root: Inode, junk: seq<byte>, ghost live: seq<Inode>, ghost saved: set<nat>)
    requires disk.Valid() && |junk| == BLOCK_SIZE - 36 && FsInv(disk.Now(), live, saved)
    modifies disk.blocks
    ensures FsInv(disk.Now(), live, saved)
    ensures SuperAt(disk.Now()[0]).rootBlock == root.myBlock && SuperAt(disk.Now()[0]).rootOffset == root.myOffset
    ensures disk.Now() == old(disk.Now())[0 := disk.Now()[0]]
  {
    ghost var d := disk.Now();
    var b := disk.ReadBlock(0);
    var sb := SuperAt(b);
    WriteSuper(disk, sb.(rootOffset := root.myOffset, rootBlock := root.myBlock), junk);
    ghost var d' := disk.Now();
    FreeFromKept(d, d', |live|);
    assert FreeFrom(d', |live|);
    forall n | n in saved
      ensures SavedOk(d', live, n)
    {
      assert SavedOk(d, live, n) && d'[PlaceBlock(n)] == d[PlaceBlock(n)];
    }
  }

  /** getRootDirInode */
  method GetRootDirInode(disk: Disk) returns (root: Inode)
    requires disk.Valid() && RootRecorded(disk.Now())
    ensures root == Nth(disk.Now(), 0)
  {
    var b := disk.ReadBlock(0);
    var sb := SuperAt(b);
    var block := disk.ReadBlock(sb.rootBlock);
    root := InodeAt(block, sb.rootOffset);
  }

  // ----- init_userpro

  /** All blocks behind the inodes but the bitmap are the same. */
  ghost predicate DataKept(d: Blocks, d': Blocks) {
    forall b :: INODE_BLOCKS < b < TOTAL_BLOCKS && b != BITMAP ==> d'[b] == d[b]
  }

  /** One round of the loops in init_userpro: a program block goes into slot a and is marked. */
  method TakeBlock(disk: Disk, ino: Inode, a: nat, c: nat, ghost live: seq<Inode>, ghost saved: set<nat>, ghost n: nat) returns (ino': Inode)
    requires disk.Valid() && FsInv(disk.Now(), live, saved) && n < |live| && live[n] == ino
    requires a < MAX_BLOCKS && ino.blockNo[a] == 0
    requires BusyBelow(disk.Now(), c) && FIRST_DATA <= c <= FILE_SYS_BLOCKS
    modifies disk.blocks
    ensures ino' == ino.(blockNo := ino.blockNo[a := c])
    ensures FsInv(disk.Now(), live[n := ino'], saved) && BusyBelow(disk.Now(), c + 1)
    ensures forall b :: 0 <= b < TOTAL_BLOCKS && b != BITMAP ==> disk.Now()[b] == old(disk.Now())[b]
  {
    ghost var d := disk.Now();
    assert !Busy(d[BITMAP], c);
    ino' := ino.(blockNo := ino.blockNo[a := c]);
    var r := UpdateDataBlockBit(disk, c, BLOCK_BUSY);
    ghost var d' := disk.Now();
    forall m: nat {:trigger Busy(d'[BITMAP], m)} | m < BITS
      ensures Busy(d'[BITMAP], m) <==> m == c || Busy(d[BITMAP], m)
    {
      MarkedAlone(d[BITMAP], c, m);
    }
    BlockGiven(d, d', live, saved, n, a, c);
  }

  /** A program file on consecutive blocks. */
  method TakeBlocks(disk: Disk, ino: Inode, sector: nat, ghost live: seq<Inode>, ghost saved: set<nat>, ghost n: nat) returns (ino': Inode)
    requires disk.Valid() && FsInv(disk.Now(), live, saved) && n < |live| && live[n] == ino
    requires forall a :: 0 <= a < MAX_BLOCKS ==> ino.blockNo[a] == 0
    requires SHELL_SECTOR <= sector <= MYPRO_SECTOR && BusyBelow(disk.Now(), sector - SUPER_BLOCK_SECTOR)
    modifies disk.blocks
    ensures ino' == ino.(blockNo := ino'.blockNo)
    ensures OnBlocks(ino', sector - SUPER_BLOCK_SECTOR)
    ensures FsInv(disk.Now(), live[n := ino'], saved) && BusyBelow(disk.Now(), sector - SUPER_BLOCK_SECTOR + PROGRAM_BLOCKS)
    ensures forall b :: 0 <= b < TOTAL_BLOCKS && b != BITMAP ==> disk.Now()[b] == old(disk.Now())[b]
  {
    ino' := ino;
    assert live[n := ino'] == live;
    for i := 0 to PROGRAM_BLOCKS
      invariant ino' == ino.(blockNo := ino'.blockNo)
      invariant forall a :: 0 <= a < MAX_BLOCKS ==> ino'.blockNo[a] == if a < i then sector - SUPER_BLOCK_SECTOR + a else 0
      invariant FsInv(disk.Now(), live[n := ino'], saved) && BusyBelow(disk.Now(), sector - SUPER_BLOCK_SECTOR + i)
      invariant forall b :: 0 <= b < TOTAL_BLOCKS && b != BITMAP ==> disk.Now()[b] == old(disk.Now())[b]
    {
      ghost var l := live[n := ino'];
      ino' := TakeBlock(disk, ino', i, sector - SUPER_BLOCK_SECTOR + i, l, saved, n);
      assert l[n := ino'] == live[n := ino'];
    }
  }

  const SHELL_PATH: seq<byte> := [47, 115, 104, 101, 108, 108, 0]   // "/shell"
  const MYPRO_PATH: seq<byte> := [47, 109, 121, 112, 114, 111, 0]   // "/mypro"

  /** An entry in the root directory, whose size is then updated and which is saved. */
  method AddToRoot(disk: Disk, root: Inode, path: seq<byte>, ino: Inode, ghost live: seq<Inode>, ghost saved: set<nat>) returns (root': Inode)
    requires disk.Valid() && FsInv(disk.Now(), live, saved) && |live| > 0 && live[0] == root
    requires |path| == 7 && Terminated(path, 0) && root.size <= 28 && root.blockNo[0] == FIRST_DATA
    modifies disk.blocks
    ensures root' == root.(size := root.size + DIR_ITEM_SIZE)
    ensures FsInv(disk.Now(), live[0 := root'], saved + {0}) && Nth(disk.Now(), 0) == root'
    ensures disk.Now()[BITMAP] == old(disk.Now())[BITMAP] && disk.Now()[0] == old(disk.Now())[0]
    ensures |NameIn(path)| <= NAME_MAX
    ensures forall b :: 1 < b < TOTAL_BLOCKS && b != FIRST_DATA ==> disk.Now()[b] == old(disk.Now())[b]
    ensures disk.Now()[FIRST_DATA] == WithEntry(old(disk.Now())[FIRST_DATA], root.size, NameIn(path), ino.myBlock, ino.myOffset)
    ensures forall m: nat :: 0 < m < INODES ==> Nth(disk.Now(), m) == Nth(old(disk.Now()), m)
  {
    RootItem(disk, root, path, ino, live, saved);
    ghost var d := disk.Now();
    root' := root.(size := root.size + DIR_ITEM_SIZE);
    FieldsChanged(d, live, saved, 0, root');
    InodeSaved(d, live[0 := root'], saved, 0);
    InodeStoredAlone(d, root', 0, |live|);
    WriteInode(disk, root');
  }

  /** writeDirectory on the root directory while it has one block. */
  method RootItem(disk: Disk, root: Inode, path: seq<byte>, ino: Inode, ghost live: seq<Inode>, ghost saved: set<nat>)
    requires disk.Valid() && FsInv(disk.Now(), live, saved) && |live| > 0 && live[0] == root
    requires |path| == 7 && Terminated(path, 0) && root.size <= 28 && root.blockNo[0] == FIRST_DATA
    modifies disk.blocks
    ensures FsInv(disk.Now(), live, saved) && |NameIn(path)| <= NAME_MAX
    ensures disk.Now() == old(disk.Now())[FIRST_DATA := WithEntry(old(disk.Now())[FIRST_DATA], root.size, NameIn(path), ino.myBlock, ino.myOffset)]
    ensures forall m: nat :: m < INODES ==> Nth(disk.Now(), m) == Nth(old(disk.Now()), m)
  {
    ghost var d := disk.Now();
    SlotsOnDisk(d, live, saved, 0);
    var root' := WriteDirectory(disk, root, path, ino);
    assert root' == root;
    DataChange(d, disk.Now(), live, saved);
    SameInodesKeep(d, disk.Now(), |live|);
  }

  lemma SlotsOnDisk(d: Blocks, live: seq<Inode>, saved: set<nat>, n: nat)
    requires FsInv(d, live, saved) && n < |live|
    ensures forall k :: 0 <= k < MAX_BLOCKS ==> live[n].blockNo[k] < TOTAL_BLOCKS
  {
    forall k: nat | k < MAX_BLOCKS
      ensures live[n].blockNo[k] < TOTAL_BLOCKS
    {
      if live[n].blockNo[k] != 0 {
        assert live[n].blockNo[k] <= FILE_SYS_BLOCKS;
      }
    }
  }

  /** Another inode without blocks. */
  method NextInode(disk: Disk, junk: seq<byte>, ghost live: seq<Inode>, ghost saved: set<nat>) returns (ino: Inode)
    requires disk.Valid() && |junk| == BLOCK_SIZE - 36 && FsInv(disk.Now(), live, saved) && |live| < INODES
    modifies disk.blocks
    ensures FsInv(disk.Now(), live + [ino], saved) && ino.blockNo == seq(MAX_BLOCKS, _ => 0)
    ensures ino == Nth(old(disk.Now()), |live|).(blockNo := ino.blockNo)
    ensures forall b :: 0 < b < TOTAL_BLOCKS ==> disk.Now()[b] == old(disk.Now())[b]
    ensures SuperAt(disk.Now()[0]).rootBlock == SuperAt(old(disk.Now())[0]).rootBlock
    ensures SuperAt(disk.Now()[0]).rootOffset == SuperAt(old(disk.Now())[0]).rootOffset
  {
    ghost var d := disk.Now();
    var r;
    r, ino := AllocInode(disk, junk, |live|);
    AllocatedInode(d, disk.Now(), live, saved, ino);
  }

  const SHELL_NAME: seq<byte> := [115, 104, 101, 108, 108, 0]
  const MYPRO_NAME: seq<byte> := [109, 121, 112, 114, 111, 0]

  /** A path of one component: its name is everything behind the leading separator. */
  lemma OneComponent(path: seq<byte>)
    requires |path| > 1 && path[0] == SLASH && path[|path| - 1] == 0
    requires forall k :: 1 <= k < |path| - 1 ==> path[k] != SLASH && path[k] != 0
    ensures Terminated(path, 0) && End(path, 0) == |path| - 1 && NameIn(path) == path[1..]
  {
    EndsThere(path, |path| - 1);
    NameFrom(path, 1);
    assert path[1..|path|] == path[1..];
  }

  lemma NameFrom(path: seq<byte>, p: nat)
    requires Terminated(path, 0) && 0 < p <= End(path, 0) && path[p - 1] == SLASH
    requires forall k :: p <= k < End(path, 0) ==> path[k] != SLASH
    ensures NameIn(path) == path[p..End(path, 0) + 1]
  {
    NamePosUnique(path, End(path, 0), SLASH, p);
  }

  lemma EndsThere(s: seq<byte>, e: nat)
    requires e < |s| && s[e] == 0 && forall k :: 0 <= k < e ==> s[k] != 0
    ensures Terminated(s, 0) && End(s, 0) == e
  {
    var x := End(s, 0);
    assert !(x < e) && !(e < x);
  }

  lemma ProgramNames()
    ensures Terminated(SHELL_PATH, 0) && NameIn(SHELL_PATH) == SHELL_NAME
    ensures Terminated(MYPRO_PATH, 0) && NameIn(MYPRO_PATH) == MYPRO_NAME
  {
    OneComponent(SHELL_PATH);
    OneComponent(MYPRO_PATH);
    assert SHELL_PATH[1..] == SHELL_NAME && MYPRO_PATH[1..] == MYPRO_NAME;
  }

  /** The root directory's block with its two items: shell is inode 2, mypro inode 1. */
  function TwoEntries(b: Block): Block {
    WithEntry(WithEntry(b, 0, SHELL_NAME, PlaceBlock(2), PlaceOffset(2)), DIR_ITEM_SIZE, MYPRO_NAME, PlaceBlock(1), PlaceOffset(1))
  }

  /** init_userpro: inodes, blocks and directory entries for the two programs that are on
      the disk already. */
  method InitUserpro(disk: Disk, junk: seq<byte>, ghost root0: Inode) returns (root: Inode, mypro: Inode, shell: Inode)
    requires disk.Valid() && |junk| == BLOCK_SIZE - 36
    requires FsInv(disk.Now(), [root0], {0}) && BusyBelow(disk.Now(), FIRST_DATA + 1)
    requires Nth(disk.Now(), 0) == root0 && root0.size == 0 && root0.blockNo[0] == FIRST_DATA
    requires RootRecorded(disk.Now())
    modifies disk.blocks
    ensures FsInv(disk.Now(), [root, mypro, shell], {0, 1, 2}) && BusyBelow(disk.Now(), 87)
    ensures root == root0.(size := 56)
    ensures Nth(disk.Now(), 0) == root && Nth(disk.Now(), 1) == mypro && Nth(disk.Now(), 2) == shell
    ensures disk.Now()[FIRST_DATA] == TwoEntries(old(disk.Now())[FIRST_DATA])
    ensures forall b :: INODE_BLOCKS < b < TOTAL_BLOCKS && b != BITMAP && b != FIRST_DATA ==> disk.Now()[b] == old(disk.Now())[b]
    ensures RootRecorded(disk.Now())
    ensures OnBlocks(shell, 57) && OnBlocks(mypro, 72)
    ensures shell.mode % 0x1_0000 == REGULAR_FILE && mypro.mode % 0x1_0000 == REGULAR_FILE
    ensures ModeAndSlots(Nth(old(disk.Now()), 1), mypro) && ModeAndSlots(Nth(old(disk.Now()), 2), shell)
  {
    mypro, shell := TwoPrograms(disk, junk, root0);
    root := GetRootDirInode(disk);
    root := BothItems(disk, root, mypro, shell);
  }

  /** The two directory entries of init_userpro. */
  method BothItems(disk: Disk, root0: Inode, mypro: Inode, shell: Inode) returns (root: Inode)
    requires disk.Valid() && FsInv(disk.Now(), [root0, mypro, shell], {0, 1, 2})
    requires root0.size == 0 && root0.blockNo[0] == FIRST_DATA
    modifies disk.blocks
    ensures FsInv(disk.Now(), [root, mypro, shell], {0, 1, 2}) && root == root0.(size := 56)
    ensures disk.Now()[0] == old(disk.Now())[0]
    ensures forall b :: 1 < b < TOTAL_BLOCKS && b != FIRST_DATA ==> disk.Now()[b] == old(disk.Now())[b]
    ensures Nth(disk.Now(), 0) == root && forall m: nat :: 0 < m < INODES ==> Nth(disk.Now(), m) == Nth(old(disk.Now()), m)
    ensures disk.Now()[FIRST_DATA] == TwoEntries(old(disk.Now())[FIRST_DATA])
  {
    ProgramNames();
    ghost var live := [root0, mypro, shell];
    assert live[1].myBlock == PlaceBlock(1) && live[2].myBlock == PlaceBlock(2);
    var r1 := AddToRoot(disk, root0, SHELL_PATH, shell, live, {0, 1, 2});
    assert live[0 := r1] == [r1, mypro, shell] && {0, 1, 2} + {0} == {0, 1, 2};
    root := AddToRoot(disk, r1, MYPRO_PATH, mypro, [r1, mypro, shell], {0, 1, 2});
    assert [r1, mypro, shell][0 := root] == [root, mypro, shell];
  }

  /** init_userpro up to the directory entries. */
  method TwoPrograms(disk: Disk, junk: seq<byte>, ghost root0: Inode) returns (mypro: Inode, shell: Inode)
    requires disk.Valid() && |junk| == BLOCK_SIZE - 36
    requires FsInv(disk.Now(), [root0], {0}) && BusyBelow(disk.Now(), FIRST_DATA + 1) && Nth(disk.Now(), 0) == root0
    modifies disk.blocks
    ensures FsInv(disk.Now(), [root0, mypro, shell], {0, 1, 2}) && BusyBelow(disk.Now(), 87)
    ensures Nth(disk.Now(), 0) == root0 && Nth(disk.Now(), 1) == mypro && Nth(disk.Now(), 2) == shell
    ensures DataKept(old(disk.Now()), disk.Now())
    ensures SuperAt(disk.Now()[0]).rootBlock == SuperAt(old(disk.Now())[0]).rootBlock
    ensures SuperAt(disk.Now()[0]).rootOffset == SuperAt(old(disk.Now())[0]).rootOffset
    ensures OnBlocks(shell, 57) && OnBlocks(mypro, 72)
    ensures shell.mode % 0x1_0000 == REGULAR_FILE && mypro.mode % 0x1_0000 == REGULAR_FILE
    ensures ModeAndSlots(Nth(old(disk.Now()), 1), mypro) && ModeAndSlots(Nth(old(disk.Now()), 2), shell)
  {
    mypro, shell := TwoInodes(disk, junk, root0);
    mypro, shell := ProgramBlocks(disk, mypro, shell, root0);
    assert disk.Now()[PlaceBlock(0)] == old(disk.Now())[PlaceBlock(0)];
    mypro, shell := SaveBoth(disk, mypro, shell, root0);
  }

  method SaveBoth(disk: Disk, p1: Inode, s1: Inode, ghost root0: Inode) returns (mypro: Inode, shell: Inode)
    requires disk.Valid() && FsInv(disk.Now(), [root0, p1, s1], {0})
    modifies disk.blocks
    ensures mypro == SetMode(p1, REGULAR_FILE) && shell == SetMode(s1, REGULAR_FILE)
    ensures FsInv(disk.Now(), [root0, mypro, shell], {0, 1, 2})
    ensures Nth(disk.Now(), 0) == Nth(old(disk.Now()), 0) && Nth(disk.Now(), 1) == mypro && Nth(disk.Now(), 2) == shell
    ensures forall b :: 0 <= b < TOTAL_BLOCKS && !(1 <= b <= INODE_BLOCKS) ==> disk.Now()[b] == old(disk.Now())[b]
  {
    shell := SaveAs(disk, s1, REGULAR_FILE, [root0, p1, s1], {0}, 2);
    assert [root0, p1, s1][2 := shell] == [root0, p1, shell];
    mypro := SaveAs(disk, p1, REGULAR_FILE, [root0, p1, shell], {0} + {2}, 1);
    assert [root0, p1, shell][1 := mypro] == [root0, mypro, shell] && {0} + {2} + {1} == {0, 1, 2};
  }

  method TwoInodes(disk: Disk, junk: seq<byte>, ghost root0: Inode) returns (mypro: Inode, shell: Inode)
    requires disk.Valid() && |junk| == BLOCK_SIZE - 36 && FsInv(disk.Now(), [root0], {0})
    modifies disk.blocks
    ensures FsInv(disk.Now(), [root0, mypro, shell], {0})
    ensures mypro.blockNo == seq(MAX_BLOCKS, _ => 0) && shell.blockNo == seq(MAX_BLOCKS, _ => 0)
    ensures mypro == Nth(old(disk.Now()), 1).(blockNo := mypro.blockNo) && shell == Nth(old(disk.Now()), 2).(blockNo := shell.blockNo)
    ensures forall b :: 0 < b < TOTAL_BLOCKS ==> disk.Now()[b] == old(disk.Now())[b]
    ensures SuperAt(disk.Now()[0]).rootBlock == SuperAt(old(disk.Now())[0]).rootBlock
    ensures SuperAt(disk.Now()[0]).rootOffset == SuperAt(old(disk.Now())[0]).rootOffset
  {
    mypro := NextInode(disk, junk, [root0], {0});
    assert [root0] + [mypro] == [root0, mypro];
    InodesStay(old(disk.Now()), disk.Now());
    shell := NextInode(disk, junk, [root0, mypro], {0});
    assert [root0, mypro] + [shell] == [root0, mypro, shell];
  }

  method ProgramBlocks(disk: Disk, p0: Inode, s0: Inode, ghost root0: Inode) returns (mypro: Inode, shell: Inode)
    requires disk.Valid() && FsInv(disk.Now(), [root0, p0, s0], {0}) && BusyBelow(disk.Now(), FIRST_DATA + 1)
    requires p0.blockNo == seq(MAX_BLOCKS, _ => 0) && s0.blockNo == seq(MAX_BLOCKS, _ => 0)
    modifies disk.blocks
    ensures FsInv(disk.Now(), [root0, mypro, shell], {0}) && BusyBelow(disk.Now(), 87)
    ensures forall b :: 0 <= b < TOTAL_BLOCKS && b != BITMAP ==> disk.Now()[b] == old(disk.Now())[b]
    ensures OnBlocks(shell, 57) && OnBlocks(mypro, 72)
    ensures mypro == p0.(blockNo := mypro.blockNo) && shell == s0.(blockNo := shell.blockNo)
  {
    shell := TakeBlocks(disk, s0, SHELL_SECTOR, [root0, p0, s0], {0}, 2);
    assert [root0, p0, s0][2 := shell] == [root0, p0, shell];
    mypro := TakeBlocks(disk, p0, MYPRO_SECTOR, [root0, p0, shell], {0}, 1);
    assert [root0, p0, shell][1 := mypro] == [root0, mypro, shell];
  }

  /** What the uninitialised buffers on the stack held. */
  datatype Junk = Junk(tail: seq<byte>, inodeBlocks: seq<Block>, rootBlock: uint32, rootOffset: uint32)

  /** init_file: afterwards exactly blocks 0 to 86 are busy, and the three inodes in use
      are the root directory with block 56, mypro with 72 to 86 and shell with 57 to 71. */
  method InitFile(disk: Disk, junk: Junk) returns (root: Inode, mypro: Inode, shell: Inode)
    requires disk.Valid() && |junk.tail| == BLOCK_SIZE - 36 && |junk.inodeBlocks| == INODE_BLOCKS
    modifies disk.blocks
    ensures FsInv(disk.Now(), [root, mypro, shell], {0, 1, 2}) && BusyBelow(disk.Now(), 87)
    ensures root.size == 56 && root.blockNo[0] == 56 && forall a :: 1 <= a < MAX_BLOCKS ==> root.blockNo[a] == 0
    ensures OnBlocks(shell, 57) && OnBlocks(mypro, 72)
    ensures Nth(disk.Now(), 0) == root && Nth(disk.Now(), 1) == mypro && Nth(disk.Now(), 2) == shell
    ensures disk.Now()[FIRST_DATA] == TwoEntries(ZeroBlock()) && RootRecorded(disk.Now())
    ensures forall b :: FIRST_DATA < b < TOTAL_BLOCKS ==> disk.Now()[b] == old(disk.Now())[b]
  {
    InitSuperBlock(disk, junk.rootBlock, junk.rootOffset, junk.tail);
    InitInodeList(disk, junk.inodeBlocks);
    ghost var d1 := disk.Now();
    InitDataBlockBit(disk);
    FreeFromKept(d1, disk.Now(), 0);
    assert FreeFrom(disk.Now(), 0);
    Formatted(disk.Now());
    root := CreateRootDir(disk, junk.tail);
    root, mypro, shell := InitUserpro(disk, junk.tail, root);
  }

  lemma Formatted(d: Blocks)
    requires BusyBelow(d, FIRST_DATA) && FreeFrom(d, 0) && BitmapListed(SuperAt(d[0]))
    ensures FsInv(d, [], {})
  {
  }

  // ----- the programs can be found

  /** The 28 bytes of the first item. */
  lemma ShellBytes(e: Block)
    requires e == WithEntry(ZeroBlock(), 0, SHELL_NAME, PlaceBlock(2), PlaceOffset(2))
    ensures forall k :: 0 <= k < DIR_ITEM_SIZE ==> e[k] != MYPRO_NAME[0]
  {
    var ws: seq<uint32> := [PlaceBlock(2), PlaceOffset(2)];
    PlaceBytes();
    assert forall k :: 0 <= k < DIR_ITEM_SIZE ==> e[k] == if k < 6 then SHELL_NAME[k] else if k < NAME_MAX then 0 else Encode(ws)[k - NAME_MAX];
  }

  /** Up to the second item the block holds no byte 'm'. */
  lemma ShellItem(b: Block)
    requires b == TwoEntries(ZeroBlock())
    ensures EntryAt(b, 0) == [PlaceBlock(2), PlaceOffset(2)] && b[0..6] == SHELL_NAME
    ensures forall k :: 0 <= k < DIR_ITEM_SIZE ==> b[k] != MYPRO_NAME[0]
  {
    var e := WithEntry(ZeroBlock(), 0, SHELL_NAME, PlaceBlock(2), PlaceOffset(2));
    EntryWritten(ZeroBlock(), 0, SHELL_NAME, PlaceBlock(2), PlaceOffset(2));
    EntryWritten(e, DIR_ITEM_SIZE, MYPRO_NAME, PlaceBlock(1), PlaceOffset(1));
    ShellBytes(e);
    FirstBytesSame(b, e);
  }

  lemma FirstBytesSame(b: Block, e: Block)
    requires forall k :: 0 <= k < DIR_ITEM_SIZE ==> b[k] == e[k]
    ensures EntryAt(b, 0) == EntryAt(e, 0) && b[0..6] == e[0..6]
  {
    assert Slice(b, NAME_MAX, 8) == Slice(e, NAME_MAX, 8);
  }

  lemma PlaceBytes()
    ensures Encode([PlaceBlock(2), PlaceOffset(2)]) == [1, 0, 0, 0, 232, 0, 0, 0]
  {
    var ws: seq<uint32> := [1, 232];
    assert ws[1..] == [232] && ws[1..][1..] == [];
    assert Encode(ws) == Bytes4(1) + (Bytes4(232) + []);
  }

  lemma MyproItem(b: Block)
    requires b == TwoEntries(ZeroBlock())
    ensures EntryAt(b, DIR_ITEM_SIZE) == [PlaceBlock(1), PlaceOffset(1)] && b[DIR_ITEM_SIZE..DIR_ITEM_SIZE + 6] == MYPRO_NAME
  {
    EntryWritten(WithEntry(ZeroBlock(), 0, SHELL_NAME, PlaceBlock(2), PlaceOffset(2)), DIR_ITEM_SIZE, MYPRO_NAME, PlaceBlock(1), PlaceOffset(1));
  }

  /** On a freshly formatted disk the two program names lead to the two program inodes. */
  method InitThenLookup(disk: Disk, junk: Junk, tail: seq<byte>) returns (shell: Inode, mypro: Inode, s: Seek, m: Seek)
    requires disk.Valid() && |junk.tail| == BLOCK_SIZE - 36 && |junk.inodeBlocks| == INODE_BLOCKS && |tail| >= NAME_MAX
    modifies disk.blocks
    ensures s == Loaded(shell) && m == Loaded(mypro)
    ensures OnBlocks(shell, 57) && OnBlocks(mypro, 72)
  {
    var root;
    root, mypro, shell := InitFile(disk, junk);
    ProgramNames();
    s := Lookup(disk, root, SHELL_PATH, tail);
    m := Lookup(disk, root, MYPRO_PATH, tail);
    ProgramsFound(disk.Now(), root, tail);
  }

  lemma ProgramsFound(d: Blocks, root: Inode, tail: seq<byte>)
    requires root.size == 56 && root.blockNo[0] == FIRST_DATA && forall a :: 1 <= a < MAX_BLOCKS ==> root.blockNo[a] == 0
    requires d[FIRST_DATA] == TwoEntries(ZeroBlock()) && |tail| >= NAME_MAX
    requires Terminated(SHELL_NAME, 0) && Terminated(MYPRO_NAME, 0) && End(SHELL_NAME, 0) == 5 && End(MYPRO_NAME, 0) == 5
    ensures FirstAt(d, root, SHELL_NAME, tail, 0, 0) && Item(d, d[root.blockNo[0]], 0) == Loaded(Nth(d, 2))
    ensures FirstAt(d, root, MYPRO_NAME, tail, 0, DIR_ITEM_SIZE) && Item(d, d[root.blockNo[0]], DIR_ITEM_SIZE) == Loaded(Nth(d, 1))
  {
    var b := d[FIRST_DATA];
    ShellItem(b);
    MyproItem(b);
    EntryOccurs(b, 0, SHELL_NAME, tail);
    EntryOccurs(b, DIR_ITEM_SIZE, MYPRO_NAME, tail);
  }
}
