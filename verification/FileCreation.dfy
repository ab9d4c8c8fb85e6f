/** sys_creat of syscall.c for files in the root directory, up to the opening of the file. */
module FileCreation {
  import opened Bytes
  import opened Layout
  import opened BlockDevice
  import opened Inodes
  import opened Bitmap
  import opened FsInvariant
  import opened Strings
  import opened Directory
  import opened FsInit

  function With(saved: set<nat>, n: nat): set<nat> { saved + {n} }

  /** A path whose only separator comes first, with a name that fits an item. */
  predicate InRoot(path: seq<byte>) {
    && Terminated(path, 0) && End(path, 0) < 100 && path[0] == SLASH && SLASH !in path[1..End(path, 0)]
    && 1 < |NameIn(path)| <= NAME_MAX
  }

  /** The root directory as it is on disk has room for an item in its first block. */
  ghost predicate RootOpen(d: Blocks, live: seq<Inode>, saved: set<nat>) {
    && FsInv(d, live, saved) && 0 in saved && RootRecorded(d)
    && Nth(d, 0).blockNo[0] != 0 && Nth(d, 0).size + DIR_ITEM_SIZE <= BLOCK_SIZE
  }

  /** The block in the root directory's first slot. */
  function RootBlock(d: Blocks): uint32 { Nth(d, 0).blockNo[0] }

  lemma RootSlots(d: Blocks, live: seq<Inode>, saved: set<nat>)
    requires FsInv(d, live, saved) && 0 in saved
    ensures forall a :: 0 <= a < MAX_BLOCKS ==> Nth(d, 0).blockNo[a] < TOTAL_BLOCKS
    ensures RootBlock(d) != 0 ==> FIRST_DATA <= RootBlock(d) <= FILE_SYS_BLOCKS && Busy(d[BITMAP], RootBlock(d))
  {
    forall a: nat | a < MAX_BLOCKS && Nth(d, 0).blockNo[a] != 0
      ensures FIRST_DATA <= Nth(d, 0).blockNo[a] <= FILE_SYS_BLOCKS && Busy(d[BITMAP], Nth(d, 0).blockNo[a])
    {
      SavedBlocks(d, live, saved, 0, a);
    }
  }

  /** The item that leads from the path's name to inode k. */
  function ItemFor(path: seq<byte>, k: nat): ShortItem
    requires InRoot(path) && k < INODES
  {
    DirItem(NameIn(path), PlaceBlock(k), PlaceOffset(k))
  }

  // ----- one creation

  /** Block c is the file's only one. */
  ghost predicate OneBlock(ino: Inode, c: nat) {
    forall a :: 0 <= a < MAX_BLOCKS ==> ino.blockNo[a] == if a == 0 then c else 0
  }

  /** What the first two calls leave: inode k is handed out and has the first clear block. */
  ghost predicate HandedFile(d: Blocks, d': Blocks, k: nat, ino: Inode) {
    var c := FirstClear(d[BITMAP], 0);
    && k < INODES && ino == Nth(d, k).(blockNo := ino.blockNo) && ino.myBlock == PlaceBlock(k) && ino.myOffset == PlaceOffset(k)
    && FIRST_DATA <= c <= FILE_SYS_BLOCKS + 1 && !Busy(d[BITMAP], c)
    && OneBlock(ino, c) && d'[c] == ZeroBlock()
    && BitmapOk(d') && (RootRecorded(d) ==> RootRecorded(d'))
    && forall b :: 0 < b < TOTAL_BLOCKS && b != c && b != BITMAP ==> d'[b] == d[b]
  }

  /** The start of sys_creat: an inode, and a block for it. */
  method NewFile(disk: Disk, junk: seq<byte>, ghost live: seq<Inode>, ghost saved: set<nat>) returns (r: int, ino: Inode)
    requires disk.Valid() && |junk| == BLOCK_SIZE - 36 && FsInv(disk.Now(), live, saved)
    modifies disk.blocks
    ensures |live| == INODES ==> r == -1 && disk.Now() == old(disk.Now())
    ensures |live| < INODES ==> r == 0 && HandedFile(old(disk.Now()), disk.Now(), |live|, ino)
    ensures |live| < INODES && HasRoom(old(disk.Now())) ==>
              FsInv(disk.Now(), live + [ino], saved) && BitAdded(old(disk.Now()), disk.Now(), FirstClear(old(disk.Now())[BITMAP], 0))
  {
    ghost var d0 := disk.Now();
    r, ino := AllocInode(disk, junk, |live|);
    if r == -1 {
      return;
    }
    ghost var d1, ino1 := disk.Now(), ino;
    AllocatedInode(d0, d1, live, saved, ino);
    assert d1[BITMAP] == d0[BITMAP];
    HandedOutOk(d1);
    FreshIffRoom(d1);
    if HasRoom(d1) {
      AllocatedBlock(d1, live + [ino1], saved, |live|);
    }
    r, ino := AllocBlock(disk, ino);
    assert Given(live + [ino1], |live|, 0, FirstClear(d1[BITMAP], 0)) == live + [ino];
  }

  /** What sys_creat leaves on the disk: inode k at its place, in which only the mode and
      the slots are other than what the disk held; its item where the root
      directory's size says, which stays as it was on disk; the file's block is
      empty, and besides superblock and bitmap nothing else has changed. */
  ghost predicate Created(d: Blocks, d': Blocks, k: nat, ino: Inode, path: seq<byte>)
    requires InRoot(path) && Nth(d, 0).size + DIR_ITEM_SIZE <= BLOCK_SIZE && RootBlock(d) < TOTAL_BLOCKS
  {
    && 0 < k < INODES && Nth(d', k) == ino && ino == Nth(d, k).(mode := ino.mode, blockNo := ino.blockNo)
    && (forall m: nat :: m < INODES && m != k ==> Nth(d', m) == Nth(d, m))
    && d'[RootBlock(d)] == WithItem(d[RootBlock(d)], Nth(d, 0).size, ItemFor(path, k))
    && RootRecorded(d')
    && var c := FirstClear(d[BITMAP], 0);
    && c < TOTAL_BLOCKS && d'[c] == ZeroBlock()
    && forall b :: 0 < b < TOTAL_BLOCKS && b !in {c, BITMAP, PlaceBlock(k), RootBlock(d)} ==> d'[b] == d[b]
  }

  /** seekBaseDirectory: nothing is left of the path before its last separator, so the base
      directory is the root. */
  method SeekBaseDirectory(disk: Disk, path: seq<byte>) returns (base: Inode)
    requires disk.Valid() && RootRecorded(disk.Now()) && InRoot(path)
    ensures base == Nth(disk.Now(), 0)
  {
    var last := FindLast(path, 0, SLASH);
    assert last == 0 by {
      assert forall j :: 1 <= j < End(path, 0) ==> path[1..End(path, 0)][j - 1] == path[j];
    }
    base := GetRootDirInode(disk);
  }

  /** The directory part: read the root inode, put the item in. The inode read is not
      written back. */
  method AddItem(disk: Disk, path: seq<byte>, ino: Inode, ghost k: nat)
    requires disk.Valid() && BitmapOk(disk.Now()) && RootRecorded(disk.Now()) && InRoot(path)
    requires Nth(disk.Now(), 0).size + DIR_ITEM_SIZE <= BLOCK_SIZE
    requires forall a :: 0 <= a < MAX_BLOCKS ==> Nth(disk.Now(), 0).blockNo[a] < TOTAL_BLOCKS
    requires k < INODES && ino.myBlock == PlaceBlock(k) && ino.myOffset == PlaceOffset(k)
    modifies disk.blocks
    ensures disk.Now() == old(disk.Now())[RootBlock(old(disk.Now())) :=
              WithItem(old(disk.Now())[RootBlock(old(disk.Now()))], Nth(old(disk.Now()), 0).size, ItemFor(path, k))]
  {
    var base := SeekBaseDirectory(disk, path);
    base := WriteDirectory(disk, base, path, ino);
  }

  /** While there is room the new file gets a block of its own, and exactly that block
      becomes busy. */
  ghost predicate CreationOwned(d: Blocks, d': Blocks, live: seq<Inode>, saved: set<nat>, ino: Inode) {
    HasRoom(d) ==> RootOpen(d', live + [ino], With(saved, |live|)) && BitAdded(d, d', FirstClear(d[BITMAP], 0))
  }

  /** sys_creat for a file in the root directory; -1 and no change when no inode is left. */
  method Creat(disk: Disk, path: seq<byte>, mode: nat, junk: seq<byte>, ghost live: seq<Inode>, ghost saved: set<nat>)
    returns (r: int, ino: Inode)
    requires disk.Valid() && RootOpen(disk.Now(), live, saved) && InRoot(path)
    requires mode < 0x1_0000 && |junk| == BLOCK_SIZE - 36
    modifies disk.blocks
    ensures |live| == INODES ==> r == -1 && disk.Now() == old(disk.Now())
    ensures |live| < INODES ==>
              && r == 0 && ino.mode % 0x1_0000 == mode && ino.mode / 0x1_0000 == Nth(old(disk.Now()), |live|).mode / 0x1_0000
              && OneBlock(ino, FirstClear(old(disk.Now())[BITMAP], 0))
              && RootBlock(old(disk.Now())) < TOTAL_BLOCKS && Created(old(disk.Now()), disk.Now(), |live|, ino, path)
    ensures |live| < INODES ==> CreationOwned(old(disk.Now()), disk.Now(), live, saved, ino)
  {
    ghost var d0 := disk.Now();
    RootIsBusy(d0, live, saved);
    r, ino := NewFile(disk, junk, live, saved);
    if r == -1 {
      return;
    }
    ghost var d1, ino1 := disk.Now(), ino;
    ino := SetMode(ino, mode);
    assert ino.mode % 0x1_0000 == mode && ino.mode / 0x1_0000 == ino1.mode / 0x1_0000;
    EnterFile(disk, path, ino, d0, |live|, ino1);
    if HasRoom(d0) {
      CreatedKeeps(d0, d1, disk.Now(), live, saved, ino1, ino, path);
    }
  }

  /** The root directory's first block is a busy one, and all its slots are on the disk. */
  ghost predicate RootBusy(d: Blocks) {
    && FIRST_DATA <= RootBlock(d) <= FILE_SYS_BLOCKS && Busy(d[BITMAP], RootBlock(d))
    && (forall a :: 0 <= a < MAX_BLOCKS ==> Nth(d, 0).blockNo[a] < TOTAL_BLOCKS)
    && RootRecorded(d) && Nth(d, 0).size + DIR_ITEM_SIZE <= BLOCK_SIZE
  }

  lemma RootIsBusy(d: Blocks, live: seq<Inode>, saved: set<nat>)
    requires RootOpen(d, live, saved)
    ensures RootBusy(d) && 0 < |live| <= INODES
  {
    RootSlots(d, live, saved);
    assert SavedOk(d, live, 0);
  }

  lemma RootStays(d0: Blocks, d1: Blocks, k: nat, ino: Inode)
    requires HandedFile(d0, d1, k, ino)
    ensures forall m: nat :: m < INODES ==> Nth(d1, m) == Nth(d0, m)
    ensures RootBusy(d0) ==> d1[RootBlock(d0)] == d0[RootBlock(d0)]
  {
    forall m: nat | m < INODES
      ensures Nth(d1, m) == Nth(d0, m)
    {
      assert d1[PlaceBlock(m)] == d0[PlaceBlock(m)];
    }
  }

  /** The end of sys_creat: the item in the directory, and the new inode on the disk. */
  method EnterFile(disk: Disk, path: seq<byte>, ino: Inode, ghost d0: Blocks, ghost k: nat, ghost ino1: Inode)
    requires disk.Valid() && InRoot(path) && 0 < k < INODES && RootBusy(d0)
    requires HandedFile(d0, disk.Now(), k, ino1) && ino == ino1.(mode := ino.mode)
    modifies disk.blocks
    ensures Created(d0, disk.Now(), k, ino, path)
    ensures Entered(old(disk.Now()), disk.Now(), k, ino, path)
  {
    ghost var d1 := disk.Now();
    RootStays(d0, d1, k, ino1);
    AddItem(disk, path, ino, k);
    ghost var d2 := disk.Now();
    WriteInode(disk, ino);
    CreatedAll(d0, d1, d2, k, ino1, ino, path);
  }

  /** The disk when the item is in. */
  ghost predicate ItemIn(d1: Blocks, d2: Blocks, k: nat, path: seq<byte>)
    requires InRoot(path) && k < INODES && Nth(d1, 0).size + DIR_ITEM_SIZE <= BLOCK_SIZE && RootBlock(d1) < TOTAL_BLOCKS
  {
    d2 == d1[RootBlock(d1) := WithItem(d1[RootBlock(d1)], Nth(d1, 0).size, ItemFor(path, k))]
  }

  ghost predicate Entered(d1: Blocks, d3: Blocks, k: nat, ino: Inode, path: seq<byte>)
    requires InRoot(path) && k < INODES && ino.myBlock == PlaceBlock(k) && ino.myOffset == PlaceOffset(k)
  {
    && RootBlock(d1) < TOTAL_BLOCKS && Nth(d1, 0).size + DIR_ITEM_SIZE <= BLOCK_SIZE
    && exists d2 :: ItemIn(d1, d2, k, path) && d3 == InodeStored(d2, ino)
  }

  lemma CreatedAll(d0: Blocks, d1: Blocks, d2: Blocks, k: nat, ino1: Inode, ino: Inode, path: seq<byte>)
    requires HandedFile(d0, d1, k, ino1) && RootBusy(d0) && 0 < k < INODES && InRoot(path)
    requires ino == ino1.(mode := ino.mode)
    requires Nth(d1, 0) == Nth(d0, 0) && ItemIn(d1, d2, k, path)
    ensures Created(d0, InodeStored(d2, ino), k, ino, path)
  {
    RootStays(d0, d1, k, ino1);
    SameInodesKeep(d1, d2, 0);
    InodeStoredAlone(d2, ino, k, 0);
  }

  lemma CreatedKeeps(d0: Blocks, d1: Blocks, d3: Blocks, live: seq<Inode>, saved: set<nat>, ino1: Inode, ino: Inode, path: seq<byte>)
    requires 0 < |live| < INODES && FsInv(d1, live + [ino1], saved) && ino.blockNo == ino1.blockNo && 0 in saved
    requires ino.myBlock == ino1.myBlock == PlaceBlock(|live|) && ino.myOffset == ino1.myOffset == PlaceOffset(|live|)
    requires InRoot(path) && RootBusy(d0) && BitAdded(d0, d1, FirstClear(d0[BITMAP], 0))
    requires HandedFile(d0, d1, |live|, ino1) && Created(d0, d3, |live|, ino, path) && Entered(d1, d3, |live|, ino, path)
    ensures RootOpen(d3, live + [ino], With(saved, |live|)) && BitAdded(d0, d3, FirstClear(d0[BITMAP], 0))
  {
    RootStays(d0, d1, |live|, ino1);
    var d2 :| ItemIn(d1, d2, |live|, path) && d3 == InodeStored(d2, ino);
    StoredKeeps(d1, d2, live, saved, ino1, ino, path);
    assert Nth(d3, 0) == Nth(d0, 0);
  }

  lemma StoredKeeps(d1: Blocks, d2: Blocks, live: seq<Inode>, saved: set<nat>, ino1: Inode, ino: Inode, path: seq<byte>)
    requires 0 < |live| < INODES && FsInv(d1, live + [ino1], saved) && ino.blockNo == ino1.blockNo
    requires ino.myBlock == ino1.myBlock == PlaceBlock(|live|) && ino.myOffset == ino1.myOffset == PlaceOffset(|live|)
    requires InRoot(path) && Nth(d1, 0).size + DIR_ITEM_SIZE <= BLOCK_SIZE && FIRST_DATA <= RootBlock(d1) < TOTAL_BLOCKS
    requires ItemIn(d1, d2, |live|, path)
    ensures FsInv(InodeStored(d2, ino), live + [ino], With(saved, |live|)) && InodeStored(d2, ino)[BITMAP] == d1[BITMAP]
  {
    DataChange(d1, d2, live + [ino1], saved);
    FieldsChanged(d2, live + [ino1], saved, |live|, ino);
    assert (live + [ino1])[|live| := ino] == live + [ino];
    InodeSaved(d2, live + [ino], saved, |live|);
  }

  // ----- the next creation

  /** Name a without its terminator is a prefix of name b. */
  predicate StartsLike(a: seq<byte>, b: seq<byte>)
    requires |a| > 0
  {
    a[..|a| - 1] <= b
  }

  /** The name bytes of an item: the new name, and behind its terminator what was there. */
  lemma NameBytes(b: Block, o: nat, j: ShortItem)
    requires o + DIR_ITEM_SIZE <= BLOCK_SIZE
    ensures forall p :: o <= p < o + NAME_MAX ==> WithItem(b, o, j)[p] == if p < o + |j.name| then j.name[p - o] else b[p]
  {
  }

  /** What starts with the name i, then gets the name j over it, holds i if and only if i is
      a prefix of j. */
  lemma NameOverName(x: seq<byte>, i: seq<byte>, j: seq<byte>)
    requires 0 < |i| <= |x| && 0 < |j| <= |x| && j[|j| - 1] == 0 && forall k :: 0 <= k < |i| - 1 ==> i[k] != 0
    requires forall k :: 0 <= k < |j| ==> x[k] == j[k]
    ensures x[..|i| - 1] == i[..|i| - 1] <==> StartsLike(i, j)
  {
    var n := |i| - 1;
    SamePrefix(x, i, n);
    if n <= |j| {
      SamePrefix(j, i, n);
    }
  }

  lemma SamePrefix(a: seq<byte>, b: seq<byte>, n: nat)
    requires n <= |a| && n <= |b|
    ensures a[..n] == b[..n] <==> forall k :: 0 <= k < n ==> a[k] == b[k]
  {
    if a[..n] == b[..n] {
      assert forall k :: 0 <= k < n ==> a[..n][k] == b[..n][k];
    }
  }

  lemma PrefixOfSlice(s: seq<byte>, o: nat, m: nat, n: nat)
    requires n <= m && o + m <= |s|
    ensures s[o..o + m][..n] == s[o..o + n]
  {
  }

  lemma NameInItem(b: Block, o: nat, i: ShortItem, j: ShortItem, tail: seq<byte>)
    requires o + DIR_ITEM_SIZE <= BLOCK_SIZE && 1 < |i.name| && 0 < |j.name| && |tail| >= NAME_MAX
    requires j.name[|j.name| - 1] == 0 && forall k :: 0 <= k < |i.name| - 1 ==> i.name[k] != 0
    ensures Occurs(i.name, |i.name| - 1, WithItem(b, o, j) + tail, o) <==> StartsLike(i.name, j.name)
  {
    var r, n := WithItem(b, o, j), |i.name| - 1;
    var x := r[o..o + NAME_MAX];
    NameBytes(b, o, j);
    NameOverName(x, i.name, j.name);
    PrefixOfSlice(r, o, NAME_MAX, n);
    assert (r + tail)[o..o + n] == r[o..o + n];
    if x[..n] == i.name[..n] {
      assert x[..n][0] == i.name[..n][0];
    }
  }

  /** An item put over another: the place is the second one's, and the first name occurs
      there if and only if it is a prefix of the second. */
  lemma ItemOverItem(b: Block, o: nat, i: ShortItem, j: ShortItem, tail: seq<byte>)
    requires o + DIR_ITEM_SIZE <= BLOCK_SIZE && 1 < |i.name| && 0 < |j.name| && |tail| >= NAME_MAX
    requires j.name[|j.name| - 1] == 0 && forall k :: 0 <= k < |i.name| - 1 ==> i.name[k] != 0
    ensures var r := WithItem(WithItem(b, o, i), o, j);
      && HasItem(r, o, j)
      && (Occurs(i.name, |i.name| - 1, r + tail, o) <==> StartsLike(i.name, j.name))
  {
    var b1 := WithItem(b, o, i);
    ItemPut(b1, o, j);
    NameInItem(b1, o, i, j, tail);
  }

  /** After two creations the second item lies over the first one. */
  ghost predicate Overwritten(d: Blocks, d': Blocks, k: nat, p: seq<byte>, q: seq<byte>)
    requires InRoot(p) && InRoot(q) && k + 1 < INODES
  {
    var root := Nth(d', 0);
    && root == Nth(d, 0) && root.blockNo[0] < TOTAL_BLOCKS && root.size + DIR_ITEM_SIZE <= BLOCK_SIZE
    && d'[root.blockNo[0]] == WithItem(WithItem(d[root.blockNo[0]], root.size, ItemFor(p, k)), root.size, ItemFor(q, k + 1))
  }

  /** A second block is left besides the first clear one. */
  ghost predicate RoomForTwo(d: Blocks) {
    exists n: nat :: n <= FILE_SYS_BLOCKS && n != FirstClear(d[BITMAP], 0) && !Busy(d[BITMAP], n)
  }

  lemma RoomForNext(d: Blocks, d': Blocks)
    requires RoomForTwo(d) && BitAdded(d, d', FirstClear(d[BITMAP], 0))
    ensures HasRoom(d')
  {
    var n: nat :| n <= FILE_SYS_BLOCKS && n != FirstClear(d[BITMAP], 0) && !Busy(d[BITMAP], n);
    assert !Busy(d'[BITMAP], n);
  }

  /** Two creations in the root directory, which still has its old size when the second one
      looks where to put its item. */
  method CreateTwo(disk: Disk, p: seq<byte>, q: seq<byte>, junk: seq<byte>, ghost live: seq<Inode>, ghost saved: set<nat>)
    returns (a: Inode, b: Inode)
    requires disk.Valid() && RootOpen(disk.Now(), live, saved) && InRoot(p) && InRoot(q)
    requires |junk| == BLOCK_SIZE - 36 && |live| + 2 <= INODES && HasRoom(disk.Now())
    modifies disk.blocks
    ensures Overwritten(old(disk.Now()), disk.Now(), |live|, p, q) && RootBusy(old(disk.Now())) && RootRecorded(disk.Now())
    ensures Nth(disk.Now(), |live|) == a && Nth(disk.Now(), |live| + 1) == b
    ensures BothOwned(old(disk.Now()), disk.Now(), live, saved, a, b)
  {
    ghost var d0, k := disk.Now(), |live|;
    RootIsBusy(d0, live, saved);
    var r;
    r, a := Creat(disk, p, REGULAR_FILE, junk, live, saved);
    ghost var d1 := disk.Now();
    RoomKeepsOpen(d0, d1, live, saved, a);
    r, b := Creat(disk, q, REGULAR_FILE, junk, live + [a], With(saved, k));
    BothCreated(d0, d1, disk.Now(), k, a, b, p, q);
    BothAreOwned(d0, d1, disk.Now(), live, saved, a, b);
  }

  /** The first file has the first clear block; if there was a second one, both files have
      a block of their own. */
  ghost predicate BothOwned(d: Blocks, d': Blocks, live: seq<Inode>, saved: set<nat>, a: Inode, b: Inode) {
    && OneBlock(a, FirstClear(d[BITMAP], 0))
    && (RoomForTwo(d) ==> FsInv(d', live + [a] + [b], With(With(saved, |live|), |live| + 1)))
  }

  lemma BothAreOwned(d: Blocks, d1: Blocks, d': Blocks, live: seq<Inode>, saved: set<nat>, a: Inode, b: Inode)
    requires OneBlock(a, FirstClear(d[BITMAP], 0)) && HasRoom(d)
    requires CreationOwned(d, d1, live, saved, a) && CreationOwned(d1, d', live + [a], With(saved, |live|), b)
    ensures BothOwned(d, d', live, saved, a, b)
  {
    if RoomForTwo(d) {
      RoomForNext(d, d1);
      assert |live + [a]| == |live| + 1;
    }
  }

  lemma RoomKeepsOpen(d: Blocks, d1: Blocks, live: seq<Inode>, saved: set<nat>, a: Inode)
    requires HasRoom(d) && CreationOwned(d, d1, live, saved, a)
    ensures RootOpen(d1, live + [a], With(saved, |live|))
  {
  }

  lemma BothCreated(d0: Blocks, d1: Blocks, d2: Blocks, k: nat, a: Inode, b: Inode, p: seq<byte>, q: seq<byte>)
    requires InRoot(p) && InRoot(q) && RootBusy(d0) && 0 < k && k + 1 < INODES
    requires Created(d0, d1, k, a, p) && RootBlock(d1) < TOTAL_BLOCKS && Nth(d1, 0).size + DIR_ITEM_SIZE <= BLOCK_SIZE
    requires Created(d1, d2, k + 1, b, q)
    ensures Overwritten(d0, d2, k, p, q) && RootRecorded(d2) && Nth(d2, k) == a && Nth(d2, k + 1) == b
  {
    assert Nth(d1, 0) == Nth(d0, 0) && Nth(d2, 0) == Nth(d1, 0) && Nth(d2, k) == Nth(d1, k);
  }

  lemma NameEnds(path: seq<byte>)
    requires InRoot(path)
    ensures var name := NameIn(path);
      var n := |name| - 1;
      End(name, 0) == n > 0 && name[n] == 0 && forall k :: 0 <= k < n ==> name[k] != 0
  {
  }

  lemma ItemLeads(d: Blocks, e: Block, o: nat, path: seq<byte>, k: nat)
    requires InRoot(path) && k < INODES && o + DIR_ITEM_SIZE <= BLOCK_SIZE && HasItem(e, o, ItemFor(path, k))
    ensures Item(d, e, o) == Loaded(Nth(d, k))
  {
  }

  /** Name p in a block where the item of q has been put over that of p at byte o. */
  lemma FirstName(b: Block, o: nat, k: nat, p: seq<byte>, q: seq<byte>, tail: seq<byte>)
    requires InRoot(p) && InRoot(q) && k + 1 < INODES && |tail| >= NAME_MAX && o + DIR_ITEM_SIZE <= BLOCK_SIZE
    ensures var e := WithItem(WithItem(b, o, ItemFor(p, k)), o, ItemFor(q, k + 1));
      && HasItem(e, o, ItemFor(q, k + 1))
      && (Occurs(NameIn(p), End(NameIn(p), 0), e + tail, o) <==> StartsLike(NameIn(p), NameIn(q)))
  {
    NameEnds(p);
    NameEnds(q);
    ItemOverItem(b, o, ItemFor(p, k), ItemFor(q, k + 1), tail);
  }

  /** The outcome of looking a name up in a root directory of at most one block. */
  ghost predicate FoundInRoot(d: Blocks, path: seq<byte>, tail: seq<byte>, r: Seek)
    requires InRoot(path) && |tail| >= NAME_MAX && RootBlock(d) < TOTAL_BLOCKS
  {
    var name, e, size := NameIn(path), d[RootBlock(d)], Nth(d, 0).size;
    && (r == Missing <==> size == 0 || NotIn(name, e, tail))
    && forall o: nat :: 0 < size && o < BLOCK_SIZE && Occurs(name, End(name, 0), e + tail, o) && NotBefore(name, e, tail, o) ==>
         r == Item(d, e, o)
  }

  /** Looking up a name in a root directory of at most one block. */
  method LookupInRoot(disk: Disk, path: seq<byte>, tail: seq<byte>) returns (r: Seek)
    requires disk.Valid() && RootRecorded(disk.Now()) && InRoot(path) && |tail| >= NAME_MAX
    requires Nth(disk.Now(), 0).size <= BLOCK_SIZE && forall a :: 0 <= a < MAX_BLOCKS ==> Nth(disk.Now(), 0).blockNo[a] < TOTAL_BLOCKS
    ensures FoundInRoot(disk.Now(), path, tail, r)
  {
    var root := GetRootDirInode(disk);
    r := Lookup(disk, root, path, tail);
    forall o: nat | 0 < root.size && o < BLOCK_SIZE
      ensures var e := disk.Now()[RootBlock(disk.Now())];
        Occurs(NameIn(path), End(NameIn(path), 0), e + tail, o) && NotBefore(NameIn(path), e, tail, o) ==>
          FirstAt(disk.Now(), root, NameIn(path), tail, 0, o)
    {
    }
  }

  /** After the second creation the first name is missing if and only if its bytes occur
      nowhere in the block, or the directory is empty. They occur where the item was put if
      and only if the first name is a prefix of the second; if that is the first occurrence,
      the first name leads to the second file. */
  ghost predicate FirstOutcome(d: Blocks, p: seq<byte>, q: seq<byte>, tail: seq<byte>, first: Seek, b: Inode)
    requires InRoot(p) && InRoot(q) && |tail| >= NAME_MAX && RootBlock(d) < TOTAL_BLOCKS && Nth(d, 0).size + DIR_ITEM_SIZE <= BLOCK_SIZE
  {
    var name, e, size := NameIn(p), d[RootBlock(d)], Nth(d, 0).size;
    && (first == Missing <==> size == 0 || NotIn(name, e, tail))
    && (Occurs(name, End(name, 0), e + tail, size) <==> StartsLike(name, NameIn(q)))
    && (0 < size && StartsLike(name, NameIn(q)) && NotBefore(name, e, tail, size) ==> first == Loaded(b))
  }

  lemma OverwrittenName(d: Blocks, d': Blocks, k: nat, p: seq<byte>, q: seq<byte>, tail: seq<byte>)
    requires InRoot(p) && InRoot(q) && |tail| >= NAME_MAX && k + 1 < INODES && Overwritten(d, d', k, p, q)
    ensures var e, size := d'[RootBlock(d')], Nth(d', 0).size;
      && (Occurs(NameIn(p), End(NameIn(p), 0), e + tail, size) <==> StartsLike(NameIn(p), NameIn(q)))
      && Item(d', e, size) == Loaded(Nth(d', k + 1))
  {
    var at, size := RootBlock(d'), Nth(d', 0).size;
    FirstName(d[at], size, k, p, q, tail);
    ItemLeads(d', d'[at], size, q, k + 1);
  }

  lemma OutcomeFrom(d: Blocks, e: Block, size: nat, p: seq<byte>, q: seq<byte>, tail: seq<byte>, first: Seek, b: Inode)
    requires InRoot(p) && InRoot(q) && |tail| >= NAME_MAX && RootBlock(d) < TOTAL_BLOCKS && size + DIR_ITEM_SIZE <= BLOCK_SIZE
    requires e == d[RootBlock(d)] && size == Nth(d, 0).size && FoundInRoot(d, p, tail, first)
    requires Occurs(NameIn(p), End(NameIn(p), 0), e + tail, size) <==> StartsLike(NameIn(p), NameIn(q))
    requires Item(d, e, size) == Loaded(b)
    ensures FirstOutcome(d, p, q, tail, first, b)
  {
  }

  lemma OverwrittenOutcome(d: Blocks, d': Blocks, k: nat, p: seq<byte>, q: seq<byte>, tail: seq<byte>, first: Seek)
    requires InRoot(p) && InRoot(q) && |tail| >= NAME_MAX && k + 1 < INODES && Overwritten(d, d', k, p, q)
    requires FoundInRoot(d', p, tail, first)
    ensures FirstOutcome(d', p, q, tail, first, Nth(d', k + 1))
  {
    OverwrittenName(d, d', k, p, q, tail);
    OutcomeFrom(d', d'[RootBlock(d')], Nth(d', 0).size, p, q, tail, first, Nth(d', k + 1));
  }

  /** Two creations in the root directory, and the search for the first name. */
  method CreateTwice(disk: Disk, p: seq<byte>, q: seq<byte>, junk: seq<byte>, tail: seq<byte>, ghost live: seq<Inode>, ghost saved: set<nat>)
    returns (a: Inode, b: Inode, first: Seek)
    requires disk.Valid() && RootOpen(disk.Now(), live, saved) && InRoot(p) && InRoot(q)
    requires |junk| == BLOCK_SIZE - 36 && |tail| >= NAME_MAX && |live| + 2 <= INODES && HasRoom(disk.Now())
    modifies disk.blocks
    ensures Overwritten(old(disk.Now()), disk.Now(), |live|, p, q)
    ensures Nth(disk.Now(), |live|) == a && Nth(disk.Now(), |live| + 1) == b
    ensures BothOwned(old(disk.Now()), disk.Now(), live, saved, a, b)
    ensures FirstOutcome(disk.Now(), p, q, tail, first, b)
  {
    ghost var d := disk.Now();
    a, b := CreateTwo(disk, p, q, junk, live, saved);
    first := LookupInRoot(disk, p, tail);
    OverwrittenOutcome(d, disk.Now(), |live|, p, q, tail, first);
  }

  // ----- on a fresh disk

  const A_PATH: seq<byte> := [47, 97, 0]   // "/a"
  const B_PATH: seq<byte> := [47, 98, 0]   // "/b"

  lemma ShortPaths()
    ensures InRoot(A_PATH) && NameIn(A_PATH) == [97, 0] && InRoot(B_PATH) && NameIn(B_PATH) == [98, 0]
  {
    OneComponent(A_PATH);
    OneComponent(B_PATH);
    assert A_PATH[1..] == [97, 0] && B_PATH[1..] == [98, 0];
  }

  /** On a freshly formatted disk "/a" is created, then "/b": after that "/a" is not found,
      although its inode and its block stay taken. */
  method FirstFileLost(disk: Disk, junk: Junk, tail: seq<byte>) returns (a: Inode, b: Inode, first: Seek)
    requires disk.Valid() && |junk.tail| == BLOCK_SIZE - 36 && |junk.inodeBlocks| == INODE_BLOCKS && |tail| >= NAME_MAX
    modifies disk.blocks
    ensures first == Missing
    ensures Nth(disk.Now(), 3) == a && Nth(disk.Now(), 4) == b && a.blockNo[0] == 87 && Busy(disk.Now()[BITMAP], 87)
  {
    var root, mypro, shell := InitFile(disk, junk);
    ghost var d := disk.Now();
    ShortPaths();
    FreshIsOpen(d, root, mypro, shell);
    a, b, first := CreateTwice(disk, A_PATH, B_PATH, junk.tail, tail, [root, mypro, shell], {0, 1, 2});
    FirstClearIs(d[BITMAP], 87);
    BlockTaken(disk.Now(), [root, mypro, shell] + [a] + [b], With(With({0, 1, 2}, 3), 4), 3);
    NoByteA(d[FIRST_DATA], disk.Now()[FIRST_DATA], tail);
  }

  lemma BlockTaken(d: Blocks, live: seq<Inode>, saved: set<nat>, n: nat)
    requires FsInv(d, live, saved) && n < |live| && live[n].blockNo[0] != 0
    ensures live[n].blockNo[0] < BITS && Busy(d[BITMAP], live[n].blockNo[0])
  {
  }

  lemma FreshIsOpen(d: Blocks, root: Inode, mypro: Inode, shell: Inode)
    requires FsInv(d, [root, mypro, shell], {0, 1, 2}) && BusyBelow(d, 87) && RootRecorded(d)
    requires Nth(d, 0) == root && root.size == 56 && root.blockNo[0] == FIRST_DATA
    ensures RootOpen(d, [root, mypro, shell], {0, 1, 2}) && HasRoom(d) && RoomForTwo(d)
  {
    assert !Busy(d[BITMAP], 87) && !Busy(d[BITMAP], 88);
    FirstClearIs(d[BITMAP], 87);
  }

  const A: byte := 97

  lemma PlaceWithoutA(k: nat)
    requires 1 <= k <= 4
    ensures A !in Encode([PlaceBlock(k), PlaceOffset(k)])
  {
    var x: uint32, y: uint32 := PlaceBlock(k), PlaceOffset(k);
    assert x <= 2 && (y == 116 || y == 232 || y == 348 || y == 0);
    EncodePair(x, y);
    assert A !in Bytes4(x) && A !in Bytes4(y);
  }

  lemma EncodePair(x: uint32, y: uint32)
    ensures Encode([x, y]) == Bytes4(x) + Bytes4(y)
  {
    var ws: seq<uint32> := [x, y];
    assert ws[1..] == [y] && ws[1..][1..] == [];
    assert Encode(ws) == Bytes4(x) + (Bytes4(y) + []);
  }

  /** An item brings no byte 'a' but in its name, and takes those under its name away. */
  lemma ItemWithoutA(b: Block, o: nat, name: seq<byte>, k: nat, n: nat)
    requires o + DIR_ITEM_SIZE <= BLOCK_SIZE && |name| <= NAME_MAX && 1 <= k <= 4 && n <= |name|
    requires forall p :: 0 <= p < BLOCK_SIZE && b[p] == A ==> o <= p < o + n
    ensures forall p :: 0 <= p < BLOCK_SIZE && WithEntry(b, o, name, PlaceBlock(k), PlaceOffset(k))[p] == A ==> o <= p < o + |name| && name[p - o] == A
  {
    PlaceWithoutA(k);
  }

  /** The byte 'a' is nowhere in the block. */
  lemma NoByteA(b: Block, e: Block, tail: seq<byte>)
    requires InRoot(A_PATH) && InRoot(B_PATH) && NameIn(A_PATH) == [A, 0] && NameIn(B_PATH) == [98, 0] && |tail| >= NAME_MAX
    requires b == TwoEntries(ZeroBlock())
    requires e == WithItem(WithItem(b, 56, ItemFor(A_PATH, 3)), 56, ItemFor(B_PATH, 4))
    ensures NotIn(NameIn(A_PATH), e, tail)
  {
    ItemWithoutA(ZeroBlock(), 0, SHELL_NAME, 2, 0);
    ItemWithoutA(WithEntry(ZeroBlock(), 0, SHELL_NAME, PlaceBlock(2), PlaceOffset(2)), 28, MYPRO_NAME, 1, 0);
    ItemWithoutA(b, 56, [A, 0], 3, 0);
    ItemWithoutA(WithItem(b, 56, ItemFor(A_PATH, 3)), 56, [98, 0], 4, 2);
    assert A !in e;
    NoFirstByte(e, NameIn(A_PATH), tail);
  }

  lemma NoFirstByte(e: Block, name: seq<byte>, tail: seq<byte>)
    requires Terminated(name, 0) && |tail| > End(name, 0) && name[0] !in e
    ensures NotIn(name, e, tail)
  {
  }
}
