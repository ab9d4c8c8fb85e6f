/** The file-system invariant: who owns which block. */
module FsInvariant {
  import opened Bytes
  import opened Layout
  import opened Inodes
  import opened Bitmap
  import opened FileData

  /** Every block named by a live inode is a busy block of the data area. */
  ghost predicate SlotsBusy(live: seq<Inode>, bits: Block) {
    forall n: nat, a: nat {:trigger live[n].blockNo[a]} :: n < |live| && a < MAX_BLOCKS && live[n].blockNo[a] != 0 ==>
      FIRST_DATA <= live[n].blockNo[a] <= FILE_SYS_BLOCKS && Busy(bits, live[n].blockNo[a])
  }

  /** No block sits in two slots. */
  ghost predicate OneOwner(live: seq<Inode>) {
    forall n: nat, a: nat, m: nat, b: nat {:trigger live[n].blockNo[a], live[m].blockNo[b]} ::
      n < |live| && m < |live| && a < MAX_BLOCKS && b < MAX_BLOCKS && (n != m || a != b) && live[n].blockNo[a] != 0 ==>
        live[n].blockNo[a] != live[m].blockNo[b]
  }

  /** The inode that was saved as number n has at most the blocks of the live one. */
  ghost predicate SavedOk(d: Blocks, live: seq<Inode>, n: nat)
    requires n < INODES
  {
    n < |live| && forall a: nat {:trigger live[n].blockNo[a]} :: a < MAX_BLOCKS ==>
      Nth(d, n).blockNo[a] == 0 || Nth(d, n).blockNo[a] == live[n].blockNo[a]
  }

  /** live are the inodes handed out so far, in order, as their holders have them in
      memory; saved are those that have been written to disk at least once. */
  ghost predicate FsInv(d: Blocks, live: seq<Inode>, saved: set<nat>) {
    && BitmapOk(d) && FreeFrom(d, |live|)
    && (forall n: nat :: n < |live| ==> live[n].myBlock == PlaceBlock(n) && live[n].myOffset == PlaceOffset(n))
    && SlotsBusy(live, d[BITMAP]) && OneOwner(live)
    && forall n :: n in saved ==> n < INODES && SavedOk(d, live, n)
  }

  /** The inodes handed out lie in pairwise different places. */
  lemma LivePlacesApart(d: Blocks, live: seq<Inode>, saved: set<nat>, n: nat, m: nat)
    requires FsInv(d, live, saved) && n < |live| && m < |live|
    requires live[n].myBlock == live[m].myBlock && live[n].myOffset == live[m].myOffset
    ensures n == m
  {
    PlaceInjective(n, m);
  }

  /** So a saved inode names busy data blocks only, and never one that another live inode has. */
  lemma SavedBlocks(d: Blocks, live: seq<Inode>, saved: set<nat>, n: nat, a: nat)
    requires FsInv(d, live, saved) && n in saved && a < MAX_BLOCKS && Nth(d, n).blockNo[a] != 0
    ensures FIRST_DATA <= Nth(d, n).blockNo[a] <= FILE_SYS_BLOCKS && Busy(d[BITMAP], Nth(d, n).blockNo[a])
    ensures forall m: nat, b: nat {:trigger live[m].blockNo[b]} :: m < |live| && b < MAX_BLOCKS && (m != n || b != a) ==>
              live[m].blockNo[b] != Nth(d, n).blockNo[a]
  {
    assert SavedOk(d, live, n);
    assert Nth(d, n).blockNo[a] == live[n].blockNo[a];
  }

  /** d and d' agree on the superblock and the inode area. */
  ghost predicate SameInodes(d: Blocks, d': Blocks) {
    forall b: nat :: b <= INODE_BLOCKS ==> d'[b] == d[b]
  }

  lemma SameInodesKeep(d: Blocks, d': Blocks, k: nat)
    requires SameInodes(d, d')
    ensures FreeFrom(d, k) ==> FreeFrom(d', k)
    ensures SuperAt(d'[0]) == SuperAt(d[0])
    ensures forall n: nat :: n < INODES ==> Nth(d', n) == Nth(d, n)
  {
    forall n: nat | n < INODES
      ensures Nth(d', n) == Nth(d, n)
    {
      assert d'[PlaceBlock(n)] == d[PlaceBlock(n)];
    }
  }

  /** Changes to data blocks are of no concern. */
  lemma DataChange(d: Blocks, d': Blocks, live: seq<Inode>, saved: set<nat>)
    requires FsInv(d, live, saved) && SameInodes(d, d') && d'[BITMAP] == d[BITMAP]
    ensures FsInv(d', live, saved)
  {
    SameInodesKeep(d, d', |live|);
    forall n | n in saved
      ensures SavedOk(d', live, n)
    {
      assert SavedOk(d, live, n) && Nth(d', n) == Nth(d, n);
    }
  }

  /** Bit c, and no other, has been added. */
  ghost predicate BitAdded(d: Blocks, d': Blocks, c: nat) {
    c < BITS && forall n: nat {:trigger Busy(d'[BITMAP], n)} :: n < BITS ==> (Busy(d'[BITMAP], n) <==> n == c || Busy(d[BITMAP], n))
  }

  /** The inodes with block c in slot a of inode n. */
  function Given(live: seq<Inode>, n: nat, a: nat, c: uint32): (r: seq<Inode>)
    requires n < |live| && a < MAX_BLOCKS
    ensures |r| == |live|
  {
    live[n := live[n].(blockNo := live[n].blockNo[a := c])]
  }

  /** Giving a clear data block to an empty slot and marking it keeps the invariant. */
  lemma BlockGiven(d: Blocks, d': Blocks, live: seq<Inode>, saved: set<nat>, n: nat, a: nat, c: nat)
    requires FsInv(d, live, saved) && n < |live| && a < MAX_BLOCKS && live[n].blockNo[a] == 0
    requires FIRST_DATA <= c <= FILE_SYS_BLOCKS && !Busy(d[BITMAP], c)
    requires SameInodes(d, d') && BitAdded(d, d', c)
    ensures FsInv(d', Given(live, n, a, c), saved)
  {
    var live' := Given(live, n, a, c);
    SameInodesKeep(d, d', |live|);
    GivenOwners(d, live, n, a, c);
    GivenBusy(d, d', live, n, a, c);
    forall m | m in saved
      ensures SavedOk(d', live', m)
    {
      assert SavedOk(d, live, m) && Nth(d', m) == Nth(d, m);
      GivenSaved(d, d', live, n, a, c, m);
    }
  }

  lemma GivenSaved(d: Blocks, d': Blocks, live: seq<Inode>, n: nat, a: nat, c: nat, m: nat)
    requires n < |live| && a < MAX_BLOCKS && live[n].blockNo[a] == 0 && c < 0x1_0000_0000
    requires m < INODES && SavedOk(d, live, m) && Nth(d', m) == Nth(d, m)
    ensures SavedOk(d', Given(live, n, a, c), m)
  {
    var live' := Given(live, n, a, c);
    forall b: nat {:trigger live'[m].blockNo[b]} | b < MAX_BLOCKS
      ensures Nth(d', m).blockNo[b] == 0 || Nth(d', m).blockNo[b] == live'[m].blockNo[b]
    {
      assert Nth(d, m).blockNo[b] == 0 || Nth(d, m).blockNo[b] == live[m].blockNo[b];
    }
  }

  lemma GivenOwners(d: Blocks, live: seq<Inode>, n: nat, a: nat, c: nat)
    requires SlotsBusy(live, d[BITMAP]) && OneOwner(live)
    requires n < |live| && a < MAX_BLOCKS && 0 < c < BITS && !Busy(d[BITMAP], c)
    ensures OneOwner(Given(live, n, a, c))
  {
    forall m: nat, b: nat {:trigger live[m].blockNo[b]} | m < |live| && b < MAX_BLOCKS
      ensures live[m].blockNo[b] != c
    {
    }
  }

  lemma GivenBusy(d: Blocks, d': Blocks, live: seq<Inode>, n: nat, a: nat, c: nat)
    requires SlotsBusy(live, d[BITMAP]) && BitAdded(d, d', c)
    requires n < |live| && a < MAX_BLOCKS && FIRST_DATA <= c <= FILE_SYS_BLOCKS
    ensures SlotsBusy(Given(live, n, a, c), d'[BITMAP])
  {
    var live' := Given(live, n, a, c);
    forall m: nat, b: nat {:trigger live'[m].blockNo[b]} | m < |live'| && b < MAX_BLOCKS && live'[m].blockNo[b] != 0
      ensures FIRST_DATA <= live'[m].blockNo[b] <= FILE_SYS_BLOCKS && Busy(d'[BITMAP], live'[m].blockNo[b])
    {
      if m != n || b != a {
        assert live'[m].blockNo[b] == live[m].blockNo[b];
      }
    }
  }

  /** allocBlock on live inode n, while there is room. */
  lemma AllocatedBlock(d: Blocks, live: seq<Inode>, saved: set<nat>, n: nat)
    requires FsInv(d, live, saved) && HasRoom(d) && n < |live| && FreeSlot(live[n].blockNo, 0) < MAX_BLOCKS
    ensures var c := FirstClear(d[BITMAP], 0);
      FIRST_DATA <= c <= FILE_SYS_BLOCKS && FsInv(HandedOut(d, c), Given(live, n, FreeSlot(live[n].blockNo, 0), c), saved)
  {
    FreshIffRoom(d);
    HandedOutOk(d);
    var c := FirstClear(d[BITMAP], 0);
    BlockGiven(d, HandedOut(d, c), live, saved, n, FreeSlot(live[n].blockNo, 0), c);
  }

  /** allocInode adds an inode without blocks. */
  lemma AllocatedInode(d: Blocks, d': Blocks, live: seq<Inode>, saved: set<nat>, ino: Inode)
    requires FsInv(d, live, saved) && FreeFrom(d', |live| + 1)
    requires forall b :: 0 < b < TOTAL_BLOCKS ==> d'[b] == d[b]
    requires SuperAt(d'[0]).bitmapNo == SuperAt(d[0]).bitmapNo
    requires ino.myBlock == PlaceBlock(|live|) && ino.myOffset == PlaceOffset(|live|) && ino.blockNo == seq(MAX_BLOCKS, _ => 0)
    ensures FsInv(d', live + [ino], saved)
  {
    var live' := live + [ino];
    assert SlotsBusy(live', d'[BITMAP]) by { NewInodeBusy(live, ino, d[BITMAP]); }
    assert OneOwner(live') by { NewInodeOwner(live, ino); }
    forall n | n in saved
      ensures SavedOk(d', live', n)
    {
      assert SavedOk(d, live, n) && d'[PlaceBlock(n)] == d[PlaceBlock(n)];
      assert live'[n] == live[n];
    }
  }

  lemma NewInodeBusy(live: seq<Inode>, ino: Inode, bits: Block)
    requires SlotsBusy(live, bits) && ino.blockNo == seq(MAX_BLOCKS, _ => 0)
    ensures SlotsBusy(live + [ino], bits)
  {
    var live' := live + [ino];
    forall n: nat, a: nat {:trigger live'[n].blockNo[a]} | n < |live'| && a < MAX_BLOCKS && live'[n].blockNo[a] != 0
      ensures FIRST_DATA <= live'[n].blockNo[a] <= FILE_SYS_BLOCKS && Busy(bits, live'[n].blockNo[a])
    {
      assert n < |live| && live'[n].blockNo[a] == live[n].blockNo[a];
    }
  }

  lemma NewInodeOwner(live: seq<Inode>, ino: Inode)
    requires OneOwner(live) && ino.blockNo == seq(MAX_BLOCKS, _ => 0)
    ensures OneOwner(live + [ino])
  {
    var live' := live + [ino];
    forall n: nat, a: nat, m: nat, b: nat {:trigger live'[n].blockNo[a], live'[m].blockNo[b]} |
      n < |live'| && m < |live'| && a < MAX_BLOCKS && b < MAX_BLOCKS && (n != m || a != b) && live'[n].blockNo[a] != 0
      ensures live'[n].blockNo[a] != live'[m].blockNo[b]
    {
      assert n < |live| && live'[n].blockNo[a] == live[n].blockNo[a];
      if m < |live| {
        assert live'[m].blockNo[b] == live[m].blockNo[b];
      }
    }
  }

  /** Only the fields of live inode n other than its slots and its place change. */
  lemma FieldsChanged(d: Blocks, live: seq<Inode>, saved: set<nat>, n: nat, ino: Inode)
    requires FsInv(d, live, saved) && n < |live|
    requires ino.blockNo == live[n].blockNo && ino.myBlock == live[n].myBlock && ino.myOffset == live[n].myOffset
    ensures FsInv(d, live[n := ino], saved)
  {
    var live' := live[n := ino];
    assert forall m: nat :: m < |live| ==> live'[m].blockNo == live[m].blockNo;
    forall m | m in saved
      ensures SavedOk(d, live', m)
    {
      assert SavedOk(d, live, m) && live'[m].blockNo == live[m].blockNo;
    }
  }

  /** writeInode of live inode n. */
  lemma InodeSaved(d: Blocks, live: seq<Inode>, saved: set<nat>, n: nat)
    requires FsInv(d, live, saved) && n < |live|
    ensures FsInv(InodeStored(d, live[n]), live, saved + {n})
    ensures Nth(InodeStored(d, live[n]), n) == live[n]
  {
    var d' := InodeStored(d, live[n]);
    InodeStoredAlone(d, live[n], n, |live|);
    forall m | m in saved + {n}
      ensures m < INODES && SavedOk(d', live, m)
    {
      if m != n {
        assert SavedOk(d, live, m) && Nth(d', m) == Nth(d, m);
      }
    }
  }

  /** A write to the file of live inode n stays inside that inode's data blocks. */
  lemma FileWritten(d: Blocks, d': Blocks, live: seq<Inode>, saved: set<nat>, n: nat, offset: nat, data: seq<byte>)
    requires FsInv(d, live, saved) && n < |live|
    requires Written(d, d', live[n].blockNo, offset, data, |data|)
    requires Allocated(live[n].blockNo, offset, offset + |data|)
    ensures FsInv(d', live, saved) && SameInodes(d, d')
    ensures forall m: nat, a: nat {:trigger live[m].blockNo[a]} :: m < |live| && m != n && a < MAX_BLOCKS && live[m].blockNo[a] != 0 ==>
              d'[live[m].blockNo[a]] == d[live[m].blockNo[a]]
  {
    forall b: nat | b < TOTAL_BLOCKS && d'[b] != d[b]
      ensures FIRST_DATA <= b && exists a: nat :: a < MAX_BLOCKS && live[n].blockNo[a] == b && b != 0
    {
      var k: nat :| offset / BLOCK_SIZE <= k && k * BLOCK_SIZE < offset + |data| && live[n].blockNo[k] == b;
      assert live[n].blockNo[k] != 0;
    }
    DataChange(d, d', live, saved);
  }
}
