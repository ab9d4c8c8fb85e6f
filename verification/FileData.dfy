/** writeFile and read_file_at_offset of file.c against a flat file of bytes. */
module FileData {
  import opened Bytes
  import opened Layout
  import opened BlockDevice
  import opened Bitmap

  /** The slots named by the bytes from..to exist, are allocated and on the disk. */
  ghost predicate Allocated(slots: Slots, from: nat, to: nat) {
    && to <= MAX_BLOCKS * BLOCK_SIZE
    && (from < to ==> forall k: nat :: from / BLOCK_SIZE <= k && k * BLOCK_SIZE < to ==> 0 < slots[k] < TOTAL_BLOCKS)
  }

  /** No block is in two slots. */
  ghost predicate Separate(slots: Slots) {
    forall i, j :: 0 <= i < j < MAX_BLOCKS && slots[i] != 0 ==> slots[i] != slots[j]
  }

  /** Byte p of the file. */
  function ByteAt(d: Blocks, slots: Slots, p: nat): byte
    requires p < MAX_BLOCKS * BLOCK_SIZE && slots[p / BLOCK_SIZE] < TOTAL_BLOCKS
  {
    d[slots[p / BLOCK_SIZE]][p % BLOCK_SIZE]
  }

  /** How much of the rest fits into the block of byte offset. */
  function Chunk(offset: nat, rest: nat): (n: nat)
    requires rest > 0
    ensures 0 < n <= rest && offset % BLOCK_SIZE + n <= BLOCK_SIZE
    ensures n == rest || (offset + n) % BLOCK_SIZE == 0
  {
    var room := BLOCK_SIZE - offset % BLOCK_SIZE;
    if room < rest then room else rest
  }

  /** A chunk stays in one block of the file. */
  lemma ChunkBlock(offset: nat, n: nat, p: nat)
    requires offset % BLOCK_SIZE + n <= BLOCK_SIZE
    ensures offset <= p < offset + n <==> p / BLOCK_SIZE == offset / BLOCK_SIZE && offset % BLOCK_SIZE <= p % BLOCK_SIZE < offset % BLOCK_SIZE + n
  {
    var i := offset / BLOCK_SIZE;
    assert offset == i * BLOCK_SIZE + offset % BLOCK_SIZE;
    assert p == p / BLOCK_SIZE * BLOCK_SIZE + p % BLOCK_SIZE;
  }

  /** The disk after the first done bytes of data have been written at offset: those bytes
      of the file are data, every other byte of an allocated slot is as before, and so is
      every block that is not in one of the slots written to. */
  ghost predicate Written(d0: Blocks, d: Blocks, slots: Slots, offset: nat, data: seq<byte>, done: nat) {
    && done <= |data| && offset + |data| <= MAX_BLOCKS * BLOCK_SIZE
    && (forall p: nat {:trigger ByteAt(d, slots, p)} :: p < MAX_BLOCKS * BLOCK_SIZE && 0 < slots[p / BLOCK_SIZE] < TOTAL_BLOCKS ==>
          ByteAt(d, slots, p) == if offset <= p < offset + done then data[p - offset] else ByteAt(d0, slots, p))
    && (forall b: nat :: b < TOTAL_BLOCKS && d[b] != d0[b] ==> done > 0 && Touches(slots, offset, |data|, b))
  }

  /** Block b is in a slot that the range at offset reaches. */
  ghost predicate Touches(slots: Slots, offset: nat, size: nat, b: nat)
    requires offset + size <= MAX_BLOCKS * BLOCK_SIZE
  {
    exists k: nat :: offset / BLOCK_SIZE <= k && k * BLOCK_SIZE < offset + size && slots[k] == b
  }

  /** The disk after the next round of writeFile's loop. */
  function AfterRound(d: Blocks, slots: Slots, offset: nat, data: seq<byte>, done: nat): Blocks
    requires done < |data| && (offset + done) / BLOCK_SIZE < MAX_BLOCKS && slots[(offset + done) / BLOCK_SIZE] < TOTAL_BLOCKS
  {
    var at := offset + done;
    var b := slots[at / BLOCK_SIZE];
    d[b := Splice(d[b], at % BLOCK_SIZE, data[done..done + Chunk(at, |data| - done)])]
  }

  /** One round of writeFile's loop puts the next chunk in its place. */
  lemma WriteRound(d0: Blocks, d: Blocks, slots: Slots, offset: nat, data: seq<byte>, done: nat)
    requires Written(d0, d, slots, offset, data, done) && done < |data|
    requires Allocated(slots, offset, offset + |data|) && Separate(slots)
    ensures (offset + done) / BLOCK_SIZE < MAX_BLOCKS && 0 < slots[(offset + done) / BLOCK_SIZE] < TOTAL_BLOCKS
    ensures Written(d0, AfterRound(d, slots, offset, data, done), slots, offset, data, done + Chunk(offset + done, |data| - done))
  {
    SlotOf(slots, offset, |data|, done);
    var d', n := AfterRound(d, slots, offset, data, done), Chunk(offset + done, |data| - done);
    forall p: nat {:trigger ByteAt(d', slots, p)} | p < MAX_BLOCKS * BLOCK_SIZE && 0 < slots[p / BLOCK_SIZE] < TOTAL_BLOCKS
      ensures ByteAt(d', slots, p) == if offset <= p < offset + done + n then data[p - offset] else ByteAt(d0, slots, p)
    {
      RoundByte(d0, d, slots, offset, data, done, p);
    }
    RoundBlocks(d0, d, slots, offset, data, done);
  }

  /** A round changes no block but the one its slot names. */
  lemma RoundBlocks(d0: Blocks, d: Blocks, slots: Slots, offset: nat, data: seq<byte>, done: nat)
    requires Written(d0, d, slots, offset, data, done) && done < |data|
    requires (offset + done) / BLOCK_SIZE < MAX_BLOCKS && slots[(offset + done) / BLOCK_SIZE] < TOTAL_BLOCKS
    ensures forall b: nat :: b < TOTAL_BLOCKS && AfterRound(d, slots, offset, data, done)[b] != d0[b] ==> Touches(slots, offset, |data|, b)
  {
    var k := (offset + done) / BLOCK_SIZE;
    assert offset / BLOCK_SIZE <= k && k * BLOCK_SIZE < offset + |data|;
  }

  lemma SlotOf(slots: Slots, offset: nat, size: nat, done: nat)
    requires Allocated(slots, offset, offset + size) && done < size
    ensures (offset + done) / BLOCK_SIZE < MAX_BLOCKS && 0 < slots[(offset + done) / BLOCK_SIZE] < TOTAL_BLOCKS
  {
    var k := (offset + done) / BLOCK_SIZE;
    assert k * BLOCK_SIZE <= offset + done;
    assert offset / BLOCK_SIZE <= k;
  }

  /** What one round does to byte p of the file. */
  lemma RoundByte(d0: Blocks, d: Blocks, slots: Slots, offset: nat, data: seq<byte>, done: nat, p: nat)
    requires Written(d0, d, slots, offset, data, done) && done < |data| && Separate(slots)
    requires p < MAX_BLOCKS * BLOCK_SIZE && 0 < slots[p / BLOCK_SIZE] < TOTAL_BLOCKS
    requires 0 < slots[(offset + done) / BLOCK_SIZE] < TOTAL_BLOCKS
    ensures ByteAt(AfterRound(d, slots, offset, data, done), slots, p) ==
      if offset <= p < offset + done + Chunk(offset + done, |data| - done) then data[p - offset] else ByteAt(d0, slots, p)
  {
    var at := offset + done;
    var n := Chunk(at, |data| - done);
    ChunkBlock(at, n, p);
    assert ByteAt(d, slots, p) == if offset <= p < offset + done then data[p - offset] else ByteAt(d0, slots, p);
  }

  // ----- writeFile

  /** struct open_file, as far as reading and writing use it. */
  class OpenFile {
    var offset: nat

    constructor (offset: nat)
      ensures this.offset == offset
    {
      this.offset := offset;
    }
  }

  /** The inode after allocBlock has found it a block. */
  ghost function WithBlock(d: Blocks, ino: Inode): Inode
    requires FreeSlot(ino.blockNo, 0) < MAX_BLOCKS
  {
    ino.(blockNo := ino.blockNo[FreeSlot(ino.blockNo, 0) := FirstClear(d[BITMAP], 0)])
  }

  /** The disk after a round of writeFile on an empty slot. */
  ghost function HoleRound(d: Blocks, o: nat, chunk: seq<byte>): Blocks
    requires BitmapOk(d) && o + |chunk| <= BLOCK_SIZE
  {
    FreshIffRoom(d);
    HandedOut(d, FirstClear(d[BITMAP], 0))[0 := Splice(d[0], o, chunk)]
  }

  /** What a round of writeFile with the given chunk makes of disk d and the inode. */
  ghost predicate ChunkWritten(d: Blocks, d': Blocks, ino: Inode, ino': Inode, at: nat, chunk: seq<byte>) {
    && at / BLOCK_SIZE < MAX_BLOCKS && ino.blockNo[at / BLOCK_SIZE] < TOTAL_BLOCKS && at % BLOCK_SIZE + |chunk| <= BLOCK_SIZE
    && var b, o := ino.blockNo[at / BLOCK_SIZE], at % BLOCK_SIZE;
    if b != 0 then ino' == ino && d' == d[b := Splice(d[b], o, chunk)]
    else BitmapOk(d) && FreeSlot(ino.blockNo, 0) < MAX_BLOCKS && ino' == WithBlock(d, ino) && d' == HoleRound(d, o, chunk)
  }

  /** One round of writeFile. If the slot is empty a block is allocated for the first empty
      slot, but the block number read before is not read again: the chunk then goes into
      block 0, the superblock, and the new block stays empty. */
  method WriteChunk(disk: Disk, ino: Inode, offset: nat, chunk: seq<byte>) returns (ino': Inode)
    requires disk.Valid() && offset / BLOCK_SIZE < MAX_BLOCKS && ino.blockNo[offset / BLOCK_SIZE] < TOTAL_BLOCKS
    requires offset % BLOCK_SIZE + |chunk| <= BLOCK_SIZE
    requires ino.blockNo[offset / BLOCK_SIZE] == 0 ==> BitmapOk(disk.Now())
    modifies disk.blocks
    ensures ChunkWritten(old(disk.Now()), disk.Now(), ino, ino', offset, chunk)
  {
    ino' := ino;
    var blockNo := ino.blockNo[offset / BLOCK_SIZE];
    if blockNo == 0 {
      FreshIffRoom(disk.Now());
      var ignored;
      ignored, ino' := AllocBlock(disk, ino);
    }
    var arr := disk.ReadBlock(blockNo);
    arr := Splice(arr, offset % BLOCK_SIZE, chunk);
    disk.WriteBlock(arr, blockNo);
  }

  /** A round leaves the superblock alone if and only if the slot is in use, or the chunk
      is what the superblock holds in that place anyway. */
  lemma SuperblockKeptIff(d: Blocks, d': Blocks, b: nat, o: nat, chunk: seq<byte>)
    requires b < TOTAL_BLOCKS && o + |chunk| <= BLOCK_SIZE && (b == 0 ==> BitmapOk(d))
    requires d' == if b != 0 then d[b := Splice(d[b], o, chunk)] else HoleRound(d, o, chunk)
    ensures d'[0] == d[0] <==> b != 0 || chunk == Slice(d[0], o, |chunk|)
  {
    SpliceKeptIff(d[0], o, chunk);
  }

  lemma SpliceKeptIff(b: Block, o: nat, chunk: seq<byte>)
    requires o + |chunk| <= BLOCK_SIZE
    ensures Splice(b, o, chunk) == b <==> chunk == Slice(b, o, |chunk|)
  {
    SliceOfSplice(b, o, chunk, o, |chunk|);
    if chunk == Slice(b, o, |chunk|) {
      var r := Splice(b, o, chunk);
      forall k | 0 <= k < BLOCK_SIZE
        ensures r[k] == b[k]
      {
        if o <= k < o + |chunk| {
          assert chunk[k - o] == Slice(b, o, |chunk|)[k - o];
        }
      }
    }
  }

  lemma WrittenNone(d: Blocks, slots: Slots, offset: nat, data: seq<byte>)
    requires offset + |data| <= MAX_BLOCKS * BLOCK_SIZE
    ensures Written(d, d, slots, offset, data, 0)
  {
  }

  /** The last slot that a write reaches. */
  function LastSlot(offset: nat, size: nat): (k: nat)
    requires 0 < size && offset + size <= MAX_BLOCKS * BLOCK_SIZE
    ensures k < MAX_BLOCKS && k * BLOCK_SIZE < offset + size <= (k + 1) * BLOCK_SIZE
  {
    (offset + size - 1) / BLOCK_SIZE
  }

  /** How much of a write comes before the last slot it reaches if that slot is empty;
      otherwise all of it. */
  function Head(slots: Slots, offset: nat, size: nat): (h: nat)
    requires offset + size <= MAX_BLOCKS * BLOCK_SIZE
    ensures h <= size
  {
    if size == 0 || slots[LastSlot(offset, size)] != 0 then size
    else if LastSlot(offset, size) * BLOCK_SIZE <= offset then 0
    else LastSlot(offset, size) * BLOCK_SIZE - offset
  }

  /** The bitmap is sound and the slots in use name busy data blocks. */
  ghost predicate Sane(d: Blocks, slots: Slots) {
    && BitmapOk(d)
    && forall k :: 0 <= k < MAX_BLOCKS && slots[k] != 0 ==> FIRST_DATA <= slots[k] <= FILE_SYS_BLOCKS && Busy(d[BITMAP], slots[k])
  }

  /** The disk and the inode after a write whose last slot was empty: the head is written;
      then a block is handed out, and the tail lands in block 0. */
  ghost predicate IntoHole(d0: Blocks, d: Blocks, ino: Inode, ino': Inode, offset: nat, data: seq<byte>, h: nat) {
    && h < |data| && offset + |data| <= MAX_BLOCKS * BLOCK_SIZE
    && (offset + h) % BLOCK_SIZE + (|data| - h) <= BLOCK_SIZE
    && FreeSlot(ino.blockNo, 0) < MAX_BLOCKS && ino' == WithBlock(d0, ino)
    && exists d1 :: HeadWritten(d0, d1, ino.blockNo, offset, data, h) && d == HoleRound(d1, (offset + h) % BLOCK_SIZE, data[h..])
  }

  /** The disk after the head: superblock and bitmap are still what they were. */
  ghost predicate HeadWritten(d0: Blocks, d1: Blocks, slots: Slots, offset: nat, data: seq<byte>, h: nat) {
    && h <= |data| && BitmapOk(d1) && d1[0] == d0[0] && d1[BITMAP] == d0[BITMAP]
    && Written(d0, d1, slots, offset, data[..h], h)
  }

  lemma HeadKeeps(d0: Blocks, d1: Blocks, slots: Slots, offset: nat, data: seq<byte>, h: nat)
    requires h <= |data| && offset + |data| <= MAX_BLOCKS * BLOCK_SIZE && Sane(d0, slots)
    requires Allocated(slots, offset, offset + h) && Written(d0, d1, slots, offset, data[..h], h)
    ensures HeadWritten(d0, d1, slots, offset, data, h)
  {
    if h > 0 {
      TouchesData(d0, slots, offset, h, 0);
      TouchesData(d0, slots, offset, h, BITMAP);
    }
  }

  lemma TouchesData(d: Blocks, slots: Slots, offset: nat, size: nat, b: nat)
    requires offset + size <= MAX_BLOCKS * BLOCK_SIZE && size > 0 && b < FIRST_DATA
    requires Sane(d, slots) && Allocated(slots, offset, offset + size)
    ensures !Touches(slots, offset, size, b)
  {
    forall k: nat | offset / BLOCK_SIZE <= k && k * BLOCK_SIZE < offset + size
      ensures slots[k] != b
    {
      assert 0 < slots[k];
    }
  }

  /** Before the last slot the rounds are those of a write of the head alone. */
  lemma HeadChunk(slots: Slots, offset: nat, size: nat, done: nat)
    requires offset + size <= MAX_BLOCKS * BLOCK_SIZE && done < Head(slots, offset, size)
    ensures Chunk(offset + done, size - done) == Chunk(offset + done, Head(slots, offset, size) - done)
  {
    var h := Head(slots, offset, size);
    if h < size {
      assert (offset + h) % BLOCK_SIZE == 0;
      BoundaryRoom(offset + done, offset + h);
    }
  }

  lemma BoundaryRoom(at: nat, boundary: nat)
    requires at < boundary && boundary % BLOCK_SIZE == 0
    ensures BLOCK_SIZE - at % BLOCK_SIZE <= boundary - at
  {
    var i, n := at / BLOCK_SIZE, boundary / BLOCK_SIZE;
    assert at == i * BLOCK_SIZE + at % BLOCK_SIZE && boundary == n * BLOCK_SIZE;
    assert i < n;
  }

  /** The tail is one chunk, in the last slot. */
  lemma TailChunk(slots: Slots, offset: nat, size: nat)
    requires offset + size <= MAX_BLOCKS * BLOCK_SIZE && Head(slots, offset, size) < size
    ensures var h := Head(slots, offset, size);
      && (offset + h) / BLOCK_SIZE == LastSlot(offset, size) && slots[LastSlot(offset, size)] == 0
      && (offset + h) % BLOCK_SIZE + (size - h) <= BLOCK_SIZE
      && Chunk(offset + h, size - h) == size - h
  {
    var h, k := Head(slots, offset, size), LastSlot(offset, size);
    assert k * BLOCK_SIZE <= offset + h < (k + 1) * BLOCK_SIZE;
    assert (offset + h) / BLOCK_SIZE == k && (offset + h) % BLOCK_SIZE == offset + h - k * BLOCK_SIZE;
  }

  /** What holds after the first start bytes have been dealt with. */
  ghost predicate WriteState(d0: Blocks, d: Blocks, ino: Inode, ino': Inode, offset: nat, data: seq<byte>, start: nat)
    requires offset + |data| <= MAX_BLOCKS * BLOCK_SIZE
  {
    var h := Head(ino.blockNo, offset, |data|);
    if start <= h then ino' == ino && Written(d0, d, ino.blockNo, offset, data[..h], start)
    else start == |data| && IntoHole(d0, d, ino, ino', offset, data, h)
  }

  lemma HeadStep(d0: Blocks, d: Blocks, d': Blocks, slots: Slots, offset: nat, data: seq<byte>, start: nat)
    requires offset + |data| <= MAX_BLOCKS * BLOCK_SIZE && start < Head(slots, offset, |data|)
    requires Written(d0, d, slots, offset, data[..Head(slots, offset, |data|)], start)
    requires Allocated(slots, offset, offset + Head(slots, offset, |data|)) && Separate(slots)
    requires var at := offset + start;
      var b := slots[at / BLOCK_SIZE];
      b < TOTAL_BLOCKS && d' == d[b := Splice(d[b], at % BLOCK_SIZE, data[start..start + Chunk(at, |data| - start)])]
    ensures Written(d0, d', slots, offset, data[..Head(slots, offset, |data|)], start + Chunk(offset + start, |data| - start))
  {
    var h := Head(slots, offset, |data|);
    HeadChunk(slots, offset, |data|, start);
    WriteRound(d0, d, slots, offset, data[..h], start);
    var left := Chunk(offset + start, |data| - start);
    assert data[start..start + left] == data[..h][start..start + left];
    assert d' == AfterRound(d, slots, offset, data[..h], start);
  }

  lemma TailStep(d0: Blocks, d: Blocks, d': Blocks, ino: Inode, ino': Inode, offset: nat, data: seq<byte>, h: nat)
    requires offset + |data| <= MAX_BLOCKS * BLOCK_SIZE && h == Head(ino.blockNo, offset, |data|) < |data|
    requires HeadWritten(d0, d, ino.blockNo, offset, data, h) && FreeSlot(ino.blockNo, 0) < MAX_BLOCKS
    requires (offset + h) % BLOCK_SIZE + (|data| - h) <= BLOCK_SIZE
    requires d' == HoleRound(d, (offset + h) % BLOCK_SIZE, data[h..]) && ino' == WithBlock(d, ino)
    ensures WriteState(d0, d', ino, ino', offset, data, |data|)
  {
  }

  /** Before a round the inode is unchanged; the round meets an empty slot exactly when the
      head is done. */
  lemma NextReady(d0: Blocks, d: Blocks, ino0: Inode, ino: Inode, offset: nat, data: seq<byte>, start: nat)
    requires start < |data| && offset + |data| <= MAX_BLOCKS * BLOCK_SIZE
    requires WriteState(d0, d, ino0, ino, offset, data, start)
    requires Allocated(ino0.blockNo, offset, offset + Head(ino0.blockNo, offset, |data|))
    requires Head(ino0.blockNo, offset, |data|) < |data| ==> Sane(d0, ino0.blockNo)
    ensures ino == ino0 && start <= Head(ino0.blockNo, offset, |data|)
    ensures var k := (offset + start) / BLOCK_SIZE;
      k < MAX_BLOCKS && ino.blockNo[k] < TOTAL_BLOCKS && (ino.blockNo[k] == 0 <==> start == Head(ino0.blockNo, offset, |data|))
    ensures start == Head(ino0.blockNo, offset, |data|) ==>
              && BitmapOk(d) && HeadWritten(d0, d, ino0.blockNo, offset, data, start)
              && Chunk(offset + start, |data| - start) == |data| - start
  {
    var h := Head(ino0.blockNo, offset, |data|);
    if start < h {
      SlotOf(ino0.blockNo, offset, h, start);
    } else {
      TailChunk(ino0.blockNo, offset, |data|);
      HeadKeeps(d0, d, ino0.blockNo, offset, data, h);
    }
  }

  lemma NextState(d0: Blocks, d: Blocks, d': Blocks, ino: Inode, ino': Inode, offset: nat, data: seq<byte>, start: nat)
    requires offset + |data| <= MAX_BLOCKS * BLOCK_SIZE && start < |data| && start <= Head(ino.blockNo, offset, |data|)
    requires WriteState(d0, d, ino, ino, offset, data, start) && Separate(ino.blockNo)
    requires Allocated(ino.blockNo, offset, offset + Head(ino.blockNo, offset, |data|))
    requires ChunkWritten(d, d', ino, ino', offset + start, data[start..start + Chunk(offset + start, |data| - start)])
    requires ino.blockNo[(offset + start) / BLOCK_SIZE] == 0 <==> start == Head(ino.blockNo, offset, |data|)
    requires start == Head(ino.blockNo, offset, |data|) ==>
               HeadWritten(d0, d, ino.blockNo, offset, data, start) && Chunk(offset + start, |data| - start) == |data| - start
    ensures WriteState(d0, d', ino, ino', offset, data, start + Chunk(offset + start, |data| - start))
  {
    if start < Head(ino.blockNo, offset, |data|) {
      HeadStep(d0, d, d', ino.blockNo, offset, data, start);
      HeadChunk(ino.blockNo, offset, |data|, start);
      assert start + Chunk(offset + start, |data| - start) <= Head(ino.blockNo, offset, |data|);
    } else {
      LastChunk(d, d', ino, ino', offset, data, start);
      TailStep(d0, d, d', ino, ino', offset, data, start);
    }
  }

  lemma LastChunk(d: Blocks, d': Blocks, ino: Inode, ino': Inode, offset: nat, data: seq<byte>, h: nat)
    requires h < |data| && Chunk(offset + h, |data| - h) == |data| - h
    requires ChunkWritten(d, d', ino, ino', offset + h, data[h..h + Chunk(offset + h, |data| - h)])
    requires ino.blockNo[(offset + h) / BLOCK_SIZE] == 0
    ensures BitmapOk(d) && FreeSlot(ino.blockNo, 0) < MAX_BLOCKS && (offset + h) % BLOCK_SIZE + (|data| - h) <= BLOCK_SIZE
    ensures d' == HoleRound(d, (offset + h) % BLOCK_SIZE, data[h..]) && ino' == WithBlock(d, ino)
  {
    assert data[h..|data|] == data[h..];
  }

  lemma NextStep(d0: Blocks, d: Blocks, d': Blocks, ino0: Inode, ino: Inode, ino': Inode, offset: nat, data: seq<byte>, start: nat)
    requires start < |data| && offset + |data| <= MAX_BLOCKS * BLOCK_SIZE && Separate(ino0.blockNo)
    requires WriteState(d0, d, ino0, ino, offset, data, start)
    requires Allocated(ino0.blockNo, offset, offset + Head(ino0.blockNo, offset, |data|))
    requires Head(ino0.blockNo, offset, |data|) < |data| ==> Sane(d0, ino0.blockNo)
    requires ChunkWritten(d, d', ino, ino', offset + start, data[start..start + Chunk(offset + start, |data| - start)])
    ensures WriteState(d0, d', ino0, ino', offset, data, start + Chunk(offset + start, |data| - start))
  {
    NextReady(d0, d, ino0, ino, offset, data, start);
    NextState(d0, d, d', ino0, ino', offset, data, start);
  }

  /** prefix is a part of the data that a write could have in its own right: all of it, or
      up to the end of a block. */
  ghost predicate WholeBlocks(offset: nat, data: seq<byte>, prefix: seq<byte>) {
    prefix <= data && (|prefix| == |data| || (offset + |prefix|) % BLOCK_SIZE == 0)
  }

  /** The rounds up to the end of a block are those of a write that ends there. */
  lemma PrefixChunk(offset: nat, data: seq<byte>, prefix: seq<byte>, done: nat)
    requires WholeBlocks(offset, data, prefix) && done < |prefix|
    ensures var left := Chunk(offset + done, |data| - done);
      && left == Chunk(offset + done, |prefix| - done)
      && data[done..done + left] == prefix[done..done + left]
  {
    if |prefix| < |data| {
      BoundaryRoom(offset + done, offset + |prefix|);
    }
  }

  /** One round of writeFile's loop, seen as a round of the write of a prefix. */
  method WriteNext(disk: Disk, ino: Inode, offset: nat, data: seq<byte>, start: nat, ghost prefix: seq<byte>, ghost d0: Blocks, ghost ino0: Inode)
    returns (ino': Inode, left: nat)
    requires disk.Valid() && WholeBlocks(offset, data, prefix) && start < |prefix| && offset + |data| <= MAX_BLOCKS * BLOCK_SIZE
    requires WriteState(d0, disk.Now(), ino0, ino, offset, prefix, start)
    requires Allocated(ino0.blockNo, offset, offset + Head(ino0.blockNo, offset, |prefix|)) && Separate(ino0.blockNo)
    requires Head(ino0.blockNo, offset, |prefix|) < |prefix| ==> Sane(d0, ino0.blockNo)
    modifies disk.blocks
    ensures 0 < left <= |prefix| - start
    ensures WriteState(d0, disk.Now(), ino0, ino', offset, prefix, start + left)
  {
    ghost var d := disk.Now();
    NextReady(d0, d, ino0, ino, offset, prefix, start);
    left := Chunk(offset + start, |data| - start);
    ino' := WriteChunk(disk, ino, offset + start, data[start..start + left]);
    PrefixStep(d0, d, disk.Now(), ino0, ino, ino', offset, data, prefix, start, left);
  }

  lemma PrefixStep(d0: Blocks, d: Blocks, d': Blocks, ino0: Inode, ino: Inode, ino': Inode, offset: nat, data: seq<byte>, prefix: seq<byte>, start: nat, left: nat)
    requires WholeBlocks(offset, data, prefix) && start < |prefix| && offset + |data| <= MAX_BLOCKS * BLOCK_SIZE
    requires WriteState(d0, d, ino0, ino, offset, prefix, start) && Separate(ino0.blockNo)
    requires Allocated(ino0.blockNo, offset, offset + Head(ino0.blockNo, offset, |prefix|))
    requires Head(ino0.blockNo, offset, |prefix|) < |prefix| ==> Sane(d0, ino0.blockNo)
    requires left == Chunk(offset + start, |data| - start) && ChunkWritten(d, d', ino, ino', offset + start, data[start..start + left])
    ensures left <= |prefix| - start && WriteState(d0, d', ino0, ino', offset, prefix, start + left)
  {
    PrefixChunk(offset, data, prefix, start);
    NextStep(d0, d, d', ino0, ino, ino', offset, prefix, start);
  }

  /** The rounds of writeFile's loop that write the first n bytes, n being all of them or
      the end of a block: they leave what a write of these n bytes leaves. */
  method WriteRounds(disk: Disk, ino: Inode, offset: nat, data: seq<byte>, n: nat) returns (ino': Inode)
    requires disk.Valid() && n <= |data| && offset + |data| <= MAX_BLOCKS * BLOCK_SIZE && Separate(ino.blockNo)
    requires n == |data| || (offset + n) % BLOCK_SIZE == 0
    requires Allocated(ino.blockNo, offset, offset + Head(ino.blockNo, offset, n))
    requires Head(ino.blockNo, offset, n) < n ==> Sane(disk.Now(), ino.blockNo)
    modifies disk.blocks
    ensures WriteState(old(disk.Now()), disk.Now(), ino, ino', offset, data[..n], n)
  {
    ghost var d0, h := disk.Now(), Head(ino.blockNo, offset, n);
    ino' := ino;
    var start := 0;
    WrittenNone(d0, ino.blockNo, offset, data[..n][..h]);
    while start < n
      invariant start <= n
      invariant WriteState(d0, disk.Now(), ino, ino', offset, data[..n], start)
    {
      var left;
      ino', left := WriteNext(disk, ino', offset, data, start, data[..n], d0, ino);
      start := start + left;
    }
  }

  /** writeFile, for a range in which at most the last slot reached is empty. If none is,
      the data lands at the file's offset and nothing else in the file or on the disk
      changes. Otherwise the tail lands in the superblock. Either way the call reports
      success and the offset moves on. A write that would pass the end of the 20 slots is
      refused. */
  method WriteFile(disk: Disk, file: OpenFile, ino: Inode, data: seq<byte>) returns (r: int, ino': Inode)
    requires disk.Valid() && file.offset + |data| < 0x1_0000_0000 && Separate(ino.blockNo)
    requires file.offset + |data| <= MAX_BLOCKS * BLOCK_SIZE ==>
      var h := Head(ino.blockNo, file.offset, |data|);
      Allocated(ino.blockNo, file.offset, file.offset + h) && (h < |data| ==> Sane(disk.Now(), ino.blockNo))
    modifies disk.blocks, file
    ensures old(file.offset) + |data| > MAX_BLOCKS * BLOCK_SIZE ==>
              r == -1 && ino' == ino && disk.Now() == old(disk.Now()) && file.offset == old(file.offset)
    ensures old(file.offset) + |data| <= MAX_BLOCKS * BLOCK_SIZE ==>
              && r == 0 && file.offset == old(file.offset) + |data|
              && var h := Head(ino.blockNo, old(file.offset), |data|);
              if h == |data| then ino' == ino && Written(old(disk.Now()), disk.Now(), ino.blockNo, old(file.offset), data, |data|)
              else IntoHole(old(disk.Now()), disk.Now(), ino, ino', old(file.offset), data, h)
  {
    var offset := file.offset;
    ino' := ino;
    if offset + |data| > MAX_BLOCKS * BLOCK_SIZE {
      return -1, ino;
    }
    assert data[..|data|] == data;
    ino' := WriteRounds(disk, ino, offset, data, |data|);
    assert data[..Head(ino.blockNo, offset, |data|)] == data || Head(ino.blockNo, offset, |data|) < |data|;
    file.offset := file.offset + |data|;
    r := 0;
  }

  // ----- the flat file

  /** The bytes of the first n slots, one block after the other. */
  function Flat(d: Blocks, slots: Slots, n: nat): (s: seq<byte>)
    requires n <= MAX_BLOCKS && forall k :: 0 <= k < n ==> slots[k] < TOTAL_BLOCKS
    ensures |s| == n * BLOCK_SIZE
    ensures forall p: nat :: p < n * BLOCK_SIZE ==> s[p] == ByteAt(d, slots, p)
  {
    seq(n * BLOCK_SIZE, p requires 0 <= p < n * BLOCK_SIZE => ByteAt(d, slots, p))
  }

  /** A write replaces exactly its range of the flat file. */
  lemma WriteIsFlat(d0: Blocks, d: Blocks, slots: Slots, offset: nat, data: seq<byte>, n: nat)
    requires Written(d0, d, slots, offset, data, |data|)
    requires n <= MAX_BLOCKS && (forall k :: 0 <= k < n ==> 0 < slots[k] < TOTAL_BLOCKS) && offset + |data| <= n * BLOCK_SIZE
    ensures Flat(d, slots, n) == Flat(d0, slots, n)[..offset] + data + Flat(d0, slots, n)[offset + |data|..]
  {
    var f, f0 := Flat(d, slots, n), Flat(d0, slots, n);
    var g := f0[..offset] + data + f0[offset + |data|..];
    assert |g| == |f|;
    forall p | 0 <= p < |f|
      ensures f[p] == g[p]
    {
      assert f[p] == ByteAt(d, slots, p) && f0[p] == ByteAt(d0, slots, p);
    }
  }

  // ----- read_file_at_offset

  /** Of the 20 slots, those that the bytes from..to reach are not empty. */
  ghost predicate NoHole(slots: Slots, from: nat, to: nat) {
    from < to ==> forall k: nat :: k < MAX_BLOCKS && from / BLOCK_SIZE <= k && k * BLOCK_SIZE < to ==> slots[k] != 0
  }

  /** The first done bytes from offset on are in the buffer. */
  ghost predicate ReadSoFar(d: Blocks, slots: Slots, offset: nat, buf: seq<byte>, done: nat)
    requires forall k :: 0 <= k < MAX_BLOCKS ==> slots[k] < TOTAL_BLOCKS
  {
    && done <= |buf| && (done > 0 ==> offset + done <= MAX_BLOCKS * BLOCK_SIZE)
    && forall k :: 0 <= k < done ==> buf[k] == ByteAt(d, slots, offset + k)
  }

  /** memmov(arr + o, buf + start, n) */
  method CopyOut(arr: Block, o: nat, buf: array<byte>, start: nat, n: nat)
    requires o + n <= BLOCK_SIZE && start + n <= buf.Length
    modifies buf
    ensures forall k :: 0 <= k < buf.Length ==> buf[k] == if start <= k < start + n then arr[o + (k - start)] else old(buf[k])
  {
    for i := 0 to n
      invariant forall k :: 0 <= k < buf.Length ==> buf[k] == if start <= k < start + i then arr[o + (k - start)] else old(buf[k])
    {
      buf[start + i] := arr[o + i];
    }
  }

  lemma ReadRound(d: Blocks, slots: Slots, offset: nat, buf: seq<byte>, buf': seq<byte>, done: nat, size: nat)
    requires forall k :: 0 <= k < MAX_BLOCKS ==> slots[k] < TOTAL_BLOCKS
    requires ReadSoFar(d, slots, offset, buf, done) && done < size <= |buf| == |buf'|
    requires var at := offset + done;
      var n := Chunk(at, size - done);
      at / BLOCK_SIZE < MAX_BLOCKS &&
      forall k :: 0 <= k < |buf| ==>
        buf'[k] == if done <= k < done + n then d[slots[at / BLOCK_SIZE]][at % BLOCK_SIZE + (k - done)] else buf[k]
    ensures ReadSoFar(d, slots, offset, buf', done + Chunk(offset + done, size - done))
  {
    var at := offset + done;
    var n := Chunk(at, size - done);
    forall k | 0 <= k < done + n
      ensures buf'[k] == ByteAt(d, slots, offset + k)
    {
      if k >= done {
        ChunkBlock(at, n, offset + k);
        assert (offset + k) % BLOCK_SIZE == at % BLOCK_SIZE + (k - done);
      }
    }
  }

  /** If the slots met so far are in use and not all of the range can be, the next byte is
      in one of the 20 slots. */
  lemma SlotLeft(slots: Slots, offset: nat, size: nat, done: nat)
    requires done < size && NoHole(slots, offset, offset + done)
    requires done == 0 || (offset + done) % BLOCK_SIZE == 0
    requires offset + size > MAX_BLOCKS * BLOCK_SIZE ==> !NoHole(slots, offset, offset + size)
    ensures (offset + done) / BLOCK_SIZE < MAX_BLOCKS
  {
  }

  /** read_file_at_offset: -1 when the offset lies behind the file's size or the range
      meets an empty slot; otherwise exactly the bytes of the range. Bytes of the buffer
      behind the range are not touched. The size is compared with the offset alone, so the
      last byte returned can lie behind the end of the file. A range that would run past
      the 20 slots has to meet an empty one first, because the code does not count them. */
  method ReadFileAtOffset(disk: Disk, ino: Inode, offset: nat, buf: array<byte>, size: nat) returns (r: int)
    requires disk.Valid() && size <= buf.Length
    requires offset <= ino.size && size > 0 && offset + size > MAX_BLOCKS * BLOCK_SIZE ==> !NoHole(ino.blockNo, offset, offset + size)
    requires forall k :: 0 <= k < MAX_BLOCKS ==> ino.blockNo[k] < TOTAL_BLOCKS
    modifies buf
    ensures r == -1 <==> offset > ino.size || !NoHole(ino.blockNo, offset, offset + size)
    ensures r != -1 ==> r == size && ReadSoFar(disk.Now(), ino.blockNo, offset, buf[..], size)
    ensures r > 0 && offset + (r - 1) >= ino.size <==> offset <= ino.size < offset + size && NoHole(ino.blockNo, offset, offset + size)
    ensures forall k :: size <= k < buf.Length ==> buf[k] == old(buf[k])
  {
    if offset > ino.size {
      return -1;
    }
    ghost var d := disk.Now();
    var done := 0;
    while done < size
      invariant done <= size && disk.Now() == d
      invariant ReadSoFar(d, ino.blockNo, offset, buf[..], done)
      invariant NoHole(ino.blockNo, offset, offset + done)
      invariant done == size || done == 0 || (offset + done) % BLOCK_SIZE == 0
      invariant forall k :: size <= k < buf.Length ==> buf[k] == old(buf[k])
    {
      ghost var before := buf[..];
      var at := offset + done;
      var index := at / BLOCK_SIZE;
      SlotLeft(ino.blockNo, offset, size, done);
      var blockNo := ino.blockNo[index];
      if blockNo == 0 {
        assert offset / BLOCK_SIZE <= index && index * BLOCK_SIZE < offset + size;
        return -1;
      }
      var arr := disk.ReadBlock(blockNo);
      var left := Chunk(at, size - done);
      CopyOut(arr, at % BLOCK_SIZE, buf, done, left);
      ReadRound(d, ino.blockNo, offset, before, buf[..], done, size);
      SameBlock(at, left);
      done := done + left;
    }
    r := size;
  }

  /** The blocks that start before the end of a chunk start before it or hold it. */
  lemma SameBlock(at: nat, n: nat)
    requires at % BLOCK_SIZE + n <= BLOCK_SIZE && n > 0
    ensures forall k: nat :: k * BLOCK_SIZE < at + n ==> k * BLOCK_SIZE < at || k == at / BLOCK_SIZE
  {
    var i := at / BLOCK_SIZE;
    assert at == i * BLOCK_SIZE + at % BLOCK_SIZE;
  }

  // ----- writing, then reading

  /** What a round on an empty slot leaves: the new block is empty, and apart from the
      superblock and the bitmap nothing else has changed. */
  lemma HoleBlocks(d: Blocks, o: nat, chunk: seq<byte>)
    requires BitmapOk(d) && o + |chunk| <= BLOCK_SIZE
    ensures var c, d' := FirstClear(d[BITMAP], 0), HoleRound(d, o, chunk);
      && FIRST_DATA <= c <= FILE_SYS_BLOCKS + 1 && !Busy(d[BITMAP], c)
      && d'[0] == Splice(d[0], o, chunk) && d'[c] == ZeroBlock()
      && forall b :: 0 < b < TOTAL_BLOCKS && b != c && b != BITMAP ==> d'[b] == d[b]
  {
    FreshIffRoom(d);
    HandedOutOk(d);
  }

  /** Byte p of the file is v. */
  predicate FileByte(d: Blocks, slots: Slots, p: nat, v: byte) {
    p < MAX_BLOCKS * BLOCK_SIZE && 0 < slots[p / BLOCK_SIZE] < TOTAL_BLOCKS && ByteAt(d, slots, p) == v
  }

  /** The head of the write is in the file. */
  lemma HoleHead(d0: Blocks, d: Blocks, ino: Inode, ino': Inode, offset: nat, data: seq<byte>, h: nat, k: nat)
    requires offset + |data| <= MAX_BLOCKS * BLOCK_SIZE && k < h
    requires Sane(d0, ino.blockNo) && Allocated(ino.blockNo, offset, offset + h)
    requires IntoHole(d0, d, ino, ino', offset, data, h)
    ensures FileByte(d, ino'.blockNo, offset + k, data[k])
  {
    var d1 := AfterHead(d0, d, ino, ino', offset, data, h);
    HeadByte(d0, d1, d, ino, ino', offset, data, h, k);
  }

  /** The tail is not. If the block went into the slot where the tail belongs, the file
      holds zeros there; if it went into an earlier empty slot, the slot is still empty. */
  lemma HoleTail(d0: Blocks, d: Blocks, ino: Inode, ino': Inode, offset: nat, data: seq<byte>, h: nat, k: nat)
    requires offset + |data| <= MAX_BLOCKS * BLOCK_SIZE && h == Head(ino.blockNo, offset, |data|) <= k < |data|
    requires IntoHole(d0, d, ino, ino', offset, data, h)
    ensures (offset + k) / BLOCK_SIZE == LastSlot(offset, |data|)
    ensures FreeSlot(ino.blockNo, 0) == LastSlot(offset, |data|) ==> FileByte(d, ino'.blockNo, offset + k, 0)
    ensures FreeSlot(ino.blockNo, 0) != LastSlot(offset, |data|) ==> ino'.blockNo[LastSlot(offset, |data|)] == 0
  {
    var d1 := AfterHead(d0, d, ino, ino', offset, data, h);
    TailChunk(ino.blockNo, offset, |data|);
    TailSlot(offset, |data|, h, offset + k);
    TailByte(d0, d, ino, ino', offset + k, LastSlot(offset, |data|));
  }

  /** The disk between head and tail. */
  lemma AfterHead(d0: Blocks, d: Blocks, ino: Inode, ino': Inode, offset: nat, data: seq<byte>, h: nat) returns (d1: Blocks)
    requires IntoHole(d0, d, ino, ino', offset, data, h)
    ensures HeadWritten(d0, d1, ino.blockNo, offset, data, h)
    ensures var c := FirstClear(d0[BITMAP], 0);
      && FIRST_DATA <= c <= FILE_SYS_BLOCKS + 1 && !Busy(d0[BITMAP], c) && d[c] == ZeroBlock()
      && forall b :: 0 < b < TOTAL_BLOCKS && b != c && b != BITMAP ==> d[b] == d1[b]
  {
    d1 :| HeadWritten(d0, d1, ino.blockNo, offset, data, h) && d == HoleRound(d1, (offset + h) % BLOCK_SIZE, data[h..]);
    HoleBlocks(d1, (offset + h) % BLOCK_SIZE, data[h..]);
  }

  lemma TailByte(d0: Blocks, d: Blocks, ino: Inode, ino': Inode, p: nat, q: nat)
    requires FreeSlot(ino.blockNo, 0) < MAX_BLOCKS && ino' == WithBlock(d0, ino)
    requires p / BLOCK_SIZE == q < MAX_BLOCKS && ino.blockNo[q] == 0
    requires var c := FirstClear(d0[BITMAP], 0); 0 < c < TOTAL_BLOCKS && d[c] == ZeroBlock()
    ensures FreeSlot(ino.blockNo, 0) == q ==> FileByte(d, ino'.blockNo, p, 0)
    ensures FreeSlot(ino.blockNo, 0) != q ==> ino'.blockNo[q] == 0
  {
  }

  lemma HeadByte(d0: Blocks, d1: Blocks, d: Blocks, ino: Inode, ino': Inode, offset: nat, data: seq<byte>, h: nat, k: nat)
    requires h <= |data| && offset + |data| <= MAX_BLOCKS * BLOCK_SIZE && k < h
    requires Sane(d0, ino.blockNo) && Allocated(ino.blockNo, offset, offset + h) && HeadWritten(d0, d1, ino.blockNo, offset, data, h)
    requires FreeSlot(ino.blockNo, 0) < MAX_BLOCKS && ino' == WithBlock(d0, ino)
    requires var c := FirstClear(d0[BITMAP], 0);
      c < BITS && !Busy(d0[BITMAP], c) && forall b :: 0 < b < TOTAL_BLOCKS && b != c && b != BITMAP ==> d[b] == d1[b]
    ensures FileByte(d, ino'.blockNo, offset + k, data[k])
  {
    SlotOf(ino.blockNo, offset, h, k);
    assert ByteAt(d1, ino.blockNo, offset + k) == data[..h][k];
  }

  lemma TailSlot(offset: nat, size: nat, h: nat, p: nat)
    requires h < size && offset + size <= MAX_BLOCKS * BLOCK_SIZE && offset + h <= p < offset + size
    requires (offset + h) / BLOCK_SIZE == LastSlot(offset, size)
    ensures p / BLOCK_SIZE == LastSlot(offset, size)
  {
  }

  /** The superblock survives the call if and only if no empty slot is reached, or the tail
      is what it holds in that place. */
  lemma WriteKeepsSuperblockIff(d0: Blocks, d: Blocks, ino: Inode, ino': Inode, offset: nat, data: seq<byte>)
    requires offset + |data| <= MAX_BLOCKS * BLOCK_SIZE && Sane(d0, ino.blockNo)
    requires var h := Head(ino.blockNo, offset, |data|);
      && Allocated(ino.blockNo, offset, offset + h)
      && if h == |data| then Written(d0, d, ino.blockNo, offset, data, |data|) else IntoHole(d0, d, ino, ino', offset, data, h)
    ensures var h := Head(ino.blockNo, offset, |data|);
      var o := (offset + h) % BLOCK_SIZE;
      d[0] == d0[0] <==> h == |data| || (o + (|data| - h) <= BLOCK_SIZE && data[h..] == Slice(d0[0], o, |data| - h))
  {
    var h := Head(ino.blockNo, offset, |data|);
    if h == |data| {
      AllWritten(d0, d, ino.blockNo, offset, data);
    } else {
      TailInSuperblock(d0, d, ino, ino', offset, data, h);
    }
  }

  lemma AllWritten(d0: Blocks, d: Blocks, slots: Slots, offset: nat, data: seq<byte>)
    requires offset + |data| <= MAX_BLOCKS * BLOCK_SIZE && Sane(d0, slots)
    requires Allocated(slots, offset, offset + |data|) && Written(d0, d, slots, offset, data, |data|)
    ensures d[0] == d0[0]
  {
    assert data[..|data|] == data;
    HeadKeeps(d0, d, slots, offset, data, |data|);
  }

  lemma TailInSuperblock(d0: Blocks, d: Blocks, ino: Inode, ino': Inode, offset: nat, data: seq<byte>, h: nat)
    requires IntoHole(d0, d, ino, ino', offset, data, h)
    ensures d[0] == Splice(d0[0], (offset + h) % BLOCK_SIZE, data[h..])
    ensures d[0] == d0[0] <==> data[h..] == Slice(d0[0], (offset + h) % BLOCK_SIZE, |data| - h)
  {
    var o := (offset + h) % BLOCK_SIZE;
    var d1 :| HeadWritten(d0, d1, ino.blockNo, offset, data, h) && d == HoleRound(d1, o, data[h..]);
    HoleBlocks(d1, o, data[h..]);
    SpliceKeptIff(d0[0], o, data[h..]);
  }

  /** The bytes of the range as the file holds them after the write. */
  ghost predicate ReadsBack(slots: Slots, offset: nat, data: seq<byte>)
    requires offset + |data| <= MAX_BLOCKS * BLOCK_SIZE
  {
    var h := Head(slots, offset, |data|);
    h == |data| || (FreeSlot(slots, 0) == LastSlot(offset, |data|) && forall k :: h <= k < |data| ==> data[k] == 0)
  }

  lemma HoleReads(d0: Blocks, d: Blocks, ino: Inode, ino': Inode, offset: nat, data: seq<byte>)
    requires offset + |data| <= MAX_BLOCKS * BLOCK_SIZE && Sane(d0, ino.blockNo)
    requires var h := Head(ino.blockNo, offset, |data|);
      Allocated(ino.blockNo, offset, offset + h) && IntoHole(d0, d, ino, ino', offset, data, h)
    ensures forall k :: 0 <= k < MAX_BLOCKS ==> ino'.blockNo[k] < TOTAL_BLOCKS
    ensures NoHole(ino'.blockNo, offset, offset + |data|) <==> FreeSlot(ino.blockNo, 0) == LastSlot(offset, |data|)
  {
    FreshIffRoom(d0);
    var h, k := Head(ino.blockNo, offset, |data|), LastSlot(offset, |data|);
    HoleTail(d0, d, ino, ino', offset, data, h, h);
    TailChunk(ino.blockNo, offset, |data|);
    if FreeSlot(ino.blockNo, 0) == k {
      forall j: nat | j < MAX_BLOCKS && offset / BLOCK_SIZE <= j && j * BLOCK_SIZE < offset + |data|
        ensures ino'.blockNo[j] != 0
      {
        if j != k {
          assert j < k && j * BLOCK_SIZE < offset + h;
        }
      }
    } else {
      assert offset / BLOCK_SIZE <= k && k * BLOCK_SIZE < offset + |data|;
    }
  }

  /** Write, then read the same range through the same inode: the data comes back if and
      only if every slot reached was in use, or the block that was handed out went into the
      last one and the tail of the data is all zeros. */
  method WriteThenRead(disk: Disk, file: OpenFile, ino: Inode, data: seq<byte>, buf: array<byte>) returns (r: int)
    requires disk.Valid() && |data| <= buf.Length && file.offset + |data| <= MAX_BLOCKS * BLOCK_SIZE
    requires Allocated(ino.blockNo, file.offset, file.offset + Head(ino.blockNo, file.offset, |data|)) && Separate(ino.blockNo)
    requires Head(ino.blockNo, file.offset, |data|) < |data| ==> Sane(disk.Now(), ino.blockNo)
    requires forall k :: 0 <= k < MAX_BLOCKS ==> ino.blockNo[k] < TOTAL_BLOCKS
    requires file.offset <= ino.size
    modifies disk.blocks, file, buf
    ensures r == |data| && buf[..|data|] == data <==> ReadsBack(ino.blockNo, old(file.offset), data)
  {
    ghost var d0, h := disk.Now(), Head(ino.blockNo, file.offset, |data|);
    var offset := file.offset;
    var w, ino' := WriteFile(disk, file, ino, data);
    if h < |data| {
      HoleReads(d0, disk.Now(), ino, ino', offset, data);
    }
    r := ReadFileAtOffset(disk, ino', offset, buf, |data|);
    if h == |data| {
      ReadBack(disk.Now(), ino.blockNo, offset, data, buf[..]);
    } else if r != -1 {
      HoleReadBack(d0, disk.Now(), ino, ino', offset, data, buf[..]);
    }
  }

  /** The range of the file after such a write, when the new block is in the last slot. */
  ghost predicate TailLost(d: Blocks, slots: Slots, offset: nat, data: seq<byte>, h: nat) {
    forall k: nat :: k < |data| ==> TailLostAt(d, slots, offset, data, h, k)
  }

  predicate TailLostAt(d: Blocks, slots: Slots, offset: nat, data: seq<byte>, h: nat, k: nat)
    requires k < |data|
  {
    FileByte(d, slots, offset + k, if k < h then data[k] else 0)
  }

  lemma HoleFile(d0: Blocks, d: Blocks, ino: Inode, ino': Inode, offset: nat, data: seq<byte>)
    requires offset + |data| <= MAX_BLOCKS * BLOCK_SIZE && Sane(d0, ino.blockNo)
    requires var h := Head(ino.blockNo, offset, |data|);
      h < |data| && Allocated(ino.blockNo, offset, offset + h) && IntoHole(d0, d, ino, ino', offset, data, h)
    requires FreeSlot(ino.blockNo, 0) == LastSlot(offset, |data|)
    ensures TailLost(d, ino'.blockNo, offset, data, Head(ino.blockNo, offset, |data|))
  {
    var h := Head(ino.blockNo, offset, |data|);
    forall k: nat | k < |data|
      ensures TailLostAt(d, ino'.blockNo, offset, data, h, k)
    {
      if k < h {
        HoleHead(d0, d, ino, ino', offset, data, h, k);
      } else {
        HoleTail(d0, d, ino, ino', offset, data, h, k);
      }
    }
  }

  lemma HoleBuffer(d: Blocks, slots: Slots, offset: nat, data: seq<byte>, h: nat, buf: seq<byte>)
    requires h <= |data| && TailLost(d, slots, offset, data, h)
    requires forall k :: 0 <= k < MAX_BLOCKS ==> slots[k] < TOTAL_BLOCKS
    requires ReadSoFar(d, slots, offset, buf, |data|)
    ensures forall k :: 0 <= k < |data| ==> buf[k] == if k < h then data[k] else 0
  {
    forall k: nat | k < |data|
      ensures buf[k] == if k < h then data[k] else 0
    {
      assert TailLostAt(d, slots, offset, data, h, k);
      assert buf[k] == ByteAt(d, slots, offset + k);
    }
  }

  lemma HoleReadBack(d0: Blocks, d: Blocks, ino: Inode, ino': Inode, offset: nat, data: seq<byte>, buf: seq<byte>)
    requires offset + |data| <= MAX_BLOCKS * BLOCK_SIZE && Sane(d0, ino.blockNo)
    requires var h := Head(ino.blockNo, offset, |data|);
      h < |data| && Allocated(ino.blockNo, offset, offset + h) && IntoHole(d0, d, ino, ino', offset, data, h)
    requires forall k :: 0 <= k < MAX_BLOCKS ==> ino'.blockNo[k] < TOTAL_BLOCKS
    requires FreeSlot(ino.blockNo, 0) == LastSlot(offset, |data|) && ReadSoFar(d, ino'.blockNo, offset, buf, |data|)
    ensures buf[..|data|] == data <==> ReadsBack(ino.blockNo, offset, data)
  {
    HoleFile(d0, d, ino, ino', offset, data);
    HoleBuffer(d, ino'.blockNo, offset, data, Head(ino.blockNo, offset, |data|), buf);
    ZeroTail(buf[..|data|], data, Head(ino.blockNo, offset, |data|));
  }

  lemma ZeroTail(b: seq<byte>, data: seq<byte>, h: nat)
    requires h <= |data| == |b| && forall k :: 0 <= k < |data| ==> b[k] == if k < h then data[k] else 0
    ensures b == data <==> forall k :: h <= k < |data| ==> data[k] == 0
  {
    if b == data {
      assert forall k :: h <= k < |data| ==> data[k] == b[k];
    }
  }

  lemma ReadBack(d: Blocks, slots: Slots, offset: nat, data: seq<byte>, buf: seq<byte>)
    requires forall k :: 0 <= k < MAX_BLOCKS ==> slots[k] < TOTAL_BLOCKS
    requires exists d0 :: Written(d0, d, slots, offset, data, |data|)
    requires Allocated(slots, offset, offset + |data|) && ReadSoFar(d, slots, offset, buf, |data|)
    ensures buf[..|data|] == data
  {
    var d0 :| Written(d0, d, slots, offset, data, |data|);
    forall k | 0 <= k < |data|
      ensures buf[k] == data[k]
    {
      SlotOf(slots, offset, |data|, k);
      assert ByteAt(d, slots, offset + k) == data[k];
    }
  }
}
