/** The on-disk structures of file.c: superblock, inodes, block bitmap. */
module Layout {
  import opened Bytes

  const INODE_BLOCKS: nat := 50         // INODE_BLOCK_SIZE
  const BITMAP_BLOCKS: nat := 5         // DataBlockBitSize
  const FILE_SYS_BLOCKS: nat := 700
  const TOTAL_BLOCKS: nat := 1000
  const MAX_BLOCKS: nat := 20           // MAX_BLOCKS_InFILE
  const INODE_SIZE: nat := 116          // sizeof(struct inode)
  const INODES: nat := 200              // 4 inodes in each of 50 blocks
  const BITMAP: nat := 51               // the first bitmap block
  const FIRST_DATA: nat := 56

  const NO_BLOCKS: seq<Block> := seq(TOTAL_BLOCKS, i => ZeroBlock())

  type Blocks = d: seq<Block> | |d| == TOTAL_BLOCKS witness NO_BLOCKS

  // ----- inodes

  /** struct inode; mode stands for the 16-bit field with the two padding bytes behind it. */
  datatype Inode = Inode(size: uint32, atime: uint32, mtime: uint32, ctime: uint32, mode: uint32,
                         nextBlock: uint32, nextOffset: uint32, myBlock: uint32, myOffset: uint32,
                         blockNo: Slots)

  type Slots = s: seq<uint32> | |s| == MAX_BLOCKS witness seq(MAX_BLOCKS, _ => 0)

  function InodeWords(i: Inode): (ws: seq<uint32>)
    ensures |ws| == 29
  {
    [i.size, i.atime, i.mtime, i.ctime, i.mode, i.nextBlock, i.nextOffset, i.myBlock, i.myOffset] + i.blockNo
  }

  function WordsInode(ws: seq<uint32>): (i: Inode)
    requires |ws| == 29
  {
    Inode(ws[0], ws[1], ws[2], ws[3], ws[4], ws[5], ws[6], ws[7], ws[8], ws[9..])
  }

  function EncodeInode(i: Inode): (s: seq<byte>)
    ensures |s| == INODE_SIZE
  {
    Encode(InodeWords(i))
  }

  /** read_inode: the inode at byte o of block b. */
  function InodeAt(b: Block, o: nat): Inode
    requires o + INODE_SIZE <= BLOCK_SIZE
  {
    WordsInode(Decode(Slice(b, o, INODE_SIZE)))
  }

  /** Writing an inode makes it the one that is read there; an inode that does not overlap
      is read as before. */
  lemma InodeWritten(b: Block, o: nat, i: Inode, p: nat)
    requires o + INODE_SIZE <= BLOCK_SIZE && p + INODE_SIZE <= BLOCK_SIZE
    ensures p == o ==> InodeAt(Splice(b, o, EncodeInode(i)), p) == i
    ensures p + INODE_SIZE <= o || o + INODE_SIZE <= p ==> InodeAt(Splice(b, o, EncodeInode(i)), p) == InodeAt(b, p)
  {
    SliceOfSplice(b, o, EncodeInode(i), p, INODE_SIZE);
    DecodeOfEncode(InodeWords(i));
    assert InodeWords(i)[9..] == i.blockNo;
  }

  /** The 32-bit word at byte o. */
  function WordAt(s: seq<byte>, o: nat): uint32
    requires o + 4 <= |s|
  {
    Word4(s[o..o + 4])
  }

  /** Where the fields of struct inode lie: nine words, then the slots from byte 36 on. */
  lemma InodeFields(i: Inode)
    ensures var s := EncodeInode(i);
      && WordAt(s, 0) == i.size && WordAt(s, 4) == i.atime && WordAt(s, 8) == i.mtime && WordAt(s, 12) == i.ctime
      && WordAt(s, 16) == i.mode
      && WordAt(s, 20) == i.nextBlock && WordAt(s, 24) == i.nextOffset && WordAt(s, 28) == i.myBlock && WordAt(s, 32) == i.myOffset
  {
    InodeWord(i, 0);
    InodeWord(i, 1);
    InodeWord(i, 2);
    InodeWord(i, 3);
    InodeWord(i, 4);
    InodeWord(i, 5);
    InodeWord(i, 6);
    InodeWord(i, 7);
    InodeWord(i, 8);
  }

  lemma InodeSlots(i: Inode, k: nat)
    requires k < MAX_BLOCKS
    ensures WordAt(EncodeInode(i), 36 + 4 * k) == i.blockNo[k]
  {
    InodeWord(i, 9 + k);
  }

  lemma InodeWord(i: Inode, k: nat)
    requires k < 29
    ensures WordAt(EncodeInode(i), 4 * k) == InodeWords(i)[k]
  {
    EncodeAt(InodeWords(i), k);
  }

  /** The place of inode number n: four to a block from block 1 on. */
  function PlaceBlock(n: nat): (b: nat) ensures n < INODES ==> 1 <= b <= INODE_BLOCKS { n / 4 + 1 }
  function PlaceOffset(n: nat): (o: nat) ensures o + INODE_SIZE <= BLOCK_SIZE { n % 4 * INODE_SIZE }

  /** Different inodes lie in different blocks or do not overlap. */
  lemma PlacesApart(n: nat, m: nat)
    requires n != m
    ensures PlaceBlock(n) != PlaceBlock(m)
         || PlaceOffset(n) + INODE_SIZE <= PlaceOffset(m) || PlaceOffset(m) + INODE_SIZE <= PlaceOffset(n)
  {
  }

  function Nth(d: Blocks, n: nat): Inode
    requires n < INODES
  {
    InodeAt(d[PlaceBlock(n)], PlaceOffset(n))
  }

  // ----- the superblock

  datatype Super = Super(freeBlock: uint32, freeOffset: uint32, rootBlock: uint32, rootOffset: uint32, bitmapNo: seq<uint32>)

  function SuperWords(s: Super): (ws: seq<uint32>)
    requires |s.bitmapNo| == BITMAP_BLOCKS
    ensures |ws| == 9
  {
    [s.freeBlock, s.freeOffset, s.rootBlock, s.rootOffset] + s.bitmapNo
  }

  function SuperAt(b: Block): (s: Super)
    ensures |s.bitmapNo| == BITMAP_BLOCKS
  {
    var ws := Decode(Slice(b, 0, 36));
    Super(ws[0], ws[1], ws[2], ws[3], ws[4..])
  }

  lemma SuperWritten(s: Super, junk: seq<byte>)
    requires |s.bitmapNo| == BITMAP_BLOCKS && |junk| == BLOCK_SIZE - 36
    ensures SuperAt(Encode(SuperWords(s)) + junk) == s
  {
    var b: Block := Encode(SuperWords(s)) + junk;
    assert Slice(b, 0, 36) == Encode(SuperWords(s));
    DecodeOfEncode(SuperWords(s));
    assert SuperWords(s)[4..] == s.bitmapNo;
  }

  /** Where the fields of struct super_block lie. */
  lemma SuperFields(b: Block, k: nat)
    requires k < BITMAP_BLOCKS
    ensures var s := SuperAt(b);
      && WordAt(b, 0) == s.freeBlock && WordAt(b, 4) == s.freeOffset && WordAt(b, 8) == s.rootBlock && WordAt(b, 12) == s.rootOffset
      && WordAt(b, 16 + 4 * k) == s.bitmapNo[k]
  {
    SuperWord(b, 0);
    SuperWord(b, 1);
    SuperWord(b, 2);
    SuperWord(b, 3);
    SuperWord(b, 4 + k);
  }

  lemma SuperWord(b: Block, k: nat)
    requires k < 9
    ensures Decode(Slice(b, 0, 36))[k] == WordAt(b, 4 * k)
  {
    DecodeAt(Slice(b, 0, 36), k);
    assert Slice(b, 0, 36)[4 * k..4 * k + 4] == b[4 * k..4 * k + 4];
  }

  // ----- bits

  /** 1 << k */
  function Pow2(k: nat): (p: nat)
    ensures p >= 1
  {
    if k == 0 then 1 else 2 * Pow2(k - 1)
  }

  /** x & (1 << k) */
  predicate Bit(x: nat, k: nat) {
    if k == 0 then x % 2 == 1 else Bit(x / 2, k - 1)
  }

  /** x |= 1 << k on a clear bit sets that bit alone. */
  lemma {:induction false} BitSet(x: nat, k: nat, j: nat)
    requires !Bit(x, k)
    ensures Bit(x + Pow2(k), j) <==> j == k || Bit(x, j)
  {
    if k > 0 {
      assert (x + Pow2(k)) / 2 == x / 2 + Pow2(k - 1);
      if j > 0 {
        BitSet(x / 2, k - 1, j - 1);
      }
    }
  }

  lemma {:induction false} BitSetFits(x: nat, k: nat, width: nat)
    requires !Bit(x, k) && k < width && x < Pow2(width)
    ensures x + Pow2(k) < Pow2(width)
  {
    assert Pow2(width) == 2 * Pow2(width - 1);
    if k > 0 {
      assert Pow2(k) == 2 * Pow2(k - 1);
      assert x / 2 < Pow2(width - 1);
      BitSetFits(x / 2, k - 1, width - 1);
    }
  }

  lemma {:induction false} AllOnes(width: nat, k: nat)
    requires k < width
    ensures Bit(Pow2(width) - 1, k)
  {
    assert (Pow2(width) - 1) / 2 == Pow2(width - 1) - 1;
    if k > 0 {
      AllOnes(width - 1, k - 1);
    }
  }

  lemma {:induction false} HasZero(x: nat, width: nat) returns (k: nat)
    requires x < Pow2(width) - 1
    ensures k < width && !Bit(x, k)
  {
    if x % 2 == 0 {
      k := 0;
    } else {
      k := HasZero(x / 2, width - 1);
      k := k + 1;
    }
  }

  lemma ByteWidth()
    ensures Pow2(8) == 256
  {
    assert Pow2(2) == 4 && Pow2(4) == 16 && Pow2(6) == 64;
  }

  /** Bit n of a bitmap block. */
  predicate Busy(b: Block, n: nat)
    requires n < BLOCK_SIZE * 8
  {
    Bit(b[n / 8], n % 8)
  }
}
