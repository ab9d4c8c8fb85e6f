/** The block bitmap: init_dataBlockBit, getFreeBlock, update_dataBlockBit, allocBlock. */
module Bitmap {
  import opened Bytes
  import opened Layout
  import opened BlockDevice

  const BITS: nat := 4096   // bits in a bitmap block
  const BLOCK_FREE: int := 0
  const BLOCK_BUSY: int := 1

  /** The least clear bit at or above n, or BITS. */
  ghost function FirstClear(b: Block, n: nat): (c: nat)
    requires n <= BITS
    ensures n <= c <= BITS
    ensures c < BITS ==> !Busy(b, c)
    ensures forall k: nat :: n <= k < c ==> Busy(b, k)
    decreases BITS - n
  {
    if n == BITS || !Busy(b, n) then n else FirstClear(b, n + 1)
  }

  lemma FirstClearIs(b: Block, c: nat)
    requires c < BITS && !Busy(b, c) && forall k: nat :: k < c ==> Busy(b, k)
    ensures FirstClear(b, 0) == c
  {
  }

  lemma FullByte(b: Block, i: nat)
    requires i < BLOCK_SIZE && b[i] == 255
    ensures forall k: nat :: i * 8 <= k < i * 8 + 8 ==> Busy(b, k)
  {
    ByteWidth();
    forall k: nat | i * 8 <= k < i * 8 + 8
      ensures Busy(b, k)
    {
      AllOnes(8, k % 8);
    }
  }

  /** The least clear bit of a byte, or 8. */
  ghost function ClearBit(x: byte, k: nat): (i: nat)
    requires k <= 8
    ensures k <= i <= 8
    ensures i < 8 ==> !Bit(x, i)
    ensures forall j: nat :: k <= j < i ==> Bit(x, j)
    decreases 8 - k
  {
    if k == 8 || !Bit(x, k) then k else ClearBit(x, k + 1)
  }

  lemma {:induction false} NoBitBehind(x: nat, width: nat)
    requires x < Pow2(width)
    ensures !Bit(x, width)
  {
    if width > 0 {
      NoBitBehind(x / 2, width - 1);
    }
  }

  /** The inner loop of getFreeBlock, which stops behind the byte at the latest. */
  method FirstClearBit(x: byte) returns (index: nat)
    ensures index == ClearBit(x, 0)
  {
    ByteWidth();
    NoBitBehind(x, 8);
    index := 0;
    while Bit(x, index)
      invariant index <= 8 && forall j: nat :: j < index ==> Bit(x, j)
      decreases 8 - index
    {
      index := index + 1;
    }
  }

  lemma FirstClearByIndex(b: Block, i: nat)
    requires i < BLOCK_SIZE && b[i] != 255 && forall k: nat :: k < i * 8 ==> Busy(b, k)
    ensures ClearBit(b[i], 0) < 8 && FirstClear(b, 0) == i * 8 + ClearBit(b[i], 0)
  {
    var x := ClearBit(b[i], 0);
    ByteWidth();
    var zero := HasZero(b[i], 8);
    var c := i * 8 + x;
    assert c / 8 == i && c % 8 == x;
    forall k: nat | k < c
      ensures Busy(b, k)
    {
      if k >= i * 8 {
        assert k / 8 == i && k % 8 == k - i * 8;
      }
    }
    FirstClearIs(b, c);
  }

  /** getFreeBlock: the first clear bit. It has no answer for a full bitmap block: it goes
      on to the byte behind the buffer and returns a number from 4096 on, so the callers'
      test for -1 never succeeds. */
  method GetFreeBlock(b: Block, behind: byte) returns (c: nat)
    ensures FirstClear(b, 0) < BITS ==> c == FirstClear(b, 0)
    ensures FirstClear(b, 0) == BITS ==> c == BITS + ClearBit(behind, 0)
  {
    var i := 0;
    while i < BLOCK_SIZE && b[i] == 255
      invariant i <= BLOCK_SIZE && forall k: nat :: k < i * 8 ==> Busy(b, k)
    {
      FullByte(b, i);
      i := i + 1;
    }
    var freeByte := if i < BLOCK_SIZE then b[i] else behind;
    if i < BLOCK_SIZE {
      FirstClearByIndex(b, i);
    }
    var index := FirstClearBit(freeByte);
    c := i * 8 + index;
  }

  // ----- update_dataBlockBit

  /** What update_dataBlockBit makes of the byte, s being the status bit. */
  function UpdatedByte(x: byte, k: nat, s: nat): (y: byte)
    requires k < 8 && s < 2
  {
    ByteWidth();
    Pow2Grows(k, 7);
    if Bit(x, k) then
      // x &= s << k
      if s == 1 then Pow2(k) else 0
    else
      // x |= s << k
      if s == 1 then BitSetFits(x, k, 8); x + Pow2(k) else x
  }

  lemma {:induction false} Pow2Grows(k: nat, n: nat)
    requires k <= n
    ensures Pow2(k) <= Pow2(n)
  {
    if k < n {
      Pow2Grows(k, n - 1);
    }
  }

  lemma {:induction false} ZeroBits(j: nat)
    ensures !Bit(0, j)
  {
    if j > 0 {
      ZeroBits(j - 1);
    }
  }

  lemma OnlyBit(k: nat, j: nat)
    ensures Bit(Pow2(k), j) <==> j == k
  {
    ZeroBits(k);
    BitSet(0, k, j);
    ZeroBits(j);
  }

  /** Two bytes with the same bits are the same. */
  lemma {:induction false} SameBits(x: nat, y: nat, width: nat)
    requires x < Pow2(width) && y < Pow2(width)
    requires forall j: nat :: j < width ==> Bit(x, j) == Bit(y, j)
    ensures x == y
  {
    if width > 0 {
      assert Bit(x, 0) == Bit(y, 0);
      forall j: nat | j < width - 1
        ensures Bit(x / 2, j) == Bit(y / 2, j)
      {
        assert Bit(x, j + 1) == Bit(y, j + 1);
      }
      SameBits(x / 2, y / 2, width - 1);
    }
  }

  /** Bit j of y is right if bit k is to get status s and the others are to stay as in x. */
  predicate RightBit(x: nat, y: nat, k: nat, s: nat, j: nat) {
    Bit(y, j) == if j == k then s == 1 else Bit(x, j)
  }

  lemma UpdatedBit(x: byte, k: nat, s: nat, j: nat)
    requires k < 8 && s < 2 && j < 8 && (!Bit(x, k) || x == Pow2(k))
    ensures RightBit(x, UpdatedByte(x, k, s), k, s, j)
  {
    OnlyBit(k, j);
    ZeroBits(j);
    if !Bit(x, k) {
      BitSet(x, k, j);
    }
  }

  /** What the update leaves, bit by bit: on a clear bit the status is or-ed in; on a set
      bit the byte is and-ed with it, which leaves no other bit. */
  lemma UpdatedBits(x: byte, k: nat, s: nat, j: nat)
    requires k < 8 && s < 2
    ensures Bit(UpdatedByte(x, k, s), j) <==> if Bit(x, k) then j == k && s == 1 else Bit(x, j) || (j == k && s == 1)
  {
    OnlyBit(k, j);
    ZeroBits(j);
    if !Bit(x, k) {
      BitSet(x, k, j);
    }
  }

  /** The update gives bit k the status asked for and leaves the other seven as they are
      if and only if bit k was clear, or it was the only bit set. (On a set bit the &=
      wipes the rest of the byte.) */
  lemma UpdateExact(x: byte, k: nat, s: nat)
    requires k < 8 && s < 2
    ensures (forall j: nat :: j < 8 ==> RightBit(x, UpdatedByte(x, k, s), k, s, j)) <==> !Bit(x, k) || x == Pow2(k)
  {
    var y := UpdatedByte(x, k, s);
    if !Bit(x, k) || x == Pow2(k) {
      forall j: nat | j < 8
        ensures RightBit(x, y, k, s, j)
      {
        UpdatedBit(x, k, s, j);
      }
    } else if forall j: nat :: j < 8 ==> RightBit(x, y, k, s, j) {
      OnlyIfAlone(x, y, k, s);
    }
  }

  lemma OnlyIfAlone(x: byte, y: byte, k: nat, s: nat)
    requires k < 8 && s < 2 && Bit(x, k) && y == UpdatedByte(x, k, s)
    requires forall j: nat :: j < 8 ==> RightBit(x, y, k, s, j)
    ensures x == Pow2(k)
  {
    forall j: nat | j < 8
      ensures Bit(x, j) == Bit(Pow2(k), j)
    {
      OnlyBit(k, j);
      ZeroBits(j);
      assert RightBit(x, y, k, s, j);
    }
    ByteWidth();
    Pow2Grows(k, 7);
    SameBits(x, Pow2(k), 8);
  }

  /** The bitmap block with bit n updated. */
  function UpdatedBlock(b: Block, n: nat, s: nat): Block
    requires n < BITS && s < 2
  {
    b[n / 8 := UpdatedByte(b[n / 8], n % 8, s)]
  }

  /** Marking a clear bit busy changes that bit alone. */
  lemma MarkedAlone(b: Block, n: nat, m: nat)
    requires n < BITS && m < BITS && !Busy(b, n)
    ensures Busy(UpdatedBlock(b, n, 1), m) <==> m == n || Busy(b, m)
  {
    if m / 8 == n / 8 {
      BitSet(b[n / 8], n % 8, m % 8);
      assert m == n <==> m % 8 == n % 8;
    }
  }

  /** update_dataBlockBit. Every block number it accepts has its bit in the first bitmap
      block, which is also the first one the superblock lists. */
  method UpdateDataBlockBit(disk: Disk, n: nat, status: int) returns (r: int)
    requires disk.Valid()
    modifies disk.blocks
    ensures n > FILE_SYS_BLOCKS || (status != BLOCK_BUSY && status != BLOCK_FREE) ==> r == -1 && disk.Now() == old(disk.Now())
    ensures n <= FILE_SYS_BLOCKS && (status == BLOCK_BUSY || status == BLOCK_FREE) ==>
              r == 0 && disk.Now() == old(disk.Now())[BITMAP := UpdatedBlock(old(disk.Now())[BITMAP], n, status)]
  {
    if n > FILE_SYS_BLOCKS || (status != BLOCK_BUSY && status != BLOCK_FREE) {
      return -1;
    }
    var bitBlockNo := n / (BLOCK_SIZE * 8) + INODE_BLOCKS + 1;
    var arr := disk.ReadBlock(bitBlockNo);
    var byteNo, bit := n % (BLOCK_SIZE * 8) / 8, n % (BLOCK_SIZE * 8) % 8;
    arr := arr[byteNo := UpdatedByte(arr[byteNo], bit, status)];
    disk.WriteBlock(arr, bitBlockNo);
    r := 0;
  }

  // ----- allocBlock

  predicate BitmapListed(s: Super) { s.bitmapNo == [51, 52, 53, 54, 55] }

  /** The superblock lists the five bitmap blocks, the metadata blocks are busy, and no
      bit above FILE_SYS_BLOCKS is set. */
  ghost predicate BitmapOk(d: Blocks) {
    && BitmapListed(SuperAt(d[0]))
    && (forall n: nat :: n < FIRST_DATA ==> Busy(d[BITMAP], n))
    && (forall n: nat :: FILE_SYS_BLOCKS < n < BITS ==> !Busy(d[BITMAP], n))
  }

  /** Some block the file system may use is free. */
  ghost predicate HasRoom(d: Blocks) {
    exists n: nat :: n <= FILE_SYS_BLOCKS && !Busy(d[BITMAP], n)
  }

  /** The block allocBlock hands out lies in the data area, or is the one behind it
      exactly when the data area is full. */
  lemma FreshIffRoom(d: Blocks)
    requires BitmapOk(d)
    ensures FIRST_DATA <= FirstClear(d[BITMAP], 0) <= FILE_SYS_BLOCKS + 1
    ensures FirstClear(d[BITMAP], 0) <= FILE_SYS_BLOCKS <==> HasRoom(d)
  {
    var c := FirstClear(d[BITMAP], 0);
    assert !Busy(d[BITMAP], FILE_SYS_BLOCKS + 1);
  }

  /** The first zero among the slots, or MAX_BLOCKS. */
  function FreeSlot(slots: Slots, a: nat): (i: nat)
    requires a <= MAX_BLOCKS
    ensures a <= i <= MAX_BLOCKS
    ensures i < MAX_BLOCKS ==> slots[i] == 0
    ensures forall k :: a <= k < i ==> slots[k] != 0
    decreases MAX_BLOCKS - a
  {
    if a == MAX_BLOCKS || slots[a] == 0 then a else FreeSlot(slots, a + 1)
  }

  /** clearBlock */
  function Cleared(d: Blocks, c: nat): Blocks
    requires c < TOTAL_BLOCKS
  {
    d[c := ZeroBlock()]
  }

  function Marked(d: Blocks, c: nat): Blocks
    requires c < BITS
  {
    d[BITMAP := UpdatedBlock(d[BITMAP], c, 1)]
  }

  /** The disk after block c has been handed out: cleared, and marked if it has a bit. */
  function HandedOut(d: Blocks, c: nat): Blocks
    requires c <= FILE_SYS_BLOCKS + 1
  {
    if c <= FILE_SYS_BLOCKS then Marked(Cleared(d, c), c) else Cleared(d, c)
  }

  /** allocBlock: the first clear bit's block goes into the first empty slot. With no
      empty slot nothing happens. getFreeBlock never reports a full bitmap, so the first
      bitmap block is always the only one looked at. */
  method AllocBlock(disk: Disk, ino: Inode) returns (r: int, ino': Inode)
    requires disk.Valid() && BitmapOk(disk.Now())
    modifies disk.blocks
    ensures
      var a, c := FreeSlot(ino.blockNo, 0), FirstClear(old(disk.Now())[BITMAP], 0);
      if a == MAX_BLOCKS then r == -1 && ino' == ino && disk.Now() == old(disk.Now())
      else
        && r == 0 && FIRST_DATA <= c <= FILE_SYS_BLOCKS + 1
        && ino' == ino.(blockNo := ino.blockNo[a := c])
        && disk.Now() == HandedOut(old(disk.Now()), c)
  {
    ghost var d := disk.Now();
    ino' := ino;
    var a := 0;
    while a < MAX_BLOCKS && ino.blockNo[a] != 0
      invariant a <= MAX_BLOCKS && FreeSlot(ino.blockNo, 0) >= a
    {
      a := a + 1;
    }
    if a >= MAX_BLOCKS {
      return -1, ino;
    }
    var b := disk.ReadBlock(0);
    var sb := SuperAt(b);
    FreshIffRoom(d);
    var bitBlock := disk.ReadBlock(sb.bitmapNo[0]);
    var behind: byte := *;
    var c := GetFreeBlock(bitBlock, behind);
    ino' := ino.(blockNo := ino.blockNo[a := c]);
    disk.WriteBlock(ZeroBlock(), c);
    var ignored := UpdateDataBlockBit(disk, c, BLOCK_BUSY);
    r := 0;
  }

  /** Handing out the first clear block keeps the bitmap sound: exactly that block's bit is
      added if there was room; otherwise no bit changes at all, so the next request will
      be given the same block again. */
  lemma HandedOutOk(d: Blocks)
    requires BitmapOk(d)
    ensures FirstClear(d[BITMAP], 0) <= FILE_SYS_BLOCKS + 1
    ensures var c := FirstClear(d[BITMAP], 0);
      var d' := HandedOut(d, c);
      && BitmapOk(d') && d'[c] == ZeroBlock() && !Busy(d[BITMAP], c)
      && (forall b :: 0 <= b < TOTAL_BLOCKS && b != c && b != BITMAP ==> d'[b] == d[b])
      && (HasRoom(d) ==> forall n: nat {:trigger Busy(d'[BITMAP], n)} :: n < BITS ==> (Busy(d'[BITMAP], n) <==> n == c || Busy(d[BITMAP], n)))
      && (!HasRoom(d) ==> d'[BITMAP] == d[BITMAP] && !HasRoom(d') && FirstClear(d'[BITMAP], 0) == c)
  {
    FreshIffRoom(d);
    var c := FirstClear(d[BITMAP], 0);
    if HasRoom(d) {
      forall n: nat {:trigger Busy(UpdatedBlock(d[BITMAP], c, 1), n)} | n < BITS
        ensures Busy(UpdatedBlock(d[BITMAP], c, 1), n) <==> n == c || Busy(d[BITMAP], n)
      {
        MarkedAlone(d[BITMAP], c, n);
      }
    }
  }
}
