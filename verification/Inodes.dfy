/** The chain of free inodes: init_inodeList, allocInode and writeInode of file.c. */
module Inodes {
  import opened Bytes
  import opened Layout
  import opened BlockDevice

  /** write_superBlock copies a whole block from a 36-byte struct; junk is what follows
      the struct in memory. */
  method WriteSuper(disk: Disk, s: Super, junk: seq<byte>)
    requires disk.Valid() && |s.bitmapNo| == BITMAP_BLOCKS && |junk| == BLOCK_SIZE - 36
    modifies disk.blocks
    ensures SuperAt(disk.Now()[0]) == s && disk.Now()[0][36..] == junk
    ensures disk.Now() == old(disk.Now())[0 := disk.Now()[0]]
  {
    SuperWritten(s, junk);
    disk.WriteBlock(Encode(SuperWords(s)) + junk, 0);
  }

  // ----- the free chain

  /** The inode numbers from k on, in order, are exactly the free chain. */
  ghost predicate FreeFrom(d: Blocks, k: nat) {
    && k <= INODES
    && var s := SuperAt(d[0]);
    && (if k < INODES then s.freeBlock == PlaceBlock(k) && s.freeOffset == PlaceOffset(k) else s.freeBlock == 0)
    && forall n: nat :: k <= n < INODES ==> Linked(Nth(d, n), n)
  }

  /** Inode n names its own place and its successor on the chain; the last one names block 0. */
  predicate Linked(i: Inode, n: nat) {
    && i.myBlock == PlaceBlock(n) && i.myOffset == PlaceOffset(n)
    && if n == INODES - 1 then i.nextBlock == 0 && i.nextOffset == 0
    else i.nextBlock == PlaceBlock(n + 1) && i.nextOffset == PlaceOffset(n + 1)
  }

  /** allocInode: the first inode of the chain, with all its slots cleared; -1 and no
      change when the chain is empty. The rest of the inode is whatever the disk held. */
  method AllocInode(disk: Disk, junk: seq<byte>, ghost k: nat) returns (r: int, ino: Inode)
    requires disk.Valid() && FreeFrom(disk.Now(), k) && |junk| == BLOCK_SIZE - 36
    modifies disk.blocks
    ensures k == INODES ==> r == -1 && disk.Now() == old(disk.Now())
    ensures k < INODES ==>
      && r == 0 && FreeFrom(disk.Now(), k + 1)
      && ino.myBlock == PlaceBlock(k) && ino.myOffset == PlaceOffset(k)
      && ino.blockNo == seq(MAX_BLOCKS, _ => 0)
      && ino == Nth(old(disk.Now()), k).(blockNo := ino.blockNo)
      && disk.Now()[0][36..] == junk
      && disk.Now() == old(disk.Now())[0 := disk.Now()[0]]
      && SuperAt(disk.Now()[0]).bitmapNo == SuperAt(old(disk.Now())[0]).bitmapNo
      && SuperAt(disk.Now()[0]).rootBlock == SuperAt(old(disk.Now())[0]).rootBlock
      && SuperAt(disk.Now()[0]).rootOffset == SuperAt(old(disk.Now())[0]).rootOffset
  {
    ghost var d := disk.Now();
    var b := disk.ReadBlock(0);
    var sb := SuperAt(b);
    ino := Inode(0, 0, 0, 0, 0, 0, 0, 0, 0, seq(MAX_BLOCKS, _ => 0));
    if sb.freeBlock == 0 {
      return -1, ino;
    }
    var block := disk.ReadBlock(sb.freeBlock);
    ino := InodeAt(block, sb.freeOffset);
    assert ino == Nth(d, k) && Linked(ino, k);
    ino := ino.(myBlock := sb.freeBlock, myOffset := sb.freeOffset, blockNo := seq(MAX_BLOCKS, _ => 0));
    sb := sb.(freeOffset := ino.nextOffset, freeBlock := ino.nextBlock);
    WriteSuper(disk, sb, junk);
    FreeFromKept(d, disk.Now(), k);
    r := 0;
  }

  /** The links depend on the inode blocks only. */
  lemma FreeFromKept(d: Blocks, d': Blocks, k: nat)
    requires forall n: nat :: k <= n < INODES ==> Linked(Nth(d, n), n)
    requires forall b :: 1 <= b <= INODE_BLOCKS ==> d'[b] == d[b]
    ensures forall n: nat :: k <= n < INODES ==> Nth(d', n) == Nth(d, n) && Linked(Nth(d', n), n)
  {
    forall n: nat | k <= n < INODES
      ensures Nth(d', n) == Nth(d, n)
    {
      assert d'[PlaceBlock(n)] == d[PlaceBlock(n)];
    }
  }

  /** writeInode */
  method WriteInode(disk: Disk, ino: Inode)
    requires disk.Valid() && ino.myBlock < TOTAL_BLOCKS && ino.myOffset + INODE_SIZE <= BLOCK_SIZE
    modifies disk.blocks
    ensures disk.Now() == InodeStored(old(disk.Now()), ino)
  {
    var arr := disk.ReadBlock(ino.myBlock);
    arr := Splice(arr, ino.myOffset, EncodeInode(ino));
    disk.WriteBlock(arr, ino.myBlock);
  }

  function InodeStored(d: Blocks, ino: Inode): Blocks
    requires ino.myBlock < TOTAL_BLOCKS && ino.myOffset + INODE_SIZE <= BLOCK_SIZE
  {
    d[ino.myBlock := Splice(d[ino.myBlock], ino.myOffset, EncodeInode(ino))]
  }

  /** Writing the inode of number n makes it inode n on disk, changes no other inode and
      no block outside the inode area, and if n is not free leaves the free chain alone. */
  lemma InodeStoredAlone(d: Blocks, ino: Inode, n: nat, k: nat)
    requires n < INODES && ino.myBlock == PlaceBlock(n) && ino.myOffset == PlaceOffset(n)
    ensures var d' := InodeStored(d, ino);
      && Nth(d', n) == ino
      && (forall m: nat :: m < INODES && m != n ==> Nth(d', m) == Nth(d, m))
      && (forall b :: 0 <= b < TOTAL_BLOCKS && b != PlaceBlock(n) ==> d'[b] == d[b])
      && (n < k && FreeFrom(d, k) ==> FreeFrom(d', k))
  {
    var d', b := InodeStored(d, ino), d[ino.myBlock];
    InodeWritten(b, ino.myOffset, ino, ino.myOffset);
    forall m: nat | m < INODES && m != n
      ensures Nth(d', m) == Nth(d, m)
    {
      PlacesApart(n, m);
      InodeWritten(b, ino.myOffset, ino, PlaceOffset(m));
    }
  }

  /** Different numbers have different places. */
  lemma PlaceInjective(n: nat, m: nat)
    requires PlaceBlock(n) == PlaceBlock(m) && PlaceOffset(n) == PlaceOffset(m)
    ensures n == m
  {
    if n != m {
      PlacesApart(n, m);
    }
  }

  /** From a fresh chain allocInode succeeds exactly 200 times, each time with another
      place, and fails from then on, even if after every call one of the inodes handed out
      so far is written back with whatever its holder made of its other fields. */
  method AllocMany(disk: Disk, junk: seq<byte>, writeBack: seq<(nat, Inode)>) returns (results: seq<int>, got: seq<Inode>)
    requires disk.Valid() && FreeFrom(disk.Now(), 0) && |junk| == BLOCK_SIZE - 36
    modifies disk.blocks
    ensures |results| == |writeBack| && forall i :: 0 <= i < |results| ==> results[i] == if i < INODES then 0 else -1
    ensures |got| == if |results| < INODES then |results| else INODES
    ensures forall n, m :: 0 <= n < m < |got| ==> got[n].myBlock != got[m].myBlock || got[n].myOffset != got[m].myOffset
  {
    results, got := [], [];
    for i := 0 to |writeBack|
      invariant |results| == i && forall k :: 0 <= k < i ==> results[k] == if k < INODES then 0 else -1
      invariant |got| == (if i < INODES then i else INODES) && FreeFrom(disk.Now(), |got|)
      invariant InOrder(got)
    {
      var r;
      r, got := AllocNext(disk, junk, got, writeBack[i].0, writeBack[i].1);
      results := results + [r];
    }
    InOrderIsApart(got);
  }

  /** The inodes lie in the places of the numbers from 0 on. */
  predicate InOrder(got: seq<Inode>) {
    forall n: nat :: n < |got| ==> got[n].myBlock == PlaceBlock(n) && got[n].myOffset == PlaceOffset(n)
  }

  /** One allocation, and one inode written back. */
  method AllocNext(disk: Disk, junk: seq<byte>, got: seq<Inode>, n: nat, fields: Inode) returns (r: int, got': seq<Inode>)
    requires disk.Valid() && FreeFrom(disk.Now(), |got|) && |junk| == BLOCK_SIZE - 36 && InOrder(got)
    modifies disk.blocks
    ensures r == if |got| < INODES then 0 else -1
    ensures |got'| == (if r == 0 then |got| + 1 else |got|) && got <= got'
    ensures FreeFrom(disk.Now(), |got'|) && InOrder(got')
  {
    got' := got;
    var ino;
    r, ino := AllocInode(disk, junk, |got|);
    if r == 0 {
      got' := got + [ino];
    }
    if n < |got'| {
      WriteBack(disk, fields.(myBlock := got'[n].myBlock, myOffset := got'[n].myOffset), n, |got'|);
    }
  }

  /** writeInode of an inode that has been handed out. */
  method WriteBack(disk: Disk, ino: Inode, ghost n: nat, ghost k: nat)
    requires disk.Valid() && FreeFrom(disk.Now(), k) && n < k
    requires ino.myBlock == PlaceBlock(n) && ino.myOffset == PlaceOffset(n)
    modifies disk.blocks
    ensures FreeFrom(disk.Now(), k) && Nth(disk.Now(), n) == ino
    ensures forall m: nat :: m < INODES && m != n ==> Nth(disk.Now(), m) == Nth(old(disk.Now()), m)
  {
    InodeStoredAlone(disk.Now(), ino, n, k);
    WriteInode(disk, ino);
  }

  lemma InOrderIsApart(got: seq<Inode>)
    requires InOrder(got)
    ensures forall n, m :: 0 <= n < m < |got| ==> got[n].myBlock != got[m].myBlock || got[n].myOffset != got[m].myOffset
  {
    forall n: nat, m: nat | n < m < |got|
      ensures got[n].myBlock != got[m].myBlock || got[n].myOffset != got[m].myOffset
    {
      PlacesApart(n, m);
    }
  }

  // ----- init_inodeList

  /** Assigning the four link fields of the inode at byte o: they are neighbours. */
  function PutLinks(b: Block, o: nat, nextBlock: uint32, nextOffset: uint32, myBlock: uint32, myOffset: uint32): Block
    requires o + INODE_SIZE <= BLOCK_SIZE
  {
    Splice(b, o + 20, Encode([nextBlock, nextOffset, myBlock, myOffset]))
  }

  lemma LinksPut(b: Block, o: nat, nextBlock: uint32, nextOffset: uint32, myBlock: uint32, myOffset: uint32)
    requires o + INODE_SIZE <= BLOCK_SIZE
    ensures var i := InodeAt(PutLinks(b, o, nextBlock, nextOffset, myBlock, myOffset), o);
      i.nextBlock == nextBlock && i.nextOffset == nextOffset && i.myBlock == myBlock && i.myOffset == myOffset
  {
    var ws: seq<uint32> := [nextBlock, nextOffset, myBlock, myOffset];
    var links, r := Encode(ws), PutLinks(b, o, nextBlock, nextOffset, myBlock, myOffset);
    DecodeOfEncode(ws);
    LinkField(r, o, links, 0);
    LinkField(r, o, links, 1);
    LinkField(r, o, links, 2);
    LinkField(r, o, links, 3);
  }

  lemma LinksElsewhere(b: Block, o: nat, nextBlock: uint32, nextOffset: uint32, myBlock: uint32, myOffset: uint32, p: nat)
    requires o + INODE_SIZE <= BLOCK_SIZE && p + INODE_SIZE <= BLOCK_SIZE
    requires p + INODE_SIZE <= o || o + INODE_SIZE <= p
    ensures InodeAt(PutLinks(b, o, nextBlock, nextOffset, myBlock, myOffset), p) == InodeAt(b, p)
  {
    SliceOfSplice(b, o + 20, Encode([nextBlock, nextOffset, myBlock, myOffset]), p, INODE_SIZE);
  }

  /** Field 5 + k of the inode at o is word k of the sixteen bytes from o + 20 on. */
  lemma LinkField(r: Block, o: nat, links: seq<byte>, k: nat)
    requires o + INODE_SIZE <= BLOCK_SIZE && |links| == 16 && k < 4
    requires forall x :: 0 <= x < 16 ==> r[o + 20 + x] == links[x]
    ensures Decode(Slice(r, o, INODE_SIZE))[5 + k] == Decode(links)[k]
  {
    var s := Slice(r, o, INODE_SIZE);
    DecodeAt(s, 5 + k);
    DecodeAt(links, k);
    assert s[4 * (5 + k)..4 * (5 + k) + 4] == links[4 * k..4 * k + 4];
  }

  /** The links of the four inodes of block i, j of them written. */
  ghost predicate BlockLinked(b: Block, i: nat, j: nat)
    requires 1 <= i
  {
    forall l: nat :: l < j && l < 4 ==> Linked(InodeAt(b, PlaceOffset(l)), (i - 1) * 4 + l)
  }

  /** Writing the links of inode j leaves those before it linked. */
  lemma LinkStep(b: Block, i: nat, j: nat, nb: uint32, no: uint32)
    requires 1 <= i <= INODE_BLOCKS && j < 4 && BlockLinked(b, i, j)
    ensures var r := PutLinks(b, PlaceOffset(j), nb, no, i, PlaceOffset(j));
      && BlockLinked(r, i, j)
      && InodeAt(r, PlaceOffset(j)).nextBlock == nb && InodeAt(r, PlaceOffset(j)).nextOffset == no
      && InodeAt(r, PlaceOffset(j)).myBlock == i && InodeAt(r, PlaceOffset(j)).myOffset == PlaceOffset(j)
  {
    LinksPut(b, PlaceOffset(j), nb, no, i, PlaceOffset(j));
    var r := PutLinks(b, PlaceOffset(j), nb, no, i, PlaceOffset(j));
    forall l: nat | l < j
      ensures InodeAt(r, PlaceOffset(l)) == InodeAt(b, PlaceOffset(l))
    {
      OffsetsOrdered(l, j);
      LinksElsewhere(b, PlaceOffset(j), nb, no, i, PlaceOffset(j), PlaceOffset(l));
    }
    SameLinks(b, r, i, j);
  }

  /** Byte k of a block is one of the link fields of its four inodes. */
  predicate IsLinkByte(k: nat) { k < 4 * INODE_SIZE && 20 <= k % INODE_SIZE < 36 }

  /** Nothing but the links differs. */
  ghost predicate OnlyLinks(b: Block, r: Block) {
    forall k: nat :: k < BLOCK_SIZE && !IsLinkByte(k) ==> r[k] == b[k]
  }

  lemma LinksOnly(b0: Block, b: Block, j: nat, nb: uint32, no: uint32, mb: uint32, mo: uint32)
    requires j < 4 && OnlyLinks(b0, b)
    ensures OnlyLinks(b0, PutLinks(b, PlaceOffset(j), nb, no, mb, mo))
  {
    var o := PlaceOffset(j);
    forall k: nat | o + 20 <= k < o + 36
      ensures IsLinkByte(k)
    {
      assert k == j * INODE_SIZE + (k - o) && k / INODE_SIZE == j && k % INODE_SIZE == k - o;
    }
  }

  lemma OffsetsOrdered(l: nat, j: nat)
    requires l < j < 4
    ensures PlaceOffset(l) + INODE_SIZE <= PlaceOffset(j)
  {
  }

  lemma SameLinks(b: Block, r: Block, i: nat, j: nat)
    requires 1 <= i && BlockLinked(b, i, j)
    requires forall l: nat :: l < j ==> InodeAt(r, PlaceOffset(l)) == InodeAt(b, PlaceOffset(l))
    ensures BlockLinked(r, i, j)
  {
  }

  lemma BlockLinkedNext(b: Block, i: nat, j: nat)
    requires 1 <= i && j < 4 && BlockLinked(b, i, j) && Linked(InodeAt(b, PlaceOffset(j)), (i - 1) * 4 + j)
    ensures BlockLinked(b, i, j + 1)
  {
  }

  /** The successor init_inodeList first writes for inode j of block i. */
  lemma NextPlace(i: nat, j: nat, inode: Inode)
    requires 1 <= i <= INODE_BLOCKS && j < 4 && (i < INODE_BLOCKS || j < 3)
    requires inode.nextBlock == (if j == 3 then i + 1 else i)
    requires inode.nextOffset == (if j == 3 then 0 else (j + 1) * INODE_SIZE)
    requires inode.myBlock == i && inode.myOffset == PlaceOffset(j)
    ensures Linked(inode, (i - 1) * 4 + j)
  {
    var n := (i - 1) * 4 + j;
    assert n < INODES - 1;
    assert PlaceBlock(n) == i && n % 4 == j;
    assert (n + 1) / 4 + 1 == (if j == 3 then i + 1 else i) && (n + 1) % 4 == (if j == 3 then 0 else j + 1);
  }

  /** One block of init_inodeList; arr starts as whatever the stack holds. */
  method LinkBlock(arr0: Block, i: nat) returns (arr: Block)
    requires 1 <= i <= INODE_BLOCKS
    ensures BlockLinked(arr, i, 4) && OnlyLinks(arr0, arr)
  {
    arr := arr0;
    for j := 0 to 4
      invariant OnlyLinks(arr0, arr)
      invariant BlockLinked(arr, i, if i == INODE_BLOCKS && j == 4 then 3 else j)
    {
      var nb, no := if j == 3 then i + 1 else i, if j == 3 then 0 else (j + 1) * INODE_SIZE;
      LinkStep(arr, i, j, nb, no);
      LinksOnly(arr0, arr, j, nb, no, i, PlaceOffset(j));
      arr := PutLinks(arr, PlaceOffset(j), nb, no, i, PlaceOffset(j));
      if i < INODE_BLOCKS || j < 3 {
        NextPlace(i, j, InodeAt(arr, PlaceOffset(j)));
        BlockLinkedNext(arr, i, j);
      }
    }
    if i == INODE_BLOCKS {
      // the very last inode ends the chain
      LinkStep(arr, i, 3, 0, 0);
      LinksOnly(arr0, arr, 3, 0, 0, i, PlaceOffset(3));
      arr := PutLinks(arr, PlaceOffset(3), 0, 0, i, PlaceOffset(3));
      BlockLinkedNext(arr, i, 3);
    }
  }

  lemma AllLinked(d: Blocks)
    requires forall b :: 1 <= b <= INODE_BLOCKS ==> BlockLinked(d[b], b, 4)
    ensures forall n: nat :: n < INODES ==> Linked(Nth(d, n), n)
  {
    forall n: nat | n < INODES
      ensures Linked(Nth(d, n), n)
    {
      var b, l := PlaceBlock(n), n % 4;
      assert BlockLinked(d[b], b, 4);
      assert PlaceOffset(l) == PlaceOffset(n) && (b - 1) * 4 + l == n;
    }
  }

  /** init_inodeList; junk holds the uninitialised buffer of each round. */
  method InitInodeList(disk: Disk, junk: seq<Block>)
    requires disk.Valid() && |junk| == INODE_BLOCKS
    modifies disk.blocks
    ensures forall n: nat :: n < INODES ==> Linked(Nth(disk.Now(), n), n)
    ensures forall b :: 1 <= b <= INODE_BLOCKS ==> OnlyLinks(junk[b - 1], disk.Now()[b])
    ensures forall b :: 0 <= b < TOTAL_BLOCKS && !(1 <= b <= INODE_BLOCKS) ==> disk.Now()[b] == old(disk.Now())[b]
  {
    for i := 1 to INODE_BLOCKS + 1
      invariant forall b :: 1 <= b < i ==> BlockLinked(disk.Now()[b], b, 4) && OnlyLinks(junk[b - 1], disk.Now()[b])
      invariant forall b :: 0 <= b < TOTAL_BLOCKS && !(1 <= b <= INODE_BLOCKS) ==> disk.Now()[b] == old(disk.Now())[b]
    {
      var arr := LinkBlock(junk[i - 1], i);
      disk.WriteBlock(arr, i);
    }
    AllLinked(disk.Now());
  }

  /** init_superBlock: the chain starts at the first inode, the bitmap lies behind the
      inode blocks. The root fields keep what the stack held. */
  method InitSuperBlock(disk: Disk, rootBlock: uint32, rootOffset: uint32, junk: seq<byte>)
    requires disk.Valid() && |junk| == BLOCK_SIZE - 36
    modifies disk.blocks
    ensures SuperAt(disk.Now()[0]) == Super(1, 0, rootBlock, rootOffset, [51, 52, 53, 54, 55]) && disk.Now()[0][36..] == junk
    ensures disk.Now() == old(disk.Now())[0 := disk.Now()[0]]
  {
    var bitmapNo: seq<uint32> := [];
    for i := 0 to BITMAP_BLOCKS
      invariant |bitmapNo| == i && forall k :: 0 <= k < i ==> bitmapNo[k] == INODE_BLOCKS + k + 1
    {
      bitmapNo := bitmapNo + [INODE_BLOCKS + i + 1];
    }
    assert bitmapNo == [51, 52, 53, 54, 55];
    WriteSuper(disk, Super(1, 0, rootBlock, rootOffset, bitmapNo), junk);
  }
}
