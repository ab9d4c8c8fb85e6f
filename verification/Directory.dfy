/** writeDirectory and seekNextInode of file.c. */
module Directory {
  import opened Bytes
  import opened Layout
  import opened BlockDevice
  import opened Bitmap
  import opened Strings

  const NAME_MAX: nat := 20        // FILE_NAME_MAX
  const DIR_ITEM_SIZE: nat := 28   // sizeof(struct dir_item)
  const SLASH: byte := 47

  /** The block with a directory item at byte o: the name with its terminator, then the
      place of the inode behind the 20 name bytes. */
  function WithEntry(b: Block, o: nat, name: seq<byte>, inodeBlock: uint32, inodeOffset: uint32): Block
    requires o + DIR_ITEM_SIZE <= BLOCK_SIZE && o + |name| <= BLOCK_SIZE
  {
    Splice(Splice(b, o + NAME_MAX, Encode([inodeBlock, inodeOffset])), o, name)
  }

  /** The inode place stored in the item at byte o. */
  function EntryAt(b: Block, o: nat): (ws: seq<uint32>)
    requires o + DIR_ITEM_SIZE <= BLOCK_SIZE
    ensures |ws| == 2
  {
    Decode(Slice(b, o + NAME_MAX, 8))
  }

  /** Where the fields of struct dir_item lie: 20 bytes of name, then block and offset. */
  lemma EntryFields(b: Block, o: nat)
    requires o + DIR_ITEM_SIZE <= BLOCK_SIZE
    ensures EntryAt(b, o) == [WordAt(b, o + 20), WordAt(b, o + 24)]
  {
    var s := Slice(b, o + NAME_MAX, 8);
    DecodeAt(s, 0);
    DecodeAt(s, 1);
    assert s[0..4] == b[o + 20..o + 24] && s[4..8] == b[o + 24..o + 28];
  }

  lemma EntryWritten(b: Block, o: nat, name: seq<byte>, inodeBlock: uint32, inodeOffset: uint32)
    requires o + DIR_ITEM_SIZE <= BLOCK_SIZE && |name| <= NAME_MAX
    ensures var r := WithEntry(b, o, name, inodeBlock, inodeOffset);
      && EntryAt(r, o) == [inodeBlock, inodeOffset]
      && r[o..o + |name|] == name
      && (forall k :: 0 <= k < BLOCK_SIZE && !(o <= k < o + DIR_ITEM_SIZE) ==> r[k] == b[k])
  {
    var ws: seq<uint32> := [inodeBlock, inodeOffset];
    var b1 := Splice(b, o + NAME_MAX, Encode(ws));
    SliceOfSplice(b, o + NAME_MAX, Encode(ws), o + NAME_MAX, 8);
    SliceOfSplice(b1, o, name, o + NAME_MAX, 8);
    DecodeOfEncode(ws);
  }

  /** The name is written after the place, whatever its length: the item leads to
      its inode if and only if those bytes of the name that lie over the place are the
      place's own. So every name of at most 20 bytes with its terminator is safe. */
  lemma LongNameIff(b: Block, o: nat, name: seq<byte>, inodeBlock: uint32, inodeOffset: uint32)
    requires o + DIR_ITEM_SIZE <= BLOCK_SIZE && o + |name| <= BLOCK_SIZE
    ensures EntryAt(WithEntry(b, o, name, inodeBlock, inodeOffset), o) == [inodeBlock, inodeOffset] <==>
            forall k :: NAME_MAX <= k < |name| && k < DIR_ITEM_SIZE ==> name[k] == Encode([inodeBlock, inodeOffset])[k - NAME_MAX]
  {
    var place, r := Encode([inodeBlock, inodeOffset]), WithEntry(b, o, name, inodeBlock, inodeOffset);
    var s := Slice(r, o + NAME_MAX, 8);
    DecodeOfEncode([inodeBlock, inodeOffset]);
    EncodeOfDecode(s);
    OverPlace(b, o, name, place);
  }

  lemma OverPlace(b: Block, o: nat, name: seq<byte>, place: seq<byte>)
    requires o + DIR_ITEM_SIZE <= BLOCK_SIZE && o + |name| <= BLOCK_SIZE && |place| == 8
    ensures Slice(Splice(Splice(b, o + NAME_MAX, place), o, name), o + NAME_MAX, 8) == place <==>
            forall k :: NAME_MAX <= k < |name| && k < DIR_ITEM_SIZE ==> name[k] == place[k - NAME_MAX]
  {
    var s := Slice(Splice(Splice(b, o + NAME_MAX, place), o, name), o + NAME_MAX, 8);
    assert forall j :: 0 <= j < 8 ==> s[j] == if NAME_MAX + j < |name| then name[NAME_MAX + j] else place[j];
    if s == place {
      forall k | NAME_MAX <= k < |name| && k < DIR_ITEM_SIZE
        ensures name[k] == place[k - NAME_MAX]
      {
        assert s[k - NAME_MAX] == place[k - NAME_MAX];
      }
    }
  }

  /** Where the next item goes: behind the last one, or at the start of the next block if
      it does not fit. */
  function ItemBlock(size: nat): nat {
    if size % BLOCK_SIZE + DIR_ITEM_SIZE > BLOCK_SIZE then size / BLOCK_SIZE + 1 else size / BLOCK_SIZE
  }
  function ItemOffset(size: nat): (o: nat)
    ensures o + DIR_ITEM_SIZE <= BLOCK_SIZE
  {
    if size % BLOCK_SIZE + DIR_ITEM_SIZE > BLOCK_SIZE then 0 else size % BLOCK_SIZE
  }

  /** The last component of a path, with its terminator: a string of its own. */
  function NameIn(path: seq<byte>): (name: seq<byte>)
    requires Terminated(path, 0)
    ensures Terminated(name, 0) && End(name, 0) == |name| - 1 && SLASH !in name[..|name| - 1]
  {
    var e := End(path, 0);
    var p := NamePos(path, e, SLASH);
    var name := path[p..e + 1];
    assert name[|name| - 1] == 0 && forall k :: 0 <= k < |name| - 1 ==> name[k] == path[p + k] != 0;
    name
  }

  /** The inode table of a directory after writeDirectory has made sure of a next block. */
  ghost function Grown(d: Blocks, base: Inode): Inode
    requires ItemBlock(base.size) < MAX_BLOCKS
  {
    if ItemBlock(base.size) != base.size / BLOCK_SIZE && base.blockNo[ItemBlock(base.size)] == 0
    then base.(blockNo := base.blockNo[FreeSlot(base.blockNo, 0) := FirstClear(d[BITMAP], 0)])
    else base
  }

  /** The end of writeDirectory: read the block, fill the item in, write it back. */
  method PutItem(disk: Disk, at: nat, offset: nat, path: seq<byte>, ino: Inode)
    requires disk.Valid() && at < TOTAL_BLOCKS && offset + DIR_ITEM_SIZE <= BLOCK_SIZE
    requires Terminated(path, 0) && offset + |NameIn(path)| <= BLOCK_SIZE
    modifies disk.blocks
    ensures disk.Now() == old(disk.Now())[at := WithEntry(old(disk.Now())[at], offset, NameIn(path), ino.myBlock, ino.myOffset)]
  {
    var name := NameStart(path, SLASH);
    var dirBlock := disk.ReadBlock(at);
    dirBlock := Splice(dirBlock, offset + NAME_MAX, Encode([ino.myBlock, ino.myOffset]));
    var n := StrSize(path, name);
    dirBlock := Splice(dirBlock, offset, path[name..name + n + 1]);
    disk.WriteBlock(dirBlock, at);
  }

  /** The disk once writeDirectory has a block for the item. */
  ghost function Prepared(d: Blocks, base: Inode): Blocks
    requires ItemBlock(base.size) < MAX_BLOCKS && BitmapOk(d)
  {
    FreshIffRoom(d);
    if Grown(d, base) == base then d else HandedOut(d, FirstClear(d[BITMAP], 0))
  }

  /** writeDirectory. The caller's copy of the directory inode may gain a block; its size
      is left to the caller. The path has to fit the 100-byte copy and the name the block. */
  method WriteDirectory(disk: Disk, base: Inode, path: seq<byte>, ino: Inode) returns (base': Inode)
    requires disk.Valid() && BitmapOk(disk.Now())
    requires Terminated(path, 0) && End(path, 0) < 100 && ItemOffset(base.size) + |NameIn(path)| <= BLOCK_SIZE
    requires ItemBlock(base.size) < MAX_BLOCKS
    requires forall k :: 0 <= k < MAX_BLOCKS ==> base.blockNo[k] < TOTAL_BLOCKS
    modifies disk.blocks
    ensures base' == Grown(old(disk.Now()), base)
    ensures
      var d1, at := Prepared(old(disk.Now()), base), base'.blockNo[ItemBlock(base.size)];
      && at < TOTAL_BLOCKS
      && disk.Now() == d1[at := WithEntry(d1[at], ItemOffset(base.size), NameIn(path), ino.myBlock, ino.myOffset)]
  {
    var index, offset;
    base', index, offset := NextPlace(disk, base);
    PutItem(disk, base'.blockNo[index], offset, path, ino);
  }

  /** The start of writeDirectory: where the item goes, with a block for it. */
  method NextPlace(disk: Disk, base: Inode) returns (base': Inode, index: nat, offset: nat)
    requires disk.Valid() && BitmapOk(disk.Now()) && ItemBlock(base.size) < MAX_BLOCKS
    requires forall k :: 0 <= k < MAX_BLOCKS ==> base.blockNo[k] < TOTAL_BLOCKS
    modifies disk.blocks
    ensures base' == Grown(old(disk.Now()), base) && index == ItemBlock(base.size) && offset == ItemOffset(base.size)
    ensures disk.Now() == Prepared(old(disk.Now()), base) && base'.blockNo[index] < TOTAL_BLOCKS
  {
    base' := base;
    ghost var d := disk.Now();
    index, offset := base.size / BLOCK_SIZE, base.size % BLOCK_SIZE;
    if offset + DIR_ITEM_SIZE > BLOCK_SIZE {
      index := index + 1;
      offset := 0;
      if base'.blockNo[index] == 0 {
        FreshIffRoom(d);
        var ignored;
        ignored, base' := AllocBlock(disk, base);
        assert base'.blockNo[FreeSlot(base.blockNo, 0)] != 0;
      }
    }
  }

  // ----- lookup

  /** seekNextInode loads an inode, reports that the name is not there, or leaves what the
      C language defines (a search without return value, an item that reaches over the
      block's end, an item that names no inode). */
  datatype Seek = Loaded(inode: Inode) | Missing | Undefined

  /** As many blocks as the bytes of the directory reach into. */
  function DirBlocks(size: nat): (n: nat)
    ensures (n - 1) * BLOCK_SIZE < size <= n * BLOCK_SIZE
  {
    if size % BLOCK_SIZE > 0 then size / BLOCK_SIZE + 1 else size / BLOCK_SIZE
  }

  /** The name occurs nowhere in block b, and the search says so. */
  ghost predicate NotIn(name: seq<byte>, b: Block, tail: seq<byte>)
    requires Terminated(name, 0) && |tail| > End(name, 0)
  {
    b[BLOCK_SIZE - 1] != name[0] && forall o: nat :: o < BLOCK_SIZE ==> !Occurs(name, End(name, 0), b + tail, o)
  }

  /** The first occurrence of the name in the directory is at byte o of its block i. */
  ghost predicate FirstAt(d: Blocks, dir: Inode, name: seq<byte>, tail: seq<byte>, i: nat, o: nat)
    requires Terminated(name, 0) && |tail| > End(name, 0)
    requires forall k :: 0 <= k < MAX_BLOCKS ==> dir.blockNo[k] < TOTAL_BLOCKS
  {
    && i < DirBlocks(dir.size) && i < MAX_BLOCKS && o < BLOCK_SIZE
    && (forall k :: 0 <= k < i ==> NotIn(name, d[dir.blockNo[k]], tail))
    && Occurs(name, End(name, 0), d[dir.blockNo[i]] + tail, o)
    && forall k: nat :: k < o ==> !Occurs(name, End(name, 0), d[dir.blockNo[i]] + tail, k)
  }

  predicate GoodPlace(ws: seq<uint32>) {
    |ws| == 2 && ws[0] < TOTAL_BLOCKS && ws[1] + INODE_SIZE <= BLOCK_SIZE
  }

  /** What the item at byte o of block b leads to. */
  function Item(d: Blocks, b: Block, o: nat): Seek {
    if o + DIR_ITEM_SIZE <= BLOCK_SIZE && GoodPlace(EntryAt(b, o))
    then Loaded(InodeAt(d[EntryAt(b, o)[0]], EntryAt(b, o)[1]))
    else Undefined
  }

  /** An item leads to an inode if and only if it lies in the block and names 116 bytes that
      lie within one of the 1000 blocks. */
  lemma ItemLeadsIff(d: Blocks, b: Block, o: nat)
    ensures Item(d, b, o) != Undefined <==> o + 28 <= 512 && WordAt(b, o + 20) < 1000 && WordAt(b, o + 24) + 116 <= 512
  {
    if o + DIR_ITEM_SIZE <= BLOCK_SIZE {
      EntryFields(b, o);
    }
  }

  /** seekNextInode, name being the string in file_name after strcut; tail is the memory
      behind the 512-byte buffer, which the comparison may run into. */
  method SeekNextInode(disk: Disk, dir: Inode, name: seq<byte>, tail: seq<byte>) returns (r: Seek)
    requires disk.Valid() && Terminated(name, 0) && End(name, 0) < NAME_MAX && |tail| > End(name, 0)
    requires DirBlocks(dir.size) <= MAX_BLOCKS
    requires forall k :: 0 <= k < MAX_BLOCKS ==> dir.blockNo[k] < TOTAL_BLOCKS
    ensures forall i: nat, o: nat :: FirstAt(disk.Now(), dir, name, tail, i, o) ==> r == Item(disk.Now(), disk.Now()[dir.blockNo[i]], o)
    ensures r == Missing <==> forall k :: 0 <= k < DirBlocks(dir.size) ==> NotIn(name, disk.Now()[dir.blockNo[k]], tail)
  {
    var blocks := DirBlocks(dir.size);
    for i := 0 to blocks
      invariant forall k :: 0 <= k < i ==> NotIn(name, disk.Now()[dir.blockNo[k]], tail)
    {
      var target := disk.ReadBlock(dir.blockNo[i]);
      var found := StrMatch(name, target + tail, BLOCK_SIZE);
      match found {
        case NotFound =>
        case NoReturnValue =>
          return Undefined;
        case Found(o) =>
          if o + DIR_ITEM_SIZE > BLOCK_SIZE || !GoodPlace(EntryAt(target, o)) {
            return Undefined;
          }
          var ws := EntryAt(target, o);
          var b := disk.ReadBlock(ws[0]);
          return Loaded(InodeAt(b, ws[1]));
      }
    }
    return Missing;
  }

  /** The caller adds one item's size after each insertion, even when the item was moved to
      the next block: two items written one after the other overlap if and only if the
      first one did not fit behind its predecessors. */
  lemma ItemsOverlapIff(size: nat)
    ensures ItemBlock(size) == ItemBlock(size + DIR_ITEM_SIZE) && ItemOffset(size + DIR_ITEM_SIZE) < ItemOffset(size) + DIR_ITEM_SIZE
            <==> size % BLOCK_SIZE + DIR_ITEM_SIZE > BLOCK_SIZE
  {
    var b, r := size / BLOCK_SIZE, size % BLOCK_SIZE;
    assert size == b * BLOCK_SIZE + r;
    if r + DIR_ITEM_SIZE >= BLOCK_SIZE {
      assert (size + DIR_ITEM_SIZE) / BLOCK_SIZE == b + 1 && (size + DIR_ITEM_SIZE) % BLOCK_SIZE == r + DIR_ITEM_SIZE - BLOCK_SIZE;
    } else {
      assert (size + DIR_ITEM_SIZE) / BLOCK_SIZE == b && (size + DIR_ITEM_SIZE) % BLOCK_SIZE == r + DIR_ITEM_SIZE;
    }
  }

  // ----- insert, then look up

  /** The name occurs in block b at no offset below o. */
  ghost predicate NotBefore(name: seq<byte>, b: Block, tail: seq<byte>, o: nat)
    requires Terminated(name, 0) && |tail| > End(name, 0) && o <= BLOCK_SIZE
  {
    forall k: nat :: k < o ==> !Occurs(name, End(name, 0), b + tail, k)
  }

  /** The item written by writeDirectory is the first place where its name occurs, given
      that the name does not occur earlier in the directory. */
  lemma InsertedFirst(d: Blocks, dir: Inode, i: nat, o: nat, name: seq<byte>, ino: Inode, tail: seq<byte>, b: Block)
    requires Terminated(name, 0) && End(name, 0) == |name| - 1 && 1 < |name| <= NAME_MAX && |tail| >= |name|
    requires o + DIR_ITEM_SIZE <= BLOCK_SIZE && i < MAX_BLOCKS && i < DirBlocks(dir.size)
    requires forall k :: 0 <= k < MAX_BLOCKS ==> dir.blockNo[k] < TOTAL_BLOCKS
    requires d[dir.blockNo[i]] == WithEntry(b, o, name, ino.myBlock, ino.myOffset)
    requires forall k :: 0 <= k < i ==> NotIn(name, d[dir.blockNo[k]], tail)
    requires NotBefore(name, d[dir.blockNo[i]], tail, o)
    ensures FirstAt(d, dir, name, tail, i, o)
    ensures EntryAt(d[dir.blockNo[i]], o) == [ino.myBlock, ino.myOffset]
  {
    EntryWritten(b, o, name, ino.myBlock, ino.myOffset);
    EntryOccurs(d[dir.blockNo[i]], o, name, tail);
  }

  lemma EntryOccurs(b: Block, o: nat, name: seq<byte>, tail: seq<byte>)
    requires 1 < |name| <= |tail| && o + |name| <= BLOCK_SIZE && b[o..o + |name|] == name
    ensures Occurs(name, |name| - 1, b + tail, o)
  {
    var n := |name| - 1;
    assert (b + tail)[o..o + n] == b[o..o + |name|][..n];
    assert b[o..o + |name|][0] == b[o];
  }

  /** A directory of at most 504 bytes can take the name: what the search meets before the
      new item does not contain it. */
  ghost predicate Insertable(d: Blocks, base: Inode, path: seq<byte>, ino: Inode, tail: seq<byte>)
    requires BitmapOk(d) && Terminated(path, 0)
  {
    && End(path, 0) < 100 && 1 < |NameIn(path)| <= NAME_MAX && |tail| >= |NameIn(path)|
    && base.size <= 504
    && (forall k :: 0 <= k < MAX_BLOCKS ==> base.blockNo[k] < TOTAL_BLOCKS)
    && GoodPlace([ino.myBlock, ino.myOffset])
    && var d1 := Prepared(d, base);
       var at := Grown(d, base).blockNo[ItemBlock(base.size)];
       && at < TOTAL_BLOCKS
       && (ItemBlock(base.size) == 1 ==> at != base.blockNo[0] && base.blockNo[0] != 0 && NotIn(NameIn(path), d1[base.blockNo[0]], tail))
       && NotBefore(NameIn(path), WithEntry(d1[at], ItemOffset(base.size), NameIn(path), ino.myBlock, ino.myOffset), tail, ItemOffset(base.size))
  }

  /** The search in the directory that writeDirectory leaves ends at the new item. */
  lemma InsertedIsFound(d: Blocks, base: Inode, path: seq<byte>, ino: Inode, tail: seq<byte>, d2: Blocks, dir: Inode)
    requires BitmapOk(d) && Terminated(path, 0) && Insertable(d, base, path, ino, tail)
    requires dir == Grown(d, base).(size := base.size + DIR_ITEM_SIZE)
    requires var d1, at := Prepared(d, base), dir.blockNo[ItemBlock(base.size)];
      d2 == d1[at := WithEntry(d1[at], ItemOffset(base.size), NameIn(path), ino.myBlock, ino.myOffset)]
    ensures forall k :: 0 <= k < MAX_BLOCKS ==> dir.blockNo[k] < TOTAL_BLOCKS
    ensures FirstAt(d2, dir, NameIn(path), tail, ItemBlock(base.size), ItemOffset(base.size))
    ensures Item(d2, d2[dir.blockNo[ItemBlock(base.size)]], ItemOffset(base.size)) == Loaded(InodeAt(d2[ino.myBlock], ino.myOffset))
  {
    SlotsInRange(d, base);
    var d1 := Prepared(d, base);
    var i := ItemBlock(base.size);
    assert i == 0 || (i == 1 && dir.blockNo[0] == base.blockNo[0]);
    InsertedFirst(d2, dir, i, ItemOffset(base.size), NameIn(path), ino, tail, d1[dir.blockNo[i]]);
  }

  lemma SlotsInRange(d: Blocks, base: Inode)
    requires BitmapOk(d) && ItemBlock(base.size) < MAX_BLOCKS
    requires forall k :: 0 <= k < MAX_BLOCKS ==> base.blockNo[k] < TOTAL_BLOCKS
    ensures forall k :: 0 <= k < MAX_BLOCKS ==> Grown(d, base).blockNo[k] < TOTAL_BLOCKS
  {
    FreshIffRoom(d);
  }

  /** A name of at most 19 bytes goes into a directory of at most 504 bytes; the caller adds
      the item's size; then looking the name up loads exactly the inode it was written for,
      if the name's bytes occur at no earlier offset of the directory. */
  method InsertThenLookup(disk: Disk, base: Inode, path: seq<byte>, ino: Inode, tail: seq<byte>) returns (r: Seek)
    requires disk.Valid() && BitmapOk(disk.Now())
    requires Terminated(path, 0) && Insertable(disk.Now(), base, path, ino, tail)
    modifies disk.blocks
    ensures r == Loaded(InodeAt(disk.Now()[ino.myBlock], ino.myOffset))
  {
    ghost var d := disk.Now();
    var dir := WriteDirectory(disk, base, path, ino);
    dir := dir.(size := dir.size + DIR_ITEM_SIZE);
    InsertedIsFound(d, base, path, ino, tail, disk.Now(), dir);
    r := Lookup(disk, dir, path, tail);
  }

  /** Looking up the last component of a path. */
  method Lookup(disk: Disk, dir: Inode, path: seq<byte>, tail: seq<byte>) returns (r: Seek)
    requires disk.Valid() && Terminated(path, 0) && |NameIn(path)| <= NAME_MAX && |tail| >= |NameIn(path)|
    requires DirBlocks(dir.size) <= MAX_BLOCKS
    requires forall k :: 0 <= k < MAX_BLOCKS ==> dir.blockNo[k] < TOTAL_BLOCKS
    ensures forall i: nat, o: nat :: FirstAt(disk.Now(), dir, NameIn(path), tail, i, o) ==> r == Item(disk.Now(), disk.Now()[dir.blockNo[i]], o)
    ensures r == Missing <==> forall k :: 0 <= k < DirBlocks(dir.size) ==> NotIn(NameIn(path), disk.Now()[dir.blockNo[k]], tail)
  {
    var name := NameStart(path, SLASH);
    var fileName := new byte[NAME_MAX];
    StrCut(path, name, SLASH, fileName);
    assert CutAt(path, name, SLASH) == End(path, 0);
    CutIsName(path, fileName[..]);
    var n := StrSize(fileName[..], 0);
    var wanted := fileName[..n + 1];
    assert wanted == NameIn(path);
    r := SeekNextInode(disk, dir, wanted, tail);
  }

  /** The last component has no separator, so strcut copies it with its terminator. */
  lemma CutIsName(path: seq<byte>, fileName: seq<byte>)
    requires Terminated(path, 0) && |NameIn(path)| <= |fileName|
    requires fileName[..|NameIn(path)|] == NameIn(path)
    ensures Terminated(fileName, 0) && fileName[..End(fileName, 0) + 1] == NameIn(path)
  {
    CopyEnds(fileName, NameIn(path));
  }

  /** A buffer that starts with a terminated string holds that string. */
  lemma CopyEnds(t: seq<byte>, name: seq<byte>)
    requires 0 < |name| <= |t| && t[..|name|] == name
    requires name[|name| - 1] == 0 && forall k :: 0 <= k < |name| - 1 ==> name[k] != 0
    ensures Terminated(t, 0) && End(t, 0) == |name| - 1
  {
    var e := |name| - 1;
    assert forall k :: 0 <= k <= e ==> t[k] == t[..|name|][k];
    assert t[e] == 0;
  }

  // ----- any number of insertions

  /** A directory item: a name with its terminator and the place of its inode. */
  datatype DirItem = DirItem(name: seq<byte>, inodeBlock: uint32, inodeOffset: uint32)

  type ShortItem = i: DirItem | |i.name| <= NAME_MAX witness DirItem([], 0, 0)

  function WithItem(b: Block, o: nat, i: ShortItem): Block
    requires o + DIR_ITEM_SIZE <= BLOCK_SIZE
  {
    WithEntry(b, o, i.name, i.inodeBlock, i.inodeOffset)
  }

  /** Item i is at byte o of block b. */
  predicate HasItem(b: Block, o: nat, i: ShortItem)
    requires o + DIR_ITEM_SIZE <= BLOCK_SIZE
  {
    EntryAt(b, o) == [i.inodeBlock, i.inodeOffset] && b[o..o + |i.name|] == i.name
  }

  lemma ItemPut(b: Block, o: nat, i: ShortItem)
    requires o + DIR_ITEM_SIZE <= BLOCK_SIZE
    ensures HasItem(WithItem(b, o, i), o, i)
  {
    EntryWritten(b, o, i.name, i.inodeBlock, i.inodeOffset);
  }

  lemma ItemUntouched(b: Block, o: nat, i: ShortItem, at: nat, j: ShortItem)
    requires at + DIR_ITEM_SIZE <= o && o + DIR_ITEM_SIZE <= BLOCK_SIZE && HasItem(b, at, j)
    ensures HasItem(WithItem(b, o, i), at, j)
  {
    var r := WithItem(b, o, i);
    EntryWritten(b, o, i.name, i.inodeBlock, i.inodeOffset);
    assert Slice(r, at + NAME_MAX, 8) == Slice(b, at + NAME_MAX, 8);
    assert r[at..at + |j.name|] == b[at..at + |j.name|];
  }

  /** Block b with the first n items one after the other from byte o on. */
  function Listed(b: Block, o: nat, items: seq<ShortItem>, n: nat): Block
    requires n <= |items| && o + DIR_ITEM_SIZE * n <= BLOCK_SIZE
  {
    if n == 0 then b else WithItem(Listed(b, o, items, n - 1), o + DIR_ITEM_SIZE * (n - 1), items[n - 1])
  }

  /** Every item is still whole, whatever has been inserted after it. */
  lemma {:induction false} ListedItem(b: Block, o: nat, items: seq<ShortItem>, n: nat, k: nat)
    requires k < n <= |items| && o + DIR_ITEM_SIZE * n <= BLOCK_SIZE
    ensures HasItem(Listed(b, o, items, n), o + DIR_ITEM_SIZE * k, items[k])
  {
    var before, last := Listed(b, o, items, n - 1), o + DIR_ITEM_SIZE * (n - 1);
    if k < n - 1 {
      ListedItem(b, o, items, n - 1, k);
      ItemUntouched(before, last, items[n - 1], o + DIR_ITEM_SIZE * k, items[k]);
    } else {
      ItemPut(before, last, items[n - 1]);
    }
  }

  /** One request to writeDirectory: a path and the inode it is to lead to. */
  datatype Insertion = Insertion(path: seq<byte>, ino: Inode)

  predicate Fits(e: Insertion) {
    && Terminated(e.path, 0) && End(e.path, 0) < 100 && 1 < |NameIn(e.path)| <= NAME_MAX
    && GoodPlace([e.ino.myBlock, e.ino.myOffset])
  }

  function ItemOf(e: Insertion): ShortItem
    requires Fits(e)
  {
    DirItem(NameIn(e.path), e.ino.myBlock, e.ino.myOffset)
  }

  predicate AllFit(es: seq<Insertion>) {
    forall k :: 0 <= k < |es| ==> Fits(es[k])
  }

  function ItemsOf(es: seq<Insertion>): (items: seq<ShortItem>)
    requires AllFit(es)
    ensures |items| == |es| && forall k :: 0 <= k < |es| ==> items[k] == ItemOf(es[k])
  {
    seq(|es|, k requires 0 <= k < |es| => ItemOf(es[k]))
  }

  /** A directory that has room for the insertions in its first block. */
  ghost predicate RoomFor(d: Blocks, dir: Inode, es: seq<Insertion>) {
    && BitmapOk(d) && AllFit(es) && dir.size + DIR_ITEM_SIZE * |es| <= 504 && FIRST_DATA <= dir.blockNo[0]
    && forall k :: 0 <= k < MAX_BLOCKS ==> dir.blockNo[k] < TOTAL_BLOCKS
  }

  /** The disk and the directory's inode after the first k insertions. */
  ghost predicate Inserted(d: Blocks, d': Blocks, dir: Inode, dir': Inode, es: seq<Insertion>, k: nat)
    requires RoomFor(d, dir, es) && k <= |es|
  {
    && dir' == dir.(size := dir.size + DIR_ITEM_SIZE * k)
    && d' == d[dir.blockNo[0] := Listed(d[dir.blockNo[0]], dir.size, ItemsOf(es), k)]
  }

  /** Insertions into a directory that stays within one block; the caller adds the item's
      size after each. */
  method InsertAll(disk: Disk, dir: Inode, es: seq<Insertion>) returns (dir': Inode)
    requires disk.Valid() && RoomFor(disk.Now(), dir, es)
    modifies disk.blocks
    ensures Inserted(old(disk.Now()), disk.Now(), dir, dir', es, |es|)
  {
    ghost var d := disk.Now();
    dir' := dir;
    InsertedNone(d, dir, es);
    for k := 0 to |es|
      invariant Inserted(d, disk.Now(), dir, dir', es, k)
    {
      dir' := InsertNext(disk, dir', es, k, d, dir);
    }
  }

  lemma InsertedNone(d: Blocks, dir: Inode, es: seq<Insertion>)
    requires RoomFor(d, dir, es)
    ensures Inserted(d, d, dir, dir, es, 0)
  {
  }

  /** One more item. */
  method InsertNext(disk: Disk, dir: Inode, es: seq<Insertion>, k: nat, ghost d: Blocks, ghost dir0: Inode) returns (dir': Inode)
    requires disk.Valid() && RoomFor(d, dir0, es) && k < |es|
    requires Inserted(d, disk.Now(), dir0, dir, es, k)
    modifies disk.blocks
    ensures Inserted(d, disk.Now(), dir0, dir', es, k + 1)
  {
    InsertedReady(d, disk.Now(), dir0, dir, es, k);
    ghost var d1 := disk.Now();
    dir' := InsertOne(disk, dir, es[k]);
    InsertedMore(d, d1, disk.Now(), dir0, dir, dir', es, k);
  }

  /** writeDirectory in the first block, and the caller's new size. */
  method InsertOne(disk: Disk, dir: Inode, e: Insertion) returns (dir': Inode)
    requires disk.Valid() && Fits(e) && RoomFor(disk.Now(), dir, [e])
    modifies disk.blocks
    ensures var at, d := dir.blockNo[0], old(disk.Now());
      && dir' == dir.(size := dir.size + DIR_ITEM_SIZE)
      && at < TOTAL_BLOCKS && disk.Now() == d[at := WithItem(d[at], dir.size, ItemOf(e))]
  {
    dir' := WriteDirectory(disk, dir, e.path, e.ino);
    dir' := dir'.(size := dir'.size + DIR_ITEM_SIZE);
  }

  lemma InsertedReady(d: Blocks, d1: Blocks, dir0: Inode, dir: Inode, es: seq<Insertion>, k: nat)
    requires RoomFor(d, dir0, es) && k < |es| && Inserted(d, d1, dir0, dir, es, k)
    ensures RoomFor(d1, dir, [es[k]])
  {
  }

  lemma InsertedMore(d: Blocks, d1: Blocks, d2: Blocks, dir0: Inode, dir: Inode, dir': Inode, es: seq<Insertion>, k: nat)
    requires RoomFor(d, dir0, es) && k < |es| && Inserted(d, d1, dir0, dir, es, k)
    requires dir' == dir.(size := dir.size + DIR_ITEM_SIZE)
    requires dir.size + DIR_ITEM_SIZE <= BLOCK_SIZE && d2 == d1[dir.blockNo[0] := WithItem(d1[dir.blockNo[0]], dir.size, ItemOf(es[k]))]
    ensures Inserted(d, d2, dir0, dir', es, k + 1)
  {
  }

  /** A name that occurs has a first occurrence. */
  lemma {:induction false} FirstOccurrence(name: seq<byte>, n: nat, t: seq<byte>, at: nat) returns (o: nat)
    requires n < |name| && at + n < |t| && Occurs(name, n, t, at)
    ensures o <= at && Occurs(name, n, t, o) && forall k: nat :: k < o ==> !Occurs(name, n, t, k)
    decreases at
  {
    if k: nat :| k < at && Occurs(name, n, t, k) {
      o := FirstOccurrence(name, n, t, k);
    } else {
      o := at;
    }
  }

  /** Names go into a directory one after the other, any number of them up to 504 bytes in
      all; then one of them is looked up. The search never misses: it ends at the first
      place where the name's bytes occur, at the latest at the name's own item, and if they
      occur at no earlier offset it loads exactly the inode that was inserted with it. */
  method InsertAllThenLookup(disk: Disk, dir: Inode, es: seq<Insertion>, k: nat, tail: seq<byte>) returns (r: Seek, dir': Inode, ghost o: nat)
    requires disk.Valid() && RoomFor(disk.Now(), dir, es) && k < |es| && |tail| >= NAME_MAX
    modifies disk.blocks
    ensures dir' == dir.(size := dir.size + DIR_ITEM_SIZE * |es|)
    ensures o <= dir.size + DIR_ITEM_SIZE * k && FirstAt(disk.Now(), dir', NameIn(es[k].path), tail, 0, o)
    ensures r == Item(disk.Now(), disk.Now()[dir.blockNo[0]], o)
    ensures NotBefore(NameIn(es[k].path), disk.Now()[dir.blockNo[0]], tail, dir.size + DIR_ITEM_SIZE * k) ==>
              r == Loaded(InodeAt(disk.Now()[es[k].ino.myBlock], es[k].ino.myOffset))
  {
    ghost var b := disk.Now()[dir.blockNo[0]];
    dir' := InsertAll(disk, dir, es);
    ListedItem(b, dir.size, ItemsOf(es), |es|, k);
    o := ItemFoundAt(disk.Now(), dir', es[k], dir.size + DIR_ITEM_SIZE * k, tail);
    r := Lookup(disk, dir', es[k].path, tail);
  }

  /** A search in a directory of one block that has the item ends at it or before. */
  lemma ItemFoundAt(d: Blocks, dir: Inode, e: Insertion, at: nat, tail: seq<byte>) returns (o: nat)
    requires Fits(e) && |tail| >= NAME_MAX && at + DIR_ITEM_SIZE <= dir.size <= 504
    requires forall i :: 0 <= i < MAX_BLOCKS ==> dir.blockNo[i] < TOTAL_BLOCKS
    requires HasItem(d[dir.blockNo[0]], at, ItemOf(e))
    ensures o <= at && FirstAt(d, dir, NameIn(e.path), tail, 0, o)
    ensures NotBefore(NameIn(e.path), d[dir.blockNo[0]], tail, at) ==>
              Item(d, d[dir.blockNo[0]], o) == Loaded(InodeAt(d[e.ino.myBlock], e.ino.myOffset))
  {
    var name, r := NameIn(e.path), d[dir.blockNo[0]];
    EntryOccurs(r, at, name, tail);
    o := FirstOccurrence(name, End(name, 0), r + tail, at);
    assert NotBefore(name, r, tail, at) ==> o == at;
  }
}
