/** Physical memory with its free-page list, and the page primitives of memory.c. */
module PhysicalMemory {
  import opened Words
  import opened FreeList

  class Ram {
    const words: array<word>
    var freeList: word           // free_list: kernel address of the first free page
    ghost var free: seq<nat>     // the frames on the list, first one first
    ghost var end: word          // the word behind the last free page

    ghost predicate Valid()
      reads this, words
    {
      words.Length == RAM_WORDS && Chain(words[..], freeList, free, end)
    }

    function Snapshot(): Mem
      requires words.Length == RAM_WORDS
      reads words
    {
      words[..]
    }

    constructor (words: array<word>)
      ensures this.words == words
    {
      this.words := words;
    }

    /** One 32-bit load at kernel address a. */
    method Load(f: nat, i: nat) returns (w: word)
      requires words.Length == RAM_WORDS && f < PAGES && i < WORDS
      ensures w == Word(Snapshot(), f, i)
    {
      w := words[f * 1024 + i];
    }

    /** One 32-bit store. */
    method Store(f: nat, i: nat, w: word)
      requires words.Length == RAM_WORDS && f < PAGES && i < WORDS
      modifies words
      ensures Snapshot() == Put(old(Snapshot()), f, i, w)
    {
      words[f * 1024 + i] := w;
    }

    /** fill, on whole words of a page: the first size bytes become data, the rest and
        every other page stay. */
    method Fill(page: word, size: nat, data: nat)
      requires words.Length == RAM_WORDS && IsPage(page) && size <= PAGESIZE && size % 4 == 0 && data < 256
      modifies words
      ensures Outside(old(Snapshot()), Snapshot(), {FrameAt(page)})
      ensures forall i: nat :: i < size / 4 ==> Word(Snapshot(), FrameAt(page), i) == data * 0x0101_0101
      ensures forall i: nat :: size / 4 <= i ==> Word(Snapshot(), FrameAt(page), i) == Word(old(Snapshot()), FrameAt(page), i)
    {
      var f := FrameAt(page);
      for i := 0 to size / 4
        invariant Outside(old(Snapshot()), Snapshot(), {f})
        invariant forall k: nat :: k < i ==> Word(Snapshot(), f, k) == data * 0x0101_0101
        invariant forall k: nat :: i <= k ==> Word(Snapshot(), f, k) == Word(old(Snapshot()), f, k)
      {
        Store(f, i, data * 0x0101_0101);
      }
    }

    /** fill(page, PAGESIZE, 0) */
    method FillZero(page: word)
      requires words.Length == RAM_WORDS && IsPage(page)
      modifies words
      ensures Outside(old(Snapshot()), Snapshot(), {FrameAt(page)})
      ensures forall i: nat :: i < WORDS ==> Word(Snapshot(), FrameAt(page), i) == 0
    {
      Fill(page, PAGESIZE, 0);
    }

    /** memcopy, on whole words of two pages. */
    method MemCopy(source: word, dest: word, size: nat)
      requires words.Length == RAM_WORDS && IsPage(source) && IsPage(dest) && size <= PAGESIZE && size % 4 == 0
      modifies words
      ensures Outside(old(Snapshot()), Snapshot(), {FrameAt(dest)})
      ensures forall i: nat :: i < size / 4 ==> Word(Snapshot(), FrameAt(dest), i) == Word(old(Snapshot()), FrameAt(source), i)
      ensures forall i: nat :: size / 4 <= i ==> Word(Snapshot(), FrameAt(dest), i) == Word(old(Snapshot()), FrameAt(dest), i)
    {
      var s, d := FrameAt(source), FrameAt(dest);
      for i := 0 to size / 4
        invariant Outside(old(Snapshot()), Snapshot(), {d})
        invariant forall k: nat :: k < i ==> Word(Snapshot(), d, k) == Word(old(Snapshot()), s, k)
        invariant forall k: nat :: i <= k ==> Word(Snapshot(), d, k) == Word(old(Snapshot()), d, k)
      {
        var w := Load(s, i);
        Store(d, i, w);
      }
    }

    /** memcopy(source, dest, PAGESIZE) */
    method CopyPage(source: word, dest: word)
      requires words.Length == RAM_WORDS && IsPage(source) && IsPage(dest)
      modifies words
      ensures Outside(old(Snapshot()), Snapshot(), {FrameAt(dest)})
      ensures SameContent(old(Snapshot()), FrameAt(source), Snapshot(), FrameAt(dest))
    {
      MemCopy(source, dest, PAGESIZE);
    }

    /** alloc_page: takes the first page of the list. The code does not look for an
        empty list, so its callers owe it one free page. */
    method AllocPage() returns (page: word)
      requires Valid() && free != []
      modifies this
      ensures Valid() && end == old(end)
      ensures IsPage(page) && FrameAt(page) == old(free)[0]
      ensures free == old(free)[1..] && FrameAt(page) !in free
    {
      ghost var fs := free;
      ChainPop(Snapshot(), freeList, fs, end);
      page := freeList;
      var link := Load(FrameAt(page), 0);
      freeList := link;
      free := fs[1..];
    }

    /** free_page: links the page in front of the list through its word 0. */
    method FreePage(page: word)
      requires Valid() && IsPage(page) && FrameAt(page) !in free
      modifies this, words
      ensures Valid() && end == old(end)
      ensures free == [FrameAt(page)] + old(free)
      ensures Snapshot() == Put(old(Snapshot()), FrameAt(page), 0, old(freeList))
    {
      ChainPush(Snapshot(), freeList, free, end, FrameAt(page));
      Store(FrameAt(page), 0, freeList);
      freeList := page;
      free := [FrameAt(page)] + free;
    }
  }
}
