/** 32-bit words, physical memory as a flat array of words, and 32-bit paging.
    The constants are those of kernel.h. */
module Words {

  // PHY_SIZE is 0x2000000 bytes: 8192 page frames of 1024 words.
  const PAGES: nat := 8192
  const WORDS: nat := 1024
  const RAM_WORDS: nat := 0x80_0000
  const PAGESIZE: nat := 4096
  const KERNEL_BASE: nat := 0xC000_0000
  const USER_ENTRIES: nat := 0x300
  const SUPERVISOR: nat := 0
  const USER: nat := 1

  type word = w: int | 0 <= w < 0x1_0000_0000

  /** One state of physical memory. */
  type Mem = m: seq<word> | |m| == RAM_WORDS witness seq(RAM_WORDS, _ => 0)

  /** Word i of frame f. Addresses outside RAM read as zero. */
  function Word(m: Mem, f: nat, i: nat): word {
    if f < PAGES && i < WORDS then m[f * 1024 + i] else 0
  }

  /** Memory with one word replaced. */
  function Put(m: Mem, f: nat, i: nat, w: word): (r: Mem)
    requires f < PAGES && i < WORDS
    ensures forall g: nat, j: nat {:trigger Word(r, g, j)} ::
              Word(r, g, j) == if g == f && j == i then w else Word(m, g, j)
  {
    m[f * 1024 + i := w]
  }

  // ----- kernel virtual addresses: PHY_2_VIR and VIR_2_PHY on whole frames

  function Vir(f: nat): (a: word)
    requires f < 0x40000
    ensures KERNEL_BASE <= a && a % 4096 == 0 && FrameAt(a) == f
    ensures f < PAGES ==> IsPage(a)
  {
    KERNEL_BASE + f * 4096
  }

  /** a is the kernel address of a page that is in RAM. */
  predicate IsPage(a: word) {
    KERNEL_BASE <= a < KERNEL_BASE + PAGES * 4096 && a % 4096 == 0
  }

  /** The frame a kernel address lies in. */
  function FrameAt(a: word): (f: nat)
    requires KERNEL_BASE <= a
    ensures IsPage(a) ==> f < PAGES && KERNEL_BASE + f * 4096 == a
  {
    (a - KERNEL_BASE) / 4096
  }

  // ----- page directory and page table entries

  predicate Present(e: word) { e % 2 == 1 }
  predicate Writable(e: word) { e / 2 % 2 == 1 }
  predicate UserBit(e: word) { e / 4 % 2 == 1 }
  function Target(e: word): (f: nat) ensures f < 0x10_0000 { e / 4096 }

  /** What generate_page_dir_item and generate_page_table_item leave in an entry:
      address, privilege, read/write, present, and zero in every other bit. */
  function Entry(f: nat, privilege: nat): (e: word)
    requires f < 0x10_0000 && privilege < 2
    ensures Present(e) && Writable(e) && Target(e) == f
    ensures UserBit(e) <==> privilege == USER
    ensures e % 4096 == privilege * 4 + 3
  {
    EntryFields(f, privilege, f * 4096 + privilege * 4 + 3);
    f * 4096 + privilege * 4 + 2 + 1
  }

  lemma EntryFields(f: nat, privilege: nat, e: word)
    requires f < 0x10_0000 && privilege < 2 && e == f * 4096 + (privilege * 4 + 3)
    ensures e / 4096 == f && e % 4096 == privilege * 4 + 3
    ensures e % 2 == 1 && e / 2 % 2 == 1 && e / 4 % 2 == privilege
  {
    PageAndRest(e, f, privilege * 4 + 3);
    LastBit(e, f * 2048 + privilege * 2 + 1, 1);
    LastBit(f * 2048 + privilege * 2 + 1, f * 1024 + privilege, 1);
    LastBit(f * 1024 + privilege, f * 512, privilege);
    Quarter(e);
  }

  lemma PageAndRest(e: nat, f: nat, r: nat)
    requires e == f * 4096 + r && r < 4096
    ensures e / 4096 == f && e % 4096 == r
  {
  }

  lemma LastBit(e: nat, q: nat, b: nat)
    requires e == q * 2 + b && b < 2
    ensures e / 2 == q && e % 2 == b
  {
  }

  lemma Quarter(e: nat)
    ensures e / 4 == e / 2 / 2
  {
  }

  lemma Eighth(e: nat)
    ensures e / 8 == e / 4 / 2 && e / 4096 == e / 8 / 512
  {
  }

  /** An entry is its fields: present in bit 0, read/write in bit 1, privilege in bit 2, the
      frame from bit 12 on, nine bits in between. */
  lemma Fields(e: word)
    ensures e == Target(e) * 4096 + e / 8 % 512 * 8
                 + (if UserBit(e) then 4 else 0) + (if Writable(e) then 2 else 0) + if Present(e) then 1 else 0
  {
    Quarter(e);
    Quarter(e / 2);
    Eighth(e);
    assert e == e / 2 * 2 + e % 2;
    assert e / 2 == e / 2 / 2 * 2 + e / 2 % 2;
    assert e / 4 == e / 4 / 2 * 2 + e / 4 % 2;
    assert e / 8 == e / 8 / 512 * 512 + e / 8 % 512;
  }

  // ----- address translation (Intel SDM volume 3A, section 4.3, 4-KByte pages)

  datatype Translation = Fault | Mapped(frame: nat, user: bool, writable: bool)

  function DirIndex(va: word): (i: nat) ensures i < 1024 { va / 0x40_0000 }
  function TableIndex(va: word): (i: nat) ensures i < 1024 { va / 4096 % 1024 }

  /** The frame va's page is mapped to by directory d; the access bits of both
      levels are combined. */
  function Translate(m: Mem, d: nat, va: word): Translation {
    Walk(m, d, DirIndex(va), TableIndex(va))
  }

  function Walk(m: Mem, d: nat, i: nat, j: nat): Translation {
    var pde := Word(m, d, i);
    if !Present(pde) then Fault
    else
      var pte := Word(m, Target(pde), j);
      if !Present(pte) then Fault
      else Mapped(Target(pte), UserBit(pde) && UserBit(pte), Writable(pde) && Writable(pte))
  }

  /** A page number is its two indices; the kernel half starts at directory entry 0x300. */
  lemma PageNumber(va: word)
    ensures va / 4096 == DirIndex(va) * 1024 + TableIndex(va)
    ensures va >= KERNEL_BASE <==> DirIndex(va) >= USER_ENTRIES
    ensures va >= KERNEL_BASE ==> (va - KERNEL_BASE) / 4096 == (DirIndex(va) - USER_ENTRIES) * 1024 + TableIndex(va)
    ensures va < 0x40_0000 <==> DirIndex(va) == 0
  {
  }

  /** Two addresses lie in the same page iff they have the same indices. */
  lemma SamePage(a: word, b: word)
    ensures a / 4096 == b / 4096 <==> DirIndex(a) == DirIndex(b) && TableIndex(a) == TableIndex(b)
  {
    PageNumber(a);
    PageNumber(b);
  }

  // ----- comparing memories

  /** m1 equals m0 on every frame outside fs. */
  ghost predicate Outside(m0: Mem, m1: Mem, fs: set<nat>) {
    forall f: nat, i: nat {:trigger Word(m1, f, i)} :: f !in fs ==> Word(m1, f, i) == Word(m0, f, i)
  }

  /** Frame g in m1 holds what frame f holds in m0. */
  ghost predicate SameContent(m0: Mem, f: nat, m1: Mem, g: nat) {
    forall i: nat {:trigger Word(m1, g, i)} :: i < WORDS ==> Word(m1, g, i) == Word(m0, f, i)
  }

  /** The frames fs hold in m1 what they hold in m0. */
  ghost predicate Unchanged(m0: Mem, m1: Mem, fs: seq<nat>) {
    forall f :: f in fs ==> SameContent(m0, f, m1, f)
  }
}
