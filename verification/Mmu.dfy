/** Page-table words, flag bits and the layout of the user address space
    (include/mmu.h).  Virtual pages are named by their page number. */
module Mmu {

  const ENTRIES := 1024        // words in a page table or page directory
  const NASID := 256
  const NENV := 1024

  // Page-table-entry flags: the low twelve bits of a word.
  type Perm = bv12

  const MAX_PAGES := 0x10_0000

  type PageBits = x: nat | x < MAX_PAGES

  /** A 32-bit permission as system calls pass it on, cut where the page number of an
      entry begins. */
  datatype Perm32 = Perm32(high: PageBits, low: Perm)

  const PTE_COW: Perm := 0x001
  const PTE_LIBRARY: Perm := 0x002
  const PTE_G: Perm := 0x040
  const PTE_V: Perm := 0x080
  const PTE_D: Perm := 0x100
  const PTE_C_CACHEABLE: Perm := 0x600

  // Virtual page numbers of the landmarks in the address space.
  const UTEMP := 0x3fe
  const UCOW := 0x3ff
  const USTACKTOP := 0x7f3fe
  const UTOP := 0x7f400
  const UPAGES := 0x7f800
  const UVPT := 0x7fc00
  const ULIM := 0x80000

  // The same landmarks as page-directory indices.
  const PDX_UTOP := 509
  const PDX_UVPT := 511
  const PDX_ULIM := 512

  const PAGE_SIZE := 4096

  /** is_illegal_va */
  predicate IsIllegalVa(va: nat) { va < UTEMP * PAGE_SIZE || va >= UTOP * PAGE_SIZE }

  /** The test of the message system calls. */
  predicate IsZeroOrLegal(va: nat) { va == 0 || !IsIllegalVa(va) }

  /** User addresses go from 4 MB less two pages up to 2 GB less three tables' reach. */
  lemma LegalAddresses(va: nat)
    ensures IsIllegalVa(va) <==> !(0x3f_e000 <= va < 0x7f40_0000)
    ensures IsZeroOrLegal(va) <==> va == 0 || 0x3f_e000 <= va < 0x7f40_0000
  {}

  function Pdx(vpn: nat): nat { vpn / ENTRIES }
  function Ptx(vpn: nat): nat { vpn % ENTRIES }
  function PageNo(pdx: nat, ptx: nat): nat { pdx * ENTRIES + ptx }

  /** The TLB maps pages in pairs: the number of a page's pair, and its even page. */
  function Vpn2(vpn: nat): nat { vpn / 2 }
  function Even(vpn: nat): nat { vpn / 2 * 2 }

  /** A 32-bit memory word read as a page-table entry. */
  datatype Word = Word(ppn: nat, flags: Perm)

  const ZERO := Word(0, 0)
  const ZERO_PAGE: seq<Word> := seq(ENTRIES, _ => ZERO)

  predicate IsValid(w: Word) { w.flags & PTE_V != 0 }
  predicate IsGlobal(w: Word) { w.flags & PTE_G != 0 }
  predicate IsWritable(w: Word) { w.flags & PTE_D != 0 }

  /** One half of a TLB entry: the entry word shifted right by six bits, which
      drops the software flags. */
  datatype EntryLo = EntryLo(pfn: nat, hw: bv12)

  function ToLo(w: Word): EntryLo { EntryLo(w.ppn, w.flags >> 6) }

  predicate LoValid(l: EntryLo) { l.hw & 0x002 != 0 }
  predicate LoGlobal(l: EntryLo) { l.hw & 0x001 != 0 }

  predicate LoDirty(l: EntryLo) { l.hw & 0x004 != 0 }

  /** Shifting keeps the page number, and the valid, dirty and global bits where the
      hardware looks for them. */
  lemma LoKeepsFlags(w: Word)
    ensures ToLo(w).pfn == w.ppn
    ensures LoValid(ToLo(w)) <==> IsValid(w)
    ensures LoDirty(ToLo(w)) <==> IsWritable(w)
    ensures LoGlobal(ToLo(w)) <==> IsGlobal(w)
  {
    var f := w.flags;
    assert (f >> 6) & 0x002 != 0 <==> f & 0x080 != 0;
    assert (f >> 6) & 0x004 != 0 <==> f & 0x100 != 0;
    assert (f >> 6) & 0x001 != 0 <==> f & 0x040 != 0;
  }

  /** The bitwise OR of two numbers. */
  function Or(a: nat, b: nat): nat {
    if a == 0 then b else if b == 0 then a else 2 * Or(a / 2, b / 2) + (if a % 2 == 1 || b % 2 == 1 then 1 else 0)
  }

  /** The page number that ends up in an entry for page ppn. */
  function OrPage(ppn: nat, high: PageBits): nat { Or(ppn, high) }

  /** The word page_insert stores for page ppn. */
  function StoredWord(ppn: nat, perm: Perm32): Word
  { Word(OrPage(ppn, perm.high), EntryFlags(perm.low)) }

  function BitOf(x: nat, i: nat): bool { if i == 0 then x % 2 == 1 else BitOf(x / 2, i - 1) }

  /** Each bit is set in it exactly when it is set in one of the two. */
  lemma {:induction false} OrHasBitsOfBoth(a: nat, b: nat, i: nat)
    ensures BitOf(Or(a, b), i) <==> BitOf(a, i) || BitOf(b, i)
  {
    if a == 0 || b == 0 {
      ZeroHasNoBits(i);
    } else {
      var o, bit := Or(a / 2, b / 2), if a % 2 == 1 || b % 2 == 1 then 1 else 0;
      assert (2 * o + bit) / 2 == o && (2 * o + bit) % 2 == bit;
      if i > 0 { OrHasBitsOfBoth(a / 2, b / 2, i - 1); }
    }
  }

  lemma {:induction false} ZeroHasNoBits(i: nat)
    ensures !BitOf(0, i)
  {
    if i > 0 { ZeroHasNoBits(i - 1); }
  }

  /** A permission whose bits above the flags are clear leaves every page number alone;
      any other changes one: that of page 0. */
  lemma ClearBitsKeepPages(high: PageBits)
    ensures high == 0 <==> forall ppn: nat | ppn < MAX_PAGES :: OrPage(ppn, high) == ppn
  {
    if high != 0 { assert OrPage(0, high) == high; }
  }

  /** With the lowest of those bits, an even page becomes the next one. */
  lemma EvenPageChanges(ppn: nat)
    requires ppn % 2 == 0
    ensures OrPage(ppn, 1) == ppn + 1
  {
    assert Or(ppn / 2, 1 / 2) == ppn / 2;
  }

  /** The flags page_insert stores for a requested permission. */
  function EntryFlags(perm: Perm): Perm { perm | PTE_C_CACHEABLE | PTE_V }

  /** The valid bit and the cache bits are set; every other bit is as asked for. */
  lemma FlagsAreAsAsked(perm: Perm, mask: Perm)
    ensures mask & 0x680 == 0 ==> EntryFlags(perm) & mask == perm & mask
    ensures EntryFlags(perm) & 0x680 == 0x680
  {
    assert mask & 0x680 == 0 ==> (perm | 0x600 | 0x080) & mask == perm & mask;
    assert (perm | 0x600 | 0x080) & 0x680 == 0x680;
  }

  lemma EntryFlagsAreValid(ppn: nat, perm: Perm)
    ensures IsValid(Word(ppn, EntryFlags(perm)))
    ensures IsGlobal(Word(ppn, EntryFlags(perm))) <==> perm & PTE_G != 0
    ensures IsWritable(Word(ppn, EntryFlags(perm))) <==> perm & PTE_D != 0
  {
    assert (perm | 0x600 | 0x080) & 0x080 != 0;
    assert (perm | 0x600 | 0x080) & 0x040 == perm & 0x040;
    assert (perm | 0x600 | 0x080) & 0x100 == perm & 0x100;
  }
}
