/**
 Physical memory, the two-level page walk and the address arithmetic of the recursive mapping
 (32-bit paging, Intel SDM volume 3A, chapter "Paging").
 */
module Paging {
  import opened Least
  import opened Words

  type Index = i: nat | i < 1024
  type Page = p: seq<Word> | |p| == 1024 ghost witness seq(1024, _ => ZERO)
  type Memory = m: seq<Page> | |m| == 0x10_0000 ghost witness seq(0x10_0000, _ => seq(1024, _ => ZERO))

  /** Directory entries below this one map user space (USER_LIMIT is 0xc0000000). */
  const USER_SLOTS: nat := 768
  const CODE_SLOT: Index := 768
  const HEAP_SLOT: Index := 769
  const SELF_SLOT: Index := 1023

  /** Frames laid out by the boot image: the directory, the kernel's identity table and the heap's table. */
  const BOOT_DIR: Frame := 0x300
  const CODE_TABLE: Frame := 0x301
  const HEAP_TABLE: Frame := 0x302

  function ZeroPage(): Page { seq(1024, _ => ZERO) }

  function SetWord(mem: Memory, f: Frame, i: Index, w: Word): Memory { mem[f := mem[f][i := w]] }

  // ---- Linear addresses ----

  /** A word-aligned linear address: directory slot, table slot and word within the page. */
  datatype Linear = Linear(d: Index, t: Index, o: Index)

  function Split(v: nat): Linear
    requires v <= 0xFFFF_FFFF
  {
    Linear(v / 0x40_0000, v / 0x1000 % 1024, v % 0x1000 / 4)
  }

  /** page_entry, on byte addresses: 1023 * 0x400000 plus four bytes for each page of the address space. */
  function PageEntryAddress(v: nat): (r: nat)
    requires v <= 0xFFFF_FFFF
    ensures r <= 0xFFFF_FFFF
  {
    1023 * 0x40_0000 + v / 0x40_0000 * 0x1000 + v / 0x1000 % 1024 * 4
  }

  /** Where the kernel's fixed addresses lie: user space, its code, its heap and the page tables themselves. */
  lemma AddressLayout(v: nat)
    requires v <= 0xFFFF_FFFF
    ensures v < 0xc000_0000 <==> Split(v).d < USER_SLOTS
    ensures 0xc000_0000 <= v < 0xc040_0000 <==> Split(v).d == CODE_SLOT
    ensures 0xc040_0000 <= v < 0xc080_0000 <==> Split(v).d == HEAP_SLOT
    ensures 0xffc0_0000 <= v <==> Split(v).d == SELF_SLOT
    ensures BOOT_DIR * 0x1000 == 0x30_0000
  {
  }

  /** page_entry on split addresses. */
  function PageEntry(a: Linear): Linear { Linear(SELF_SLOT, a.d, a.t) }

  lemma PageEntrySplits(v: nat)
    requires v <= 0xFFFF_FFFF
    ensures Split(PageEntryAddress(v)) == PageEntry(Split(v))
  {
    var d, t := v / 0x40_0000, v / 0x1000 % 1024;
    assert PageEntryAddress(v) == 1023 * 0x40_0000 + d * 0x1000 + t * 4;
  }

  /** Two addresses share an entry exactly when they lie on one page. */
  lemma PageEntryIsInjective(v: nat, w: nat)
    requires v <= 0xFFFF_FFFF && w <= 0xFFFF_FFFF
    ensures PageEntryAddress(v) == PageEntryAddress(w) <==> v / 0x1000 == w / 0x1000
  {
    assert v / 0x1000 == v / 0x40_0000 * 1024 + v / 0x1000 % 1024;
    assert w / 0x1000 == w / 0x40_0000 * 1024 + w / 0x1000 % 1024;
  }

  // ---- The walk ----

  datatype Place = Place(frame: Frame, word: Index)

  datatype Access = Supervisor | UserRead | UserWrite

  /**
   Supervisor accesses need only present entries: write protection in supervisor mode is never switched on.
   User accesses need the user bit, and stores the write bit, at both levels.
   */
  predicate Allows(e: Word, access: Access) {
    e.present && (access != Supervisor ==> e.user) && (access == UserWrite ==> e.write)
  }

  function Walk(mem: Memory, cr3: Frame, a: Linear, access: Access): Option<Place> {
    var pde := mem[cr3][a.d];
    if !Allows(pde, access) then None else
    var pte := mem[pde.frame][a.t];
    if !Allows(pte, access) then None else
    Some(Place(pte.frame, a.o))
  }

  /**
   The recursive mapping: with the directory's own frame in its last slot, walking page_entry(a) reaches the
   word that is a's table entry, and walking page_entry of that entry's page reaches a's directory entry.
   */
  lemma RecursiveMapping(mem: Memory, dir: Frame, a: Linear)
    requires mem[dir][SELF_SLOT].present && mem[dir][SELF_SLOT].frame == dir
    ensures mem[dir][a.d].present ==>
              Walk(mem, dir, PageEntry(a), Supervisor) == Some(Place(mem[dir][a.d].frame, a.t))
    ensures !mem[dir][a.d].present ==> Walk(mem, dir, PageEntry(a), Supervisor) == None
    ensures Walk(mem, dir, PageEntry(PageEntry(a)), Supervisor) == Some(Place(dir, a.d))
  {
  }

  /** The same fact about the byte addresses the kernel computes. */
  lemma RecursiveMappingOfAddresses(mem: Memory, dir: Frame, v: nat)
    requires v <= 0xFFFF_FFFF
    requires mem[dir][SELF_SLOT].present && mem[dir][SELF_SLOT].frame == dir
    requires mem[dir][v / 0x40_0000].present
    ensures Walk(mem, dir, Split(PageEntryAddress(v)), Supervisor)
         == Some(Place(mem[dir][v / 0x40_0000].frame, v / 0x1000 % 1024))
    ensures Walk(mem, dir, Split(PageEntryAddress(PageEntryAddress(v) / 0x1000 * 0x1000)), Supervisor)
         == Some(Place(dir, v / 0x40_0000))
  {
    PageEntrySplits(v);
    var table := PageEntryAddress(v) / 0x1000 * 0x1000;
    PageEntrySplits(table);
    assert Split(table).d == SELF_SLOT && Split(table).t == v / 0x40_0000;
  }
}
