/**
 The four-level page tables the boot loader builds before it enters the kernel (4-level paging, Intel SDM volume
 3A, chapter "Paging"): seven pages from 0x10000, an identity map of the first 2 MiB and the kernel's 2 MiB at the
 top of the address space.
 */
module BootPaging {
  import opened Limits
  import opened Least
  import MemoryMap

  const TWO48: nat := 0x1_0000_0000_0000
  const MIB2: nat := 0x20_0000
  const TABLES: nat := 0x10000
  const FLAGS: nat := 3
  const KERNEL_BASE: nat := 0xffff_ffff_8000_0000

  type Tables = t: seq<seq<nat>> | |t| == 7 && forall i :: 0 <= i < 7 ==> |t[i]| == 512
    ghost witness seq(7, _ => seq(512, _ => 0))

  /** The address of table page i. */
  function TableAt(i: nat): nat { TABLES + i * PAGE }

  // ---- The walk ----

  /** A load or a store, from supervisor or user mode. */
  datatype Access = Access(user: bool, write: bool)

  /**
   The entry is present, lets the access through (bits 1 and 2), and has no bit from 52 up set, execute-disable among
   them.
   */
  predicate Permits(e: nat, a: Access) {
    e % 2 == 1 && (a.write ==> e / 2 % 2 == 1) && (a.user ==> e / 4 % 2 == 1) && e < 0x10_0000_0000_0000
  }

  /** Bit 7 is reserved in an entry of the top level, and makes one of the next two levels map a large page. */
  predicate NamesTable(e: nat) { e / 128 % 2 == 0 }

  function Target(e: nat): nat { e - e % PAGE }

  /** The entry at an index of the table page at an address; None outside the seven pages or when it is refused. */
  function Follow(t: Tables, table: nat, i: nat, a: Access, last: bool): Option<nat>
    requires i < 512
  {
    if TABLES <= table < TableAt(7) && (table - TABLES) % PAGE == 0 then
      var e := t[(table - TABLES) / PAGE][i];
      if Permits(e, a) && (last || NamesTable(e)) then Some(Target(e)) else None
    else None
  }

  predicate Canonical(v: nat) { v < TWO48 / 2 || TWO64 - TWO48 / 2 <= v < TWO64 }

  function Walk(t: Tables, v: nat, a: Access): Option<nat> {
    var pdpt := Follow(t, TABLES, v / 0x80_0000_0000 % 512, a, false);
    if pdpt.None? then None else
    var pd := Follow(t, pdpt.value, v / 0x4000_0000 % 512, a, false);
    if pd.None? then None else
    var pt := Follow(t, pd.value, v / 0x20_0000 % 512, a, false);
    if pt.None? then None else
    var page := Follow(t, pt.value, v / PAGE % 512, a, true);
    if page.None? then None else Some(page.value + v % PAGE)
  }

  // ---- What stage2 builds ----

  /** Entry j of table page i. */
  function BuiltEntry(kaddr: nat, i: nat, j: nat): nat {
    if i == 0 then (if j == 0 then TableAt(1) + FLAGS else if j == 511 then TableAt(4) + FLAGS else 0)
    else if i == 1 then (if j == 0 then TableAt(2) + FLAGS else 0)
    else if i == 2 then (if j == 0 then TableAt(3) + FLAGS else 0)
    else if i == 3 then j * PAGE + FLAGS
    else if i == 4 then (if j == 510 then TableAt(5) + FLAGS else 0)
    else if i == 5 then (if j == 0 then TableAt(6) + FLAGS else 0)
    else (kaddr + j * PAGE + FLAGS) % TWO32
  }

  function Built(kaddr: nat): Tables {
    seq(7, i requires 0 <= i < 7 => seq(512, j requires 0 <= j < 512 => BuiltEntry(kaddr, i, j)))
  }

  method BuildTables(kaddr: nat) returns (t: array2<nat>)
    ensures fresh(t) && t.Length0 == 7 && t.Length1 == 512
    ensures forall i, j :: 0 <= i < 7 && 0 <= j < 512 ==> t[i, j] == Built(kaddr)[i][j]
  {
    t := new nat[7, 512]((i, j) => 0);
    t[0, 0] := TableAt(1) + FLAGS;
    t[1, 0] := TableAt(2) + FLAGS;
    t[2, 0] := TableAt(3) + FLAGS;
    var i := 0;
    while i < 512
      invariant i <= 512
      invariant forall k, j :: 0 <= k < 7 && 0 <= j < 512 ==>
                  t[k, j] == if (k < 3 && j == 0) || (k == 3 && j < i) then BuiltEntry(kaddr, k, j) else 0
    {
      t[3, i] := i * PAGE + FLAGS;
      i := i + 1;
    }
    t[0, 511] := TableAt(4) + FLAGS;
    t[4, 510] := TableAt(5) + FLAGS;
    t[5, 0] := TableAt(6) + FLAGS;
    i := 0;
    while i < 512
      invariant i <= 512
      invariant forall k, j :: 0 <= k < 7 && 0 <= j < 512 ==>
              t[k, j] == (if k < 6 || j < i then BuiltEntry(kaddr, k, j) else 0)
    {
      t[6, i] := (kaddr + i * PAGE + FLAGS) % TWO32;
      i := i + 1;
    }
  }

  // ---- What the tables map ----

  lemma EntryTargets(kaddr: nat, j: nat, a: Access)
    requires j < 512 && kaddr % PAGE == 0 && kaddr + MIB2 <= TWO32
    ensures (Permits(j * PAGE + FLAGS, a) <==> !a.user) && Target(j * PAGE + FLAGS) == j * PAGE
    ensures var e := BuiltEntry(kaddr, 6, j); (Permits(e, a) <==> !a.user) && Target(e) == kaddr + j * PAGE
  {
    var q := kaddr / PAGE;
    assert kaddr == q * PAGE;
    PageAndFlags(j, a);
    PageAndFlags(q + j, a);
    assert (q + j) * PAGE == kaddr + j * PAGE;
  }

  /** A page address with the flags: present, writable, and closed to user mode. */
  lemma PageAndFlags(n: nat, a: Access)
    requires n < 0x10_0000
    ensures var e := n * PAGE + FLAGS; e % PAGE == FLAGS && (Permits(e, a) <==> !a.user) && NamesTable(e)
  {
    var e := n * PAGE + FLAGS;
    Quotient(e, 2, n * 2048 + 1, 1);
    Quotient(n * 2048 + 1, 2, n * 1024, 1);
    Quotient(e, 4, n * 1024, 3);
    Quotient(n * 1024, 2, n * 512, 0);
    Quotient(e, 128, n * 32, 3);
    Quotient(n * 32, 2, n * 16, 0);
    Quotient(e, PAGE, n, FLAGS);
  }

  /** Of an upper page only the entries that name a table are followed, and none of them for user mode. */
  lemma UpperEntry(kaddr: nat, i: nat, j: nat, a: Access)
    requires (i < 3 || i == 4 || i == 5) && j < 512
    ensures Follow(Built(kaddr), TableAt(i), j, a, false) ==
              if a.user then None
              else if i < 3 && j == 0 then Some(TableAt(i + 1))
              else if i == 0 && j == 511 then Some(TableAt(4))
              else if i == 4 && j == 510 then Some(TableAt(5))
              else if i == 5 && j == 0 then Some(TableAt(6))
              else None
  {
    assert Built(kaddr)[i][j] == BuiltEntry(kaddr, i, j);
    PageAndFlags(0x11 + i, a);
    PageAndFlags(0x14, a);
  }

  /** The upper levels: only the first 2 MiB and the first 2 MiB of the kernel's area reach a last-level table. */
  lemma UpperLevels(kaddr: nat, i4: nat, i3: nat, i2: nat, a: Access)
    requires i4 < 512 && i3 < 512 && i2 < 512
    ensures var t := Built(kaddr);
            var pdpt := Follow(t, TABLES, i4, a, false);
            var pd := if pdpt.None? then None else Follow(t, pdpt.value, i3, a, false);
            var pt := if pd.None? then None else Follow(t, pd.value, i2, a, false);
            pt == if a.user then None
                  else if i4 == 0 && i3 == 0 && i2 == 0 then Some(TableAt(3))
                  else if i4 == 511 && i3 == 510 && i2 == 0 then Some(TableAt(6)) else None
  {
    UpperEntry(kaddr, 0, i4, a);
    UpperEntry(kaddr, 1, i3, a);
    UpperEntry(kaddr, 4, i3, a);
    UpperEntry(kaddr, 2, i2, a);
    UpperEntry(kaddr, 5, i2, a);
  }

  lemma LowAddress(v: nat)
    requires Canonical(v)
    ensures v < MIB2 <==> v / 0x80_0000_0000 % 512 == 0 && v / 0x4000_0000 % 512 == 0 && v / 0x20_0000 % 512 == 0
    ensures v < MIB2 ==> v == v / PAGE % 512 * PAGE + v % PAGE
  {
    if v < TWO48 / 2 {
      assert v / 0x80_0000_0000 < 256;
      assert v / 0x80_0000_0000 == 0 ==> v / 0x4000_0000 < 512;
      assert v / 0x80_0000_0000 == 0 && v / 0x4000_0000 == 0 ==> v / 0x20_0000 < 512;
    } else {
      HighSplit(v);
    }
  }

  /** A high canonical address, without its sign extension. */
  lemma HighSplit(v: nat)
    requires TWO64 - TWO48 / 2 <= v < TWO64
    ensures var w := v - (TWO64 - TWO48);
            && v / 0x80_0000_0000 % 512 == w / 0x80_0000_0000 && 256 <= w / 0x80_0000_0000 < 512
            && v / 0x4000_0000 % 512 == w / 0x4000_0000 % 512
            && v / 0x20_0000 % 512 == w / 0x20_0000 % 512
            && v / PAGE % 512 == w / PAGE % 512 && v % PAGE == w % PAGE
  {
    var w := v - (TWO64 - TWO48);
    Shifted(w, 0x80_0000_0000, 0xFFFF);
    Shifted(w, 0x4000_0000, 0xFFFF * 0x200);
    Shifted(w, 0x20_0000, 0xFFFF * 0x4_0000);
    Shifted(w, PAGE, 0xFFFF * 0x800_0000);
    assert w < TWO48 && TWO48 == 512 * 0x80_0000_0000;
  }

  /** Adding a multiple of 512 units leaves the unit's digit and the rest. */
  lemma Shifted(w: nat, unit: nat, n: nat)
    requires unit > 0
    ensures var v := w + n * 512 * unit;
            v / unit == w / unit + n * 512 && v / unit % 512 == w / unit % 512 && v % unit == w % unit
  {
    var q, r := w / unit, w % unit;
    Distribute(q, n * 512, unit);
    Quotient(w + n * 512 * unit, unit, q + n * 512, r);
    Quotient(q + n * 512, 512, q / 512 + n, q % 512);
  }

  lemma Distribute(a: nat, b: nat, unit: nat)
    ensures (a + b) * unit == a * unit + b * unit
  {
  }

  lemma HighAddress(v: nat)
    requires Canonical(v)
    ensures KERNEL_BASE <= v < KERNEL_BASE + MIB2 <==>
              v / 0x80_0000_0000 % 512 == 511 && v / 0x4000_0000 % 512 == 510 && v / 0x20_0000 % 512 == 0
    ensures KERNEL_BASE <= v < KERNEL_BASE + MIB2 ==> v - KERNEL_BASE == v / PAGE % 512 * PAGE + v % PAGE
  {
    if v >= TWO64 - TWO48 / 2 {
      HighSplit(v);
      KernelArea(v - (TWO64 - TWO48));
    } else {
      assert v / 0x80_0000_0000 < 256;
    }
  }

  lemma KernelArea(w: nat)
    requires TWO48 / 2 <= w < TWO48
    ensures var k := KERNEL_BASE - (TWO64 - TWO48);
            && (k <= w < k + MIB2 <==>
                  w / 0x80_0000_0000 == 511 && w / 0x4000_0000 % 512 == 510 && w / 0x20_0000 % 512 == 0)
            && (k <= w < k + MIB2 ==> w - k == w / PAGE % 512 * PAGE + w % PAGE)
  {
    var a, b, c, d := w / 0x80_0000_0000, w / 0x4000_0000 % 512, w / 0x20_0000 % 512, w / PAGE % 512;
    NestedDivision(w, 0x4000_0000);
    NestedDivision(w, 0x20_0000);
    NestedDivision(w, PAGE);
    assert w / 0x4000_0000 == a * 512 + b && w / 0x20_0000 == (a * 512 + b) * 512 + c;
    assert w == (((a * 512 + b) * 512 + c) * 512 + d) * PAGE + w % PAGE;
  }

  lemma NestedDivision(w: nat, unit: nat)
    requires unit > 0
    ensures w / unit == w / (unit * 512) * 512 + w / unit % 512
  {
    var q, r := w / unit, w % unit;
    var hi, lo := q / 512, q % 512;
    Regroup(hi, lo, unit);
    Below(lo, unit);
    Quotient(w, unit * 512, hi, lo * unit + r);
  }

  lemma Regroup(hi: nat, lo: nat, unit: nat)
    ensures (hi * 512 + lo) * unit == hi * (unit * 512) + lo * unit
  {
  }

  lemma Below(lo: nat, unit: nat)
    requires lo < 512
    ensures lo * unit <= unit * 512 - unit
  {
    assert lo * unit + (511 - lo) * unit == 511 * unit;
  }

  lemma Quotient(w: nat, n: nat, q: nat, r: nat)
    requires n > 0 && r < n && w == q * n + r
    ensures w / n == q && w % n == r
  {
    var d := w / n - q;
    assert d * n == r - w % n;
    assert d > 0 ==> d * n >= n;
    assert d < 0 ==> d * n <= 0 - n;
  }

  /**
   With the kernel on a page boundary below 4 GiB, the tables let supervisor mode read and write v at v below 2 MiB,
   and the kernel's 2 MiB of address space at the kernel's frames; they map no other canonical address, and nothing
   for user mode.
   */
  lemma TablesMapExactly(kaddr: nat, v: nat, a: Access)
    requires kaddr % PAGE == 0 && kaddr + MIB2 <= TWO32 && Canonical(v)
    ensures Walk(Built(kaddr), v, a) ==
              if a.user then None
              else if v < MIB2 then Some(v)
              else if KERNEL_BASE <= v < KERNEL_BASE + MIB2 then Some(kaddr + (v - KERNEL_BASE))
              else None
  {
    var i := v / PAGE % 512;
    UpperLevels(kaddr, v / 0x80_0000_0000 % 512, v / 0x4000_0000 % 512, v / 0x20_0000 % 512, a);
    LowAddress(v);
    HighAddress(v);
    EntryTargets(kaddr, i, a);
    LastLevel(kaddr, i, a);
  }

  lemma LastLevel(kaddr: nat, i: nat, a: Access)
    requires i < 512
    ensures var e := i * PAGE + FLAGS;
            Follow(Built(kaddr), TableAt(3), i, a, true) == if Permits(e, a) then Some(Target(e)) else None
    ensures var e := BuiltEntry(kaddr, 6, i);
            Follow(Built(kaddr), TableAt(6), i, a, true) == if Permits(e, a) then Some(Target(e)) else None
  {
    assert Built(kaddr)[3][i] == BuiltEntry(kaddr, 3, i) && Built(kaddr)[6][i] == BuiltEntry(kaddr, 6, i);
  }

  /** A supervisor store, which the kernel's pages must let through. */
  const STORE: Access := Access(false, true)

  /** The kernel's first byte is mapped to the kernel exactly when the kernel is on a page boundary. */
  lemma AlignmentIsNeeded(kaddr: nat)
    requires kaddr + MIB2 <= TWO32
    ensures Walk(Built(kaddr), KERNEL_BASE, STORE) == Some(kaddr) <==> kaddr % PAGE == 0
  {
    if kaddr % PAGE == 0 {
      TablesMapExactly(kaddr, KERNEL_BASE, STORE);
    } else {
      UpperLevels(kaddr, KERNEL_BASE / 0x80_0000_0000 % 512, KERNEL_BASE / 0x4000_0000 % 512,
          KERNEL_BASE / 0x20_0000 % 512, STORE);
      HighAddress(KERNEL_BASE);
      LowAddress(KERNEL_BASE);
      LastLevel(kaddr, 0, STORE);
      MemoryMap.PageStart(BuiltEntry(kaddr, 6, 0));
    }
  }

  /** What the kernel's window maps at its i-th page, wherever the kernel is. */
  lemma WindowWalk(kaddr: nat, i: nat)
    requires i < 512
    ensures var e := BuiltEntry(kaddr, 6, i);
            Walk(Built(kaddr), KERNEL_BASE + i * PAGE, STORE) == if Permits(e, STORE) then Some(Target(e)) else None
  {
    var v := KERNEL_BASE + i * PAGE;
    UpperLevels(kaddr, v / 0x80_0000_0000 % 512, v / 0x4000_0000 % 512, v / 0x20_0000 % 512, STORE);
    HighAddress(v);
    LowAddress(v);
    WindowIndex(i);
    LastLevel(kaddr, i, STORE);
  }

  lemma WindowIndex(i: nat)
    requires i < 512
    ensures var v := KERNEL_BASE + i * PAGE;
            KERNEL_BASE <= v < KERNEL_BASE + MIB2 && v / PAGE % 512 == i && v % PAGE == 0
  {
    assert KERNEL_BASE + i * PAGE == (0xf_ffff_fff8_0000 + i) * PAGE;
  }

  /** The kernel can write byte x of its window, and it is byte x of the kernel. */
  ghost predicate Reaches(kaddr: nat, x: nat) { Walk(Built(kaddr), KERNEL_BASE + x, STORE) == Some(kaddr + x) }

  /**
   Wherever below 4 GiB the kernel is, its whole window maps to it if and only if it is on a page boundary and ends
   below 4 GiB: beyond that the entries wrap around to the bottom of memory.
   */
  lemma WindowExactly(kaddr: nat)
    requires kaddr < TWO32
    ensures (forall x: nat :: x < MIB2 ==> Reaches(kaddr, x))
            <==> kaddr % PAGE == 0 && kaddr + MIB2 <= TWO32
  {
    if kaddr % PAGE == 0 && kaddr + MIB2 <= TWO32 {
      forall x: nat | x < MIB2 ensures Reaches(kaddr, x) {
        TablesMapExactly(kaddr, KERNEL_BASE + x, STORE);
      }
    } else if kaddr % PAGE != 0 {
      UnalignedMisses(kaddr);
    } else {
      WrappedMisses(kaddr);
    }
  }

  lemma UnalignedMisses(kaddr: nat)
    requires kaddr % PAGE != 0
    ensures !Reaches(kaddr, 0)
  {
    WindowWalk(kaddr, 0);
    MemoryMap.PageStart(BuiltEntry(kaddr, 6, 0));
  }

  lemma WrappedMisses(kaddr: nat)
    requires kaddr < TWO32 < kaddr + MIB2 && kaddr % PAGE == 0
    ensures var x := (TWO32 - kaddr) / PAGE * PAGE; x < MIB2 && !Reaches(kaddr, x)
  {
    var i := (TWO32 - kaddr) / PAGE;
    WrappedEntry(kaddr, i);
    WindowWalk(kaddr, i);
  }

  /** The first entry past 4 GiB names page 0. */
  lemma WrappedEntry(kaddr: nat, i: nat)
    requires kaddr < TWO32 < kaddr + MIB2 && kaddr % PAGE == 0 && i == (TWO32 - kaddr) / PAGE
    ensures i < 512 && i * PAGE < MIB2 && kaddr + i * PAGE == TWO32 && BuiltEntry(kaddr, 6, i) == FLAGS
  {
  }

  /** From the memory map to the page tables: an exact map places the kernel where the tables can reach it. */
  lemma PlacedKernelIsMapped(table: MemoryMap.Table, i: nat, x: nat)
    requires MemoryMap.NoneWraps(table) && MemoryMap.OrderedFrom(table, 0)
        && MemoryMap.AllReach(MemoryMap.Merged(table))
    requires i < |MemoryMap.FinalTable(table)| && x < MIB2
    requires MemoryMap.FinalTable(table)[i].address + MIB2 <= TWO32
    ensures var a := MemoryMap.FinalTable(table)[i].address; a % TWO32 == a && Reaches(a, x)
  {
    MemoryMap.PlacementIsAligned(table, i);
    WindowReaches(MemoryMap.FinalTable(table)[i].address, x);
  }

  lemma WindowReaches(a: nat, x: nat)
    requires a % PAGE == 0 && a + MIB2 <= TWO32 && x < MIB2
    ensures a % TWO32 == a && Reaches(a, x)
  {
    WindowExactly(a);
  }
}
