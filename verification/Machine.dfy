/**
 The machine the kernel runs on, and what each memory operation of the kernel does to it: frame and heap
 allocation, mmap, fork, the copy-on-write fault and the address-space part of exec. None is a kernel panic.
 */
module Machine {
  import opened Least
  import opened Words
  import opened Paging

  /** A process: the frame of its directory, and the page (directory slot, table slot) the kernel sees it at. */
  datatype Proc = Proc(dir: Frame, slot: Index, page: Index)

  datatype State = State(mem: Memory, marked: set<nat>, procs: seq<Proc>)

  // ---- What user mode sees ----

  function Pde(m: State, p: nat, d: Index): Word
    requires p < |m.procs|
  {
    m.mem[m.procs[p].dir][d]
  }

  /** Meaningful when the directory entry is present. */
  function Pte(m: State, p: nat, d: Index, t: Index): Word
    requires p < |m.procs|
  {
    m.mem[Pde(m, p, d).frame][t]
  }

  predicate Mapped(m: State, p: nat, d: Index, t: Index)
    requires p < |m.procs|
  {
    Allows(Pde(m, p, d), UserRead) && Allows(Pte(m, p, d, t), UserRead)
  }

  /** Effectively writable: the write bits of the directory entry and of the table entry are both set. */
  predicate Writable(m: State, p: nat, d: Index, t: Index)
    requires p < |m.procs|
  {
    Allows(Pde(m, p, d), UserWrite) && Allows(Pte(m, p, d, t), UserWrite)
  }

  /** The contents process p reads from user page (d, t). */
  function View(m: State, p: nat, d: Index, t: Index): Option<Page>
    requires p < |m.procs|
  {
    if Mapped(m, p, d, t) then Some(m.mem[Pte(m, p, d, t).frame]) else None
  }

  /** View and Writable are what the hardware walk allows. */
  lemma ViewIsWalk(m: State, p: nat, a: Linear)
    requires p < |m.procs|
    ensures Walk(m.mem, m.procs[p].dir, a, UserWrite).Some? <==> Writable(m, p, a.d, a.t)
    ensures var r := Walk(m.mem, m.procs[p].dir, a, UserRead);
            if r.None? then View(m, p, a.d, a.t) == None
            else View(m, p, a.d, a.t).Some? && m.mem[r.value.frame][r.value.word] == View(m, p, a.d, a.t).value[a.o]
  {
  }

  // ---- Allocation ----

  ghost function Pmalloc(m: State): (r: Option<(State, Frame)>)
    ensures r.Some? ==> r.value.0.procs == m.procs && r.value.0.marked >= m.marked
  {
    var r := LeastOutside(m.marked, FRAMES);
    if r.None? then None else Some((m.(marked := m.marked + {r.value}), r.value))
  }

  ghost function UsedSlots(mem: Memory): set<nat> {
    set i: nat | i < 1024 && mem[HEAP_TABLE][i].used
  }

  function SlotFrame(m: State, s: Index): Frame { m.mem[HEAP_TABLE][s].frame }

  /** The first heap page not in use; it keeps its frame if it has one. */
  ghost function Kmalloc(m: State): (r: Option<(State, Index)>)
    ensures r.Some? ==> r.value.0.procs == m.procs && r.value.0.marked >= m.marked
  {
    var r := LeastOutside(UsedSlots(m.mem), 1024);
    if r.None? then None else
    var s: Index := r.value;
    var e := m.mem[HEAP_TABLE][s];
    if e.present then
      Some((m.(mem := SetWord(m.mem, HEAP_TABLE, s, e.(used := true))), s))
    else
      var f := Pmalloc(m);
      if f.None? then None else
      Some((f.value.0.(mem := SetWord(m.mem, HEAP_TABLE, s, KernelEntry(f.value.1))), s))
  }

  function Kfree(m: State, s: Index): State {
    m.(mem := SetWord(m.mem, HEAP_TABLE, s, m.mem[HEAP_TABLE][s].(used := false)))
  }

  /** mem_copy of one page: through a heap page taken for the purpose. */
  ghost function MemCopy(m: State, src: Frame, dst: Frame): (r: Option<State>)
    ensures r.Some? ==> r.value.procs == m.procs && r.value.marked >= m.marked
  {
    var k := Kmalloc(m);
    if k.None? then None else
    var (m1, b) := k.value;
    var m2 := m1.(mem := m1.mem[SlotFrame(m1, b) := m1.mem[src]]);
    var m3 := m2.(mem := m2.mem[dst := m2.mem[SlotFrame(m1, b)]]);
    Some(Kfree(m3, b))
  }

  /** A heap page holding a copy of frame src. */
  ghost function CopyToHeap(m: State, src: Frame): (r: Option<(State, Index)>)
    ensures r.Some? ==> r.value.0.procs == m.procs && r.value.0.marked >= m.marked
  {
    var k := Kmalloc(m);
    if k.None? then None else
    var (m1, s) := k.value;
    var c := MemCopy(m1, src, SlotFrame(m1, s));
    if c.None? then None else Some((c.value, s))
  }

  /** "Manually clear from heap": the frame stays marked and no longer belongs to a heap slot. */
  function Detach(m: State, s: Index): State { m.(mem := SetWord(m.mem, HEAP_TABLE, s, ZERO)) }

  function ClearWrites(p: Page): Page { seq(1024, i requires 0 <= i < 1024 => p[i].(write := false)) }

  // ---- The copy-on-write fault ----

  /** First half: a private copy of the page table, with no entry writable. */
  ghost function CowTable(m: State, p: nat, d: Index): (r: Option<State>)
    requires p < |m.procs|
    ensures r.Some? ==> r.value.procs == m.procs && r.value.marked >= m.marked
  {
    var e := Pde(m, p, d);
    var c := CopyToHeap(m, e.frame);
    if c.None? then None else
    var (m1, s) := c.value;
    var n := SlotFrame(m1, s);
    var m2 := m1.(mem := m1.mem[n := ClearWrites(m1.mem[n])]);
    var m3 := Detach(m2, s);
    Some(m3.(mem := SetWord(m3.mem, m3.procs[p].dir, d, e.(frame := n, write := true))))
  }

  /** Second half: a private copy of the page. */
  ghost function CowPage(m: State, p: nat, d: Index, t: Index): (r: Option<State>)
    requires p < |m.procs|
    ensures r.Some? ==> r.value.procs == m.procs && r.value.marked >= m.marked
  {
    var e := Pte(m, p, d, t);
    var c := CopyToHeap(m, e.frame);
    if c.None? then None else
    var (m1, s) := c.value;
    var n := SlotFrame(m1, s);
    var m2 := Detach(m1, s);
    Some(m2.(mem := SetWord(m2.mem, Pde(m, p, d).frame, t, e.(frame := n, write := true))))
  }

  ghost function CowFault(m: State, p: nat, d: Index, t: Index): (r: Option<State>)
    requires p < |m.procs|
    ensures r.Some? ==> r.value.procs == m.procs && r.value.marked >= m.marked
  {
    if Pde(m, p, d).write then CowPage(m, p, d, t) else
    var m1 := CowTable(m, p, d);
    if m1.None? then None else CowPage(m1.value, p, d, t)
  }

  // ---- mmap ----

  /** One page: its frame is taken first, then the frame of the table if the store faults. */
  ghost function MmapPage(m: State, p: nat, d: Index, t: Index): (r: Option<State>)
    requires p < |m.procs|
    ensures r.Some? ==> r.value.procs == m.procs && r.value.marked >= m.marked
  {
    var f := Pmalloc(m);
    if f.None? then None else
    var (m1, page) := f.value;
    var m2 := if Pde(m, p, d).present then Some(m1) else MmapTable(m1, p, d);
    if m2.None? then None else
    Some(m2.value.(mem := SetWord(m2.value.mem, Pde(m2.value, p, d).frame, t, UserEntry(page))))
  }

  /** The page fault taken while mmap stores through a missing directory entry: a new table of zeros. */
  ghost function MmapTable(m: State, p: nat, d: Index): (r: Option<State>)
    requires p < |m.procs|
    ensures r.Some? ==> r.value.procs == m.procs && r.value.marked >= m.marked
  {
    var f := Pmalloc(m);
    if f.None? then None else
    var (m1, table) := f.value;
    var m2 := m1.(mem := m1.mem[table := ZeroPage()]);
    Some(m2.(mem := SetWord(m2.mem, m2.procs[p].dir, d, UserEntry(table))))
  }

  /** n pages from page number v up; page number v is table slot v % 1024 of directory slot v / 1024. */
  ghost function Mmap(m: State, p: nat, v: nat, n: nat): (r: Option<State>)
    requires p < |m.procs| && v + n <= USER_SLOTS * 1024
    ensures r.Some? ==> r.value.procs == m.procs && r.value.marked >= m.marked
  {
    if n == 0 then Some(m) else
    var r := Mmap(m, p, v, n - 1);
    if r.None? then None else MmapPage(r.value, p, (v + n - 1) / 1024, (v + n - 1) % 1024)
  }

  /** no_pages in mmap: the length in pages, rounded up. */
  function PagesFor(length: nat): (n: nat)
    ensures (n - 1) * 0x1000 < length <= n * 0x1000 || (n == 0 && length == 0)
  {
    length / 0x1000 + if length % 0x1000 != 0 then 1 else 0
  }

  // ---- fork and exec ----

  /** The child's directory: the parent's with every write bit cleared and the last slot pointing at itself. */
  function ForkedDirectory(dir: Page, self: Frame): Page { ClearWrites(dir)[SELF_SLOT := KernelEntry(self)] }

  /**
   The frame process p's descriptor table is copied from: the heap page the table is in, or, for a process that has
   none and a null pointer in its place, the page at address 0. Without such a page the kernel panics.
   */
  function FdFrame(m: State, p: nat, fds: Option<Index>): Option<Frame>
    requires p < |m.procs|
  {
    if fds.Some? then Some(SlotFrame(m, fds.value))
    else if Pde(m, p, 0).present && Pte(m, p, 0, 0).present then Some(Pte(m, p, 0, 0).frame) else None
  }

  /** fork begins with a page for the process record and a copy of the descriptor table. */
  ghost function CopyFds(m: State, p: nat, fds: Option<Index>): (r: Option<State>)
    requires p < |m.procs|
    ensures r.Some? ==> r.value.procs == m.procs && r.value.marked >= m.marked
  {
    var k := Kmalloc(m);
    if k.None? || FdFrame(m, p, fds).None? then None else
    var c := CopyToHeap(k.value.0, FdFrame(m, p, fds).value);
    if c.None? then None else Some(c.value.0)
  }

  /** fork up to the copy of the directory. */
  ghost function ForkCopy(m: State, p: nat, fds: Option<Index>): (r: Option<(State, Index)>)
    requires p < |m.procs|
    ensures r.Some? ==> r.value.0.procs == m.procs && r.value.0.marked >= m.marked
  {
    var c := CopyFds(m, p, fds);
    if c.None? then None else CopyToHeap(c.value, m.procs[p].dir)
  }

  /** The heap page s, holding a copy of a directory, becomes the directory of a new process. */
  function Adopt(m: State, s: Index): State {
    var n := SlotFrame(m, s);
    m.(mem := m.mem[n := ForkedDirectory(m.mem[n], n)], procs := m.procs + [Proc(n, HEAP_SLOT, s)])
  }

  /** fork: the copy, the new process, and a heap page for its kernel stack. */
  ghost function Fork(m: State, p: nat, fds: Option<Index>): (r: Option<State>)
    requires p < |m.procs|
    ensures r.Some? ==> |r.value.procs| == |m.procs| + 1 && r.value.marked >= m.marked
  {
    var c := ForkCopy(m, p, fds);
    if c.None? then None else
    var k := Kmalloc(Adopt(c.value.0, c.value.1));
    if k.None? then None else Some(k.value.0)
  }

  function ClearUser(dir: Page): Page { seq(1024, i requires 0 <= i < 1024 => if i < USER_SLOTS then ZERO else dir[i]) }

  /** A fresh user half, n pages of program from address 0 and the stack page just below USER_LIMIT. */
  ghost function Exec(m: State, p: nat, n: nat): (r: Option<State>)
    requires p < |m.procs| && n <= USER_SLOTS * 1024
    ensures r.Some? ==> r.value.procs == m.procs && r.value.marked >= m.marked
  {
    var dir := m.procs[p].dir;
    var m1 := m.(mem := m.mem[dir := ClearUser(m.mem[dir])]);
    var m2 := Mmap(m1, p, 0, n);
    if m2.None? then None else MmapPage(m2.value, p, USER_SLOTS - 1, 1023)
  }

  // ---- User stores ----

  function Store(m: State, p: nat, a: Linear, w: Word): State
    requires p < |m.procs| && Writable(m, p, a.d, a.t)
  {
    m.(mem := SetWord(m.mem, Pte(m, p, a.d, a.t).frame, a.o, w))
  }
}
