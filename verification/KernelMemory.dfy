/**
 The kernel's memory code as it runs: it reaches page tables only through the recursive mapping of the current
 directory and copies pages word by word. Each method is proved to do what the function of the same name in
 Machine says; a returned None or false is a kernel panic.
 */
module KernelMemory {
  import opened Least
  import opened Words
  import opened Paging
  import opened Machine
  import opened Ledger
  import opened CopyOnWrite
  import opened AddressSpaces
  import opened FrameBitmap
  import opened MemoryRuns

  /** The page directory and its two tables as the boot image is loaded: the kernel is mapped at 0 as well. */
  ghost predicate LoadedImage(mem: Memory) {
    && mem[BOOT_DIR] == seq(1024, i => if i == 0 || i == CODE_SLOT then KernelEntry(CODE_TABLE)
                                        else if i == HEAP_SLOT then KernelEntry(HEAP_TABLE) else ZERO)
    && mem[CODE_TABLE] == seq(1024, i requires 0 <= i < 1024 => KernelEntry(i))
    && mem[HEAP_TABLE] == ZeroPage()
  }

  /** What the kernel's own accesses rely on: its tables and the recursive slot, reachable from directory dir. */
  ghost predicate Wired(mem: Memory, dir: Frame) {
    && dir != HEAP_TABLE && dir != CODE_TABLE
    && mem[dir][CODE_SLOT].present && mem[dir][CODE_SLOT].frame == CODE_TABLE
    && mem[dir][HEAP_SLOT].present && mem[dir][HEAP_SLOT].frame == HEAP_TABLE
    && mem[dir][SELF_SLOT].present && mem[dir][SELF_SLOT].frame == dir
    && mem[CODE_TABLE][BOOT_DIR].present && mem[CODE_TABLE][BOOT_DIR].frame == BOOT_DIR
  }

  lemma ConsistentIsWired(m: State, b: Book, p: nat)
    requires Consistent(m, b) && p < |m.procs|
    ensures Wired(m.mem, m.procs[p].dir)
  {
    assert ProcOk(m, p) && CodeOk(m, BOOT_DIR);
    DirectoryRole(m, b, p);
  }

  /** The frame behind page (d, t) for the kernel. */
  function PageFrame(mem: Memory, dir: Frame, d: Index, t: Index): Option<Frame> {
    var r := Walk(mem, dir, Linear(d, t, 0), Supervisor);
    if r.None? then None else Some(r.value.frame)
  }

  /** Writing frame f leaves the kernel's view of page (d, t) in place. */
  ghost predicate Steady(mem: Memory, dir: Frame, d: Index, t: Index, f: Frame) {
    f != dir && f != mem[dir][d].frame
  }

  /** A page overwritten up to word o. */
  ghost function Mix(new_: Page, old_: Page, o: nat): Page
    requires o <= 1024
  {
    new_[..o] + old_[o..]
  }

  lemma MixEnds(mem: Memory, f: Frame, page: Page)
    ensures mem[f := Mix(page, mem[f], 0)] == mem && Mix(page, mem[f], 1024) == page
  {
    assert Mix(page, mem[f], 0) == mem[f];
  }

  lemma MixStep(mem: Memory, f: Frame, page: Page, o: Index)
    ensures SetWord(mem[f := Mix(page, mem[f], o)], f, o, page[o]) == mem[f := Mix(page, mem[f], o + 1)]
    ensures Mix(page, mem[f], o)[o] == mem[f][o]
  {
    assert Mix(page, mem[f], o)[o := page[o]] == Mix(page, mem[f], o + 1);
  }

  /** The pages the kernel copies from: directories on the heap or in its own image, page tables, user pages. */
  ghost predicate SourcePage(mem: Memory, dir: Frame, d: Index, t: Index) {
    && PageFrame(mem, dir, d, t).Some?
    && ((d == HEAP_SLOT && mem[HEAP_TABLE][t].used) || d == CODE_SLOT || d == SELF_SLOT || d < USER_SLOTS)
  }

  /** Once the buffer of a copy is taken, source, buffer and destination are three frames none of which maps another. */
  lemma CopyThrough(m: State, b: Book, p: nat, d: Index, t: Index, s: Index)
    requires Consistent(m, b) && p < |m.procs| && Taken(m, b, s) && Kmalloc(m).Some?
    requires SourcePage(m.mem, m.procs[p].dir, d, t)
    requires Readable(m, b, PageFrame(m.mem, m.procs[p].dir, d, t).value)
    ensures var (m1, k) := Kmalloc(m).value;
            var dir, n, copy := m.procs[p].dir, SlotFrame(m, s), SlotFrame(m1, k);
            var src := PageFrame(m.mem, dir, d, t).value;
            && Wired(m1.mem, dir) && m1.procs == m.procs
            && PageFrame(m1.mem, dir, d, t) == Some(src)
            && PageFrame(m1.mem, dir, HEAP_SLOT, k) == Some(copy) && PageFrame(m1.mem, dir, HEAP_SLOT, s) == Some(n)
            && copy != src && copy != n
            && Steady(m1.mem, dir, d, t, copy) && Steady(m1.mem, dir, HEAP_SLOT, k, copy)
                && Steady(m1.mem, dir, HEAP_SLOT, s, n)
            && copy != CODE_TABLE && n != CODE_TABLE
  {
    var (m1, k) := Kmalloc(m).value;
    var dir, src := m.procs[p].dir, PageFrame(m.mem, m.procs[p].dir, d, t).value;
    var b1 := KmallocKeeps(m, b);
    ConsistentIsWired(m, b, p);
    ConsistentIsWired(m1, b1, p);
    assert SlotOk(m1, b1, s) && SlotOk(m1, b1, k);
    if d < USER_SLOTS { assert PdeOk(m1, b1, p, d) && PdeOk(m, b, p, d); }
    assert SlotFrame(m1, k) != src by {
      if src in b && b[src].Heap? { assert AttachedOk(m, b, src); assert SlotOk(m1, b1, b[src].slot); }
    }
  }

  lemma SourceKept(m: State, b: Book, b1: Book, p: nat, d: Index, t: Index)
    requires Consistent(m, b) && p < |m.procs| && Kmalloc(m).Some?
    requires SourcePage(m.mem, m.procs[p].dir, d, t)
    requires Readable(m, b, PageFrame(m.mem, m.procs[p].dir, d, t).value)
    requires var (m1, k) := Kmalloc(m).value;
             && Quiet(m, b, m1, b1) && !m.mem[HEAP_TABLE][k].used
             && (forall r: Index :: r != k ==> m1.mem[HEAP_TABLE][r] == m.mem[HEAP_TABLE][r])
    ensures var m1 := Kmalloc(m).value.0;
            && SourcePage(m1.mem, m.procs[p].dir, d, t)
            && PageFrame(m1.mem, m.procs[p].dir, d, t) == PageFrame(m.mem, m.procs[p].dir, d, t)
            && Readable(m1, b1, PageFrame(m.mem, m.procs[p].dir, d, t).value)
  {
    var m1, src := Kmalloc(m).value.0, PageFrame(m.mem, m.procs[p].dir, d, t).value;
    ConsistentIsWired(m, b, p);
    if d < USER_SLOTS { assert PdeOk(m, b, p, d); }
    if src in b && b[src].Heap? { assert AttachedOk(m, b, src); assert SlotOk(m1, b1, b[src].slot); }
  }

  /** The page the descriptor table is copied from, as the kernel addresses it. */
  ghost function FdsPageFrame(mem: Memory, dir: Frame, fds: Option<Index>): Option<Frame> {
    if fds.Some? then PageFrame(mem, dir, HEAP_SLOT, fds.value) else PageFrame(mem, dir, 0, 0)
  }

  lemma FdsPage(m: State, b: Book, p: nat, fds: Option<Index>)
    requires Consistent(m, b) && p < |m.procs| && FdsOk(m, fds)
    ensures FdsPageFrame(m.mem, m.procs[p].dir, fds) == FdFrame(m, p, fds)
    ensures FdFrame(m, p, fds).Some? ==> Readable(m, b, FdFrame(m, p, fds).value)
  {
    ConsistentIsWired(m, b, p);
    if fds.Some? { assert SlotOk(m, b, fds.value); }
    if FdFrame(m, p, fds).Some? { FdsReadable(m, b, p, fds); }
  }

  /** The page is still there after the process record has been allocated. */
  lemma FdsKept(m: State, b: Book, b1: Book, p: nat, fds: Option<Index>)
    requires Consistent(m, b) && p < |m.procs| && FdsOk(m, fds) && Kmalloc(m).Some?
    requires var (m1, k) := Kmalloc(m).value;
             && Quiet(m, b, m1, b1) && !m.mem[HEAP_TABLE][k].used
             && (forall r: Index :: r != k ==> m1.mem[HEAP_TABLE][r] == m.mem[HEAP_TABLE][r])
    ensures var m1 := Kmalloc(m).value.0;
            && FdsPageFrame(m1.mem, m.procs[p].dir, fds) == FdFrame(m, p, fds)
            && (FdFrame(m, p, fds).Some? ==> Readable(m1, b1, FdFrame(m, p, fds).value))
            && FdsOk(m1, fds)
  {
    var m1 := Kmalloc(m).value.0;
    FdsPage(m, b, p, fds);
    ConsistentIsWired(m1, b1, p);
    if fds.Some? { assert SlotOk(m, b, fds.value); } else { PageRoles(m, b, p, 0, 0); }
    if FdFrame(m, p, fds).Some? { ReadableKept(m, b, b1, FdFrame(m, p, fds).value); }
  }

  lemma TakeUnlinked(m: State, b: Book, f: Frame)
    requires Consistent(m, b) && f !in m.marked
    ensures Consistent(m.(marked := m.marked + {f}), b[f := Data(None)])
  {
    TakeFrame(m, b, f, m.mem[f], Data(None));
    assert m.mem[f := m.mem[f]] == m.mem;
  }

  lemma MmapOneMore(m: State, p: nat, v: nat, i: nat)
    requires p < |m.procs| && v + i + 1 <= USER_SLOTS * 1024
    ensures Mmap(m, p, v, i + 1) ==
              if Mmap(m, p, v, i).None? then None
                  else MmapPage(Mmap(m, p, v, i).value, p, (v + i) / 1024, (v + i) % 1024)
  {
    assert v + (i + 1) - 1 == v + i;
  }

  lemma {:induction false} MmapStopsAtPanic(m: State, p: nat, v: nat, i: nat, n: nat)
    requires p < |m.procs| && v + n <= USER_SLOTS * 1024 && i <= n && Mmap(m, p, v, i).None?
    ensures Mmap(m, p, v, n).None?
    decreases n
  {
    if i < n { MmapStopsAtPanic(m, p, v, i, n - 1); }
  }

  /** The kernel reaches a process's directory at the page the process record names. */
  lemma DirectoryPage(m: State, b: Book, p: nat)
    requires Consistent(m, b) && p < |m.procs|
    ensures var q := m.procs[p];
            && SourcePage(m.mem, q.dir, q.slot, q.page) && PageFrame(m.mem, q.dir, q.slot, q.page) == Some(q.dir)
            && Readable(m, b, q.dir)
  {
    assert ProcOk(m, p) && CodeOk(m, m.procs[p].page);
    DirectoryRole(m, b, p);
  }

  /** A directory page with its user half cleared up to slot i. */
  ghost function ClearedTo(dir: Page, i: nat): Page
    requires i <= USER_SLOTS
  {
    seq(1024, j requires 0 <= j < 1024 => if j < i then ZERO else dir[j])
  }

  class Kernel {
    var mem: Memory
    const frames: FrameAllocator
    var procs: seq<Proc>
    var active: nat
    var cr3: Frame
    var pageFaultAllowed: bool

    /** init_pf_bitmap and init_vmm: the recursive slot is set and the mapping at 0 removed. */
    constructor (image: Memory)
      requires LoadedImage(image)
      ensures frames.Valid() && Boot(Snapshot())
      ensures active == 0 && cr3 == BOOT_DIR && !pageFaultAllowed && fresh(frames) && fresh(frames.bitmap)
    {
      frames := new FrameAllocator();
      mem := SetWord(SetWord(image, BOOT_DIR, SELF_SLOT, KernelEntry(BOOT_DIR)), BOOT_DIR, 0, ZERO);
      procs, active, cr3, pageFaultAllowed := [Proc(BOOT_DIR, CODE_SLOT, BOOT_DIR)], 0, BOOT_DIR, false;
      new;
      assert BootImage(mem);
    }

    ghost predicate Ready()
      reads this, frames.bitmap
    {
      frames.Valid() && Wired(mem, cr3)
    }

    ghost function Snapshot(): State
      requires frames.Valid()
      reads this, frames.bitmap
    {
      State(mem, frames.Marked(), procs)
    }

    /** The running process's directory is loaded and the ledger describes the machine. */
    ghost predicate Valid(b: Book)
      reads this, frames.bitmap
    {
      && frames.Valid()
      && active < |procs| && cr3 == procs[active].dir
      && Consistent(Snapshot(), b)
    }

    /** The machine is in state r with ledger b, or r stands for the panic that stopped it. */
    ghost predicate Reached(r: Option<State>, ok: bool, b: Book)
      reads this, frames.bitmap
    {
      frames.Valid() && if ok then r == Some(Snapshot()) && Valid(b) else r.None?
    }

    lemma ValidIsReady(b: Book)
      requires Valid(b)
      ensures Ready()
    {
      ConsistentIsWired(Snapshot(), b, active);
    }

    // ---- Loads and stores in kernel mode ----

    method Load(a: Linear) returns (w: Word)
      requires Walk(mem, cr3, a, Supervisor).Some?
      ensures var r := Walk(mem, cr3, a, Supervisor).value; w == mem[r.frame][r.word]
    {
      var r := Walk(mem, cr3, a, Supervisor).value;
      w := mem[r.frame][r.word];
    }

    method StoreWord(a: Linear, w: Word)
      requires Walk(mem, cr3, a, Supervisor).Some?
      modifies this`mem
      ensures var r := old(Walk(mem, cr3, a, Supervisor)).value; mem == SetWord(old(mem), r.frame, r.word, w)
    {
      var r := Walk(mem, cr3, a, Supervisor).value;
      mem := SetWord(mem, r.frame, r.word, w);
    }

    method GetPaddr(d: Index, t: Index) returns (f: Frame)
      requires Ready() && mem[cr3][d].present
      ensures f == mem[mem[cr3][d].frame][t].frame
    {
      RecursiveMapping(mem, cr3, Linear(d, t, 0));
      var e := Load(PageEntry(Linear(d, t, 0)));
      f := e.frame;
    }

    // ---- The kernel heap ----

    /** The search loop of kmalloc: the first heap slot not in use, or 1024. */
    method FindSlot() returns (s: nat)
      requires Ready()
      ensures if s < 1024 then LeastOutside(UsedSlots(mem), 1024) == Some(s)
              else LeastOutside(UsedSlots(mem), 1024) == None
    {
      s := 0;
      while s < 1024
        invariant s <= 1024
        invariant forall j: nat :: j < s ==> mem[HEAP_TABLE][j].used
      {
        RecursiveMapping(mem, cr3, Linear(HEAP_SLOT, s, 0));
        var e := Load(PageEntry(Linear(HEAP_SLOT, s, 0)));
        if !e.used {
          assert IsLeastOutside(UsedSlots(mem), 1024, s);
          LeastIsUnique(UsedSlots(mem), 1024, s);
          return;
        }
        s := s + 1;
      }
    }

    method Kmalloc() returns (r: Option<Index>)
      requires Ready()
      modifies this`mem, frames.bitmap
      ensures Ready()
      ensures Machine.Kmalloc(old(Snapshot())).Some? <==> r.Some?
      ensures r.Some? ==> Machine.Kmalloc(old(Snapshot())) == Some((Snapshot(), r.value))
    {
      var s := FindSlot();
      if s >= 1024 { return None; }
      RecursiveMapping(mem, cr3, Linear(HEAP_SLOT, s, 0));
      var entry := PageEntry(Linear(HEAP_SLOT, s, 0));
      var e := Load(entry);
      if e.present {
        var w := SetUsedBit(e);
        StoreWord(entry, w);
      } else {
        var f := frames.Pmalloc();
        if f.None? { return None; }
        var w := NewKernelEntry(f.value / 0x1000);
        StoreWord(entry, w);
      }
      return Some(s);
    }

    method Kfree(s: Index)
      requires Ready()
      modifies this`mem
      ensures Ready() && Snapshot() == Machine.Kfree(old(Snapshot()), s)
    {
      RecursiveMapping(mem, cr3, Linear(HEAP_SLOT, s, 0));
      var entry := PageEntry(Linear(HEAP_SLOT, s, 0));
      var e := Load(entry);
      e := ClearUsedBit(e);
      StoreWord(entry, e);
    }

    // ---- Page-sized loops ----

    /** Copies page (sd, st) to page (dd, dt), a word at a time. */
    method CopyWords(sd: Index, st: Index, dd: Index, dt: Index)
      requires PageFrame(mem, cr3, sd, st).Some? && PageFrame(mem, cr3, dd, dt).Some?
      requires var dst := PageFrame(mem, cr3, dd, dt).value;
               && dst != PageFrame(mem, cr3, sd, st).value
               && Steady(mem, cr3, sd, st, dst) && Steady(mem, cr3, dd, dt, dst)
      modifies this`mem
      ensures var src, dst := old(PageFrame(mem, cr3, sd, st)).value, old(PageFrame(mem, cr3, dd, dt)).value;
              mem == old(mem)[dst := old(mem)[src]]
    {
      ghost var src, dst := PageFrame(mem, cr3, sd, st).value, PageFrame(mem, cr3, dd, dt).value;
      ghost var before := mem;
      var o := 0;
      MixEnds(before, dst, before[src]);
      while o < 1024
        invariant o <= 1024
        invariant mem == before[dst := Mix(before[src], before[dst], o)]
      {
        MixStep(before, dst, before[src], o);
        var w := Load(Linear(sd, st, o));
        StoreWord(Linear(dd, dt, o), w);
        o := o + 1;
      }
    }

    method ClearWritesIn(d: Index, t: Index)
      requires PageFrame(mem, cr3, d, t).Some? && Steady(mem, cr3, d, t, PageFrame(mem, cr3, d, t).value)
      modifies this`mem
      ensures var f := old(PageFrame(mem, cr3, d, t)).value; mem == old(mem)[f := ClearWrites(old(mem)[f])]
    {
      ghost var f, before := PageFrame(mem, cr3, d, t).value, mem;
      var i := 0;
      MixEnds(before, f, ClearWrites(before[f]));
      while i < 1024
        invariant i <= 1024
        invariant mem == before[f := Mix(ClearWrites(before[f]), before[f], i)]
      {
        MixStep(before, f, ClearWrites(before[f]), i);
        var w := Load(Linear(d, t, i));
        w := ClearWriteBit(w);
        StoreWord(Linear(d, t, i), w);
        i := i + 1;
      }
    }

    /** mem_copy of a page: page (sd, st) to heap page s. */
    method MemCopy(sd: Index, st: Index, s: Index, ghost b: Book) returns (ok: bool)
      requires Valid(b) && Taken(Snapshot(), b, s)
      requires SourcePage(mem, cr3, sd, st) && Readable(Snapshot(), b, PageFrame(mem, cr3, sd, st).value)
      modifies this`mem, frames.bitmap
      ensures Ready()
      ensures var r := Machine.MemCopy(old(Snapshot()), old(PageFrame(mem, cr3, sd, st)).value,
              old(SlotFrame(Snapshot(), s)));
              if ok then r == Some(Snapshot()) else r.None?
    {
      ghost var m := Snapshot();
      ghost var src, n := PageFrame(mem, cr3, sd, st).value, SlotFrame(m, s);
      ValidIsReady(b);
      var k := Kmalloc();
      if k.None? { return false; }
      CopyThrough(m, b, active, sd, st, s);
      CopyWords(sd, st, HEAP_SLOT, k.value);
      CopyWords(HEAP_SLOT, k.value, HEAP_SLOT, s);
      Kfree(k.value);
      return true;
    }

    /** kmalloc and mem_copy into the new page, as fork and the fault handler do. */
    method CopyToHeap(sd: Index, st: Index, ghost b: Book) returns (r: Option<Index>, ghost b': Book)
      requires Valid(b)
      requires SourcePage(mem, cr3, sd, st) && Readable(Snapshot(), b, PageFrame(mem, cr3, sd, st).value)
      modifies this`mem, frames.bitmap
      ensures Ready()
      ensures var c := Machine.CopyToHeap(old(Snapshot()), old(PageFrame(mem, cr3, sd, st)).value);
              if r.Some? then c == Some((Snapshot(), r.value)) else c.None?
      ensures r.Some? ==> Valid(b') && Quiet(old(Snapshot()), b, Snapshot(), b') && Taken(Snapshot(), b', r.value)
    {
      ghost var m, src := Snapshot(), PageFrame(mem, cr3, sd, st).value;
      ValidIsReady(b);
      b' := b;
      var k := Kmalloc();
      if k.None? { return None, b; }
      ghost var b1 := KmallocKeeps(m, b);
      SourceKept(m, b, b1, active, sd, st);
      var ok := MemCopy(sd, st, k.value, b1);
      if !ok { return None, b; }
      r := k;
      b' := CopyToHeapKeeps(m, b, src);
    }

    // ---- The page fault handler ----

    /** The frame of heap page s, "manually cleared from the heap". */
    method TakeFromHeap(s: Index) returns (f: Frame)
      requires Ready()
      modifies this`mem
      ensures Ready() && f == old(SlotFrame(Snapshot(), s)) && Snapshot() == Detach(old(Snapshot()), s)
    {
      RecursiveMapping(mem, cr3, Linear(HEAP_SLOT, s, 0));
      f := GetPaddr(HEAP_SLOT, s);
      StoreWord(PageEntry(Linear(HEAP_SLOT, s, 0)), ZERO);
    }

    /** Points directory entry d at frame f and sets its write bit, through the recursive mapping. */
    method RetargetTable(d: Index, f: Frame)
      requires Ready() && mem[cr3][d].present
      modifies this`mem
      ensures mem == SetWord(old(mem), cr3, d, old(mem)[cr3][d].(frame := f, write := true))
    {
      RecursiveMapping(mem, cr3, Linear(d, 0, 0));
      var dirEntry := PageEntry(Linear(SELF_SLOT, d, 0));
      var e := Load(dirEntry);
      e := Retarget(e, f);
      StoreWord(dirEntry, e);
    }

    /** Points the entry of page (d, t) at frame f and sets its write bit. */
    method RetargetPage(d: Index, t: Index, f: Frame)
      requires Ready() && mem[cr3][d].present
      modifies this`mem
      ensures var table := old(mem)[cr3][d].frame;
              mem == SetWord(old(mem), table, t, old(mem)[table][t].(frame := f, write := true))
    {
      RecursiveMapping(mem, cr3, Linear(d, t, 0));
      var entry := PageEntry(Linear(d, t, 0));
      var e := Load(entry);
      e := Retarget(e, f);
      StoreWord(entry, e);
    }

    /** The handler's first half, for a directory entry without its write bit. */
    method CowTable(d: Index, ghost b: Book) returns (ok: bool, ghost b': Book)
      requires Valid(b) && d < USER_SLOTS && mem[cr3][d].present && !mem[cr3][d].write
      modifies this`mem, frames.bitmap
      ensures Ready()
      ensures Reached(Machine.CowTable(old(Snapshot()), active, d), ok, b')
      ensures ok ==> SameUser(old(Snapshot()), Snapshot()) && mem[cr3][d].present && mem[cr3][d].write
    {
      ghost var m := Snapshot();
      assert PdeOk(m, b, active, d);
      ValidIsReady(b);
      var c;
      ghost var b1;
      c, b1 := CopyToHeap(SELF_SLOT, d, b);
      if c.None? { return false, b; }
      ConsistentIsWired(Snapshot(), b1, active);
      ClearWritesIn(HEAP_SLOT, c.value);
      var tableFrame := TakeFromHeap(c.value);
      RetargetTable(d, tableFrame);
      ok := true;
      b' := CowTableKeeps(m, b, active, d);
      ValidIsReady(b');
    }

    /** The handler's second half. */
    method CowPage(d: Index, t: Index, ghost b: Book) returns (ok: bool, ghost b': Book)
      requires Valid(b) && d < USER_SLOTS && mem[cr3][d].present && mem[cr3][d].write
      requires Pte(Snapshot(), active, d, t).present
      modifies this`mem, frames.bitmap
      ensures Ready()
      ensures Reached(Machine.CowPage(old(Snapshot()), active, d, t), ok, b')
    {
      ghost var m := Snapshot();
      PageRoles(m, b, active, d, t);
      ValidIsReady(b);
      var c;
      ghost var b1;
      c, b1 := CopyToHeap(d, t, b);
      if c.None? { return false, b; }
      var pageFrame := TakeFromHeap(c.value);
      RetargetPage(d, t, pageFrame);
      ok := true;
      b' := CowPageKeeps(m, b, active, d, t);
      ValidIsReady(b');
    }

    /** mem_set of one page to zero. */
    method ZeroWords(d: Index, t: Index)
      requires PageFrame(mem, cr3, d, t).Some? && Steady(mem, cr3, d, t, PageFrame(mem, cr3, d, t).value)
      modifies this`mem
      ensures mem == old(mem)[old(PageFrame(mem, cr3, d, t)).value := ZeroPage()]
    {
      ghost var f, before := PageFrame(mem, cr3, d, t).value, mem;
      var i := 0;
      MixEnds(before, f, ZeroPage());
      while i < 1024
        invariant i <= 1024
        invariant mem == before[f := Mix(ZeroPage(), before[f], i)]
      {
        MixStep(before, f, ZeroPage(), i);
        StoreWord(Linear(d, t, i), ZERO);
        i := i + 1;
      }
    }

    /**
     page_fault. The error bits say whether the page was present and whether the access was a write and from user
     mode. A missing page is filled only while mmap allows it, and then the address is the entry mmap stores to.
     */
    method PageFault(present: bool, write: bool, user: bool, a: Linear, ghost b: Book)
      returns (ok: bool, ghost b': Book)
      requires Valid(b)
      requires !present && pageFaultAllowed ==> a.d == SELF_SLOT && a.t < USER_SLOTS && !mem[cr3][a.t].present
      requires present && write && user && a.d < USER_SLOTS ==>
                 Mapped(Snapshot(), active, a.d, a.t) && !Writable(Snapshot(), active, a.d, a.t)
      modifies this`mem, frames.bitmap
      ensures Ready()
      ensures ok ==> Valid(b')
      ensures !present ==>
                if ok then Machine.MmapTable(old(Snapshot()), active, a.t) == Some(Snapshot())
                else pageFaultAllowed ==> Machine.MmapTable(old(Snapshot()), active, a.t).None?
      ensures !present && !pageFaultAllowed ==> !ok
      ensures present && write && user && a.d < USER_SLOTS ==>
                var r := Machine.CowFault(old(Snapshot()), active, a.d, a.t);
                if ok then r == Some(Snapshot()) else r.None?
      ensures present && !(write && user && a.d < USER_SLOTS) ==> !ok
    {
      ValidIsReady(b);
      b' := b;
      if !present {
        if !pageFaultAllowed { return false, b; }
        ok, b' := FillTable(a, b);
      } else if user && a.d >= USER_SLOTS {
        return false, b;
      } else if write && user && a.d < USER_SLOTS {
        ok, b' := CowBranch(a.d, a.t, b);
      } else {
        return false, b;
      }
    }

    /** The branch for a missing page: a zeroed table for directory slot a.t. */
    method FillTable(a: Linear, ghost b: Book) returns (ok: bool, ghost b': Book)
      requires Valid(b) && a.d == SELF_SLOT && a.t < USER_SLOTS && !mem[cr3][a.t].present
      modifies this`mem, frames.bitmap
      ensures Ready()
      ensures Reached(Machine.MmapTable(old(Snapshot()), active, a.t), ok, b')
    {
      ghost var m := Snapshot();
      ValidIsReady(b);
      DirectoryRole(m, b, active);
      RecursiveMapping(mem, cr3, Linear(a.t, a.o, 0));
      var entry := PageEntry(a);
      var f := frames.Pmalloc();
      if f.None? { return false, b; }
      var table := f.value / 0x1000;
      assert MarkOk(m, b, table) && MarkOk(m, b, cr3);
      var e := NewUserEntry(table);
      StoreWord(entry, e);
      ZeroWords(a.d, a.t);
      assert mem == SetWord(m.mem[table := ZeroPage()], cr3, a.t, UserEntry(table));
      ok := true;
      b' := MmapTableKeeps(m, b, active, a.t);
      ValidIsReady(b');
    }

    /** Both halves, for a page behind a read-only directory entry. */
    method CowBoth(d: Index, t: Index, ghost b: Book) returns (ok: bool, ghost b': Book)
      requires Valid(b) && d < USER_SLOTS && Mapped(Snapshot(), active, d, t) && !mem[cr3][d].write
      modifies this`mem, frames.bitmap
      ensures Ready()
      ensures Reached(Machine.CowFault(old(Snapshot()), active, d, t), ok, b')
    {
      ghost var m := Snapshot();
      ok, b' := CowTable(d, b);
      if !ok { return; }
      assert SameAt(m, Snapshot(), active, d, t);
      ok, b' := CowPage(d, t, b');
    }

    method CowBranch(d: Index, t: Index, ghost b: Book) returns (ok: bool, ghost b': Book)
      requires Valid(b) && d < USER_SLOTS
      requires Mapped(Snapshot(), active, d, t) && !Writable(Snapshot(), active, d, t)
      modifies this`mem, frames.bitmap
      ensures Ready()
      ensures Reached(Machine.CowFault(old(Snapshot()), active, d, t), ok, b')
    {
      ValidIsReady(b);
      RecursiveMapping(mem, cr3, Linear(d, t, 0));
      var dirEntry := PageEntry(PageEntry(Linear(d, t, 0)));
      var e := Load(dirEntry);
      if e.write {
        ok, b' := CowPage(d, t, b);
      } else {
        ok, b' := CowBoth(d, t, b);
      }
    }

    // ---- mmap ----

    /** The store `*page_entry(...) = w` for user page (d, t); a missing table is filled by the fault handler first. */
    method StoreEntry(d: Index, t: Index, w: Word, ghost b: Book) returns (ok: bool)
      requires Valid(b) && d < USER_SLOTS && pageFaultAllowed
      modifies this`mem, frames.bitmap
      ensures frames.Valid()
      ensures var r := if old(mem[cr3][d].present) then Some(old(Snapshot()))
              else Machine.MmapTable(old(Snapshot()), active, d);
              if ok then r.Some? && Snapshot() ==
                  r.value.(mem := SetWord(r.value.mem, Pde(r.value, active, d).frame, t, w))
              else r.None?
    {
      var entry := PageEntry(Linear(d, t, 0));
      ValidIsReady(b);
      RecursiveMapping(mem, cr3, Linear(d, t, 0));
      if Walk(mem, cr3, entry, Supervisor).None? {
        ghost var b1;
        ok, b1 := PageFault(false, true, false, entry, b);
        if !ok { return; }
        RecursiveMapping(mem, cr3, Linear(d, t, 0));
      }
      StoreWord(entry, w);
      ok := true;
    }

    /** The body of mmap's loop: a frame, then its entry. */
    method MmapOne(d: Index, t: Index, ghost b: Book) returns (ok: bool, ghost b': Book)
      requires Valid(b) && d < USER_SLOTS && pageFaultAllowed
      modifies this`mem, frames.bitmap
      ensures Reached(Machine.MmapPage(old(Snapshot()), active, d, t), ok, b')
    {
      ghost var m := Snapshot();
      b' := b;
      var f := frames.Pmalloc();
      if f.None? { return false, b; }
      TakeUnlinked(m, b, f.value / 0x1000);
      var e := NewUserEntry(f.value / 0x1000);
      ok := StoreEntry(d, t, e, b[f.value / 0x1000 := Data(None)]);
      if ok { b' := MmapPageKeeps(m, b, active, d, t); }
    }

    /** mmap's loop has mapped i pages from page v up, starting in state m. */
    ghost predicate MmapAt(m: State, v: nat, i: nat, b: Book)
      reads this, frames.bitmap
    {
      && Valid(b) && pageFaultAllowed && v + i <= USER_SLOTS * 1024
      && active < |m.procs| && Machine.Mmap(m, active, v, i) == Some(Snapshot())
    }

    /** One turn of mmap's loop over n pages, after i pages. */
    method MmapNext(ghost m: State, v: nat, i: nat, ghost n: nat, ghost b: Book) returns (ok: bool, ghost b': Book)
      requires MmapAt(m, v, i, b) && i < n && v + n <= USER_SLOTS * 1024
      modifies this`mem, frames.bitmap
      ensures frames.Valid()
      ensures if ok then MmapAt(m, v, i + 1, b') else Machine.Mmap(m, active, v, n).None?
    {
      MmapOneMore(m, active, v, i);
      ok, b' := MmapOne((v + i) / 1024, (v + i) % 1024, b);
      if !ok { MmapStopsAtPanic(m, active, v, i + 1, n); }
    }

    /** The loop of mmap. */
    method MmapPages(v: nat, n: nat, ghost b: Book) returns (ok: bool, ghost b': Book)
      requires Valid(b) && pageFaultAllowed && v + n <= USER_SLOTS * 1024
      modifies this`mem, frames.bitmap
      ensures Reached(Machine.Mmap(old(Snapshot()), active, v, n), ok, b')
    {
      ghost var m := Snapshot();
      b' := b;
      var i := 0;
      while i < n
        invariant i <= n && MmapAt(m, v, i, b')
      {
        ok, b' := MmapNext(m, v, i, n, b');
        if !ok { return; }
        i := i + 1;
      }
      ok := true;
    }

    /** flags == 0 maps at USER_HEAP_BASE, anything else at the hint. */
    method Mmap(hint: nat, length: nat, flags: nat, ghost b: Book) returns (r: Option<nat>, ghost b': Book)
      requires Valid(b)
      requires (if flags == 0 then 0x1000_0000 else hint) / 0x1000 + PagesFor(length) <= USER_SLOTS * 1024
      modifies this`mem, this`pageFaultAllowed, frames.bitmap
      ensures frames.Valid()
      ensures var base := if flags == 0 then 0x1000_0000 else hint;
              var m' := Machine.Mmap(old(Snapshot()), active, base / 0x1000, PagesFor(length));
              if r.Some? then r.value == base && m' == Some(Snapshot()) && Valid(b') && !pageFaultAllowed else m'.None?
    {
      var base := if flags == 0 then 0x1000_0000 else hint;
      var noPages := length / 0x1000;
      if length % 0x1000 != 0 { noPages := noPages + 1; }
      assert noPages == PagesFor(length);
      pageFaultAllowed := true;
      assert Snapshot() == old(Snapshot());
      var ok;
      ok, b' := MmapPages(base / 0x1000, noPages, b);
      if !ok { return None, b'; }
      pageFaultAllowed := false;
      r := Some(base);
    }

    // ---- fork and exec ----

    /** fork up to the copy of the directory. */
    method ForkCopy(fds: Option<Index>, ghost b: Book) returns (r: Option<Index>, ghost b': Book)
      requires Valid(b) && FdsOk(Snapshot(), fds)
      modifies this`mem, frames.bitmap
      ensures frames.Valid()
      ensures var c := Machine.ForkCopy(old(Snapshot()), active, fds);
              if r.Some? then c == Some((Snapshot(), r.value)) && Valid(b') && Taken(Snapshot(), b', r.value)
                              && mem[SlotFrame(Snapshot(), r.value)] == mem[cr3] else c.None?
    {
      ghost var m := Snapshot();
      var ok;
      ghost var b2;
      ok, b2 := CopyFds(fds, b);
      if !ok { return None, b; }
      DirectoryPage(Snapshot(), b2, active);
      r, b' := CopyToHeap(procs[active].slot, procs[active].page, b2);
      if r.Some? { b' := ForkCopyKeeps(m, b, active, fds); }
    }

    /**
     The page of the process record and the copy of the descriptor table, which is read from address 0 if there is
     none.
     */
    method CopyFds(fds: Option<Index>, ghost b: Book) returns (ok: bool, ghost b': Book)
      requires Valid(b) && FdsOk(Snapshot(), fds)
      modifies this`mem, frames.bitmap
      ensures Reached(Machine.CopyFds(old(Snapshot()), active, fds), ok, b')
    {
      ghost var m := Snapshot();
      FdsPage(m, b, active, fds);
      ValidIsReady(b);
      var d, t := if fds.Some? then HEAP_SLOT else 0, if fds.Some? then fds.value else 0;
      var record := Kmalloc();
      if record.None? { return false, b; }
      ghost var b1 := KmallocKeeps(m, b);
      FdsKept(m, b, b1, active, fds);
      if Walk(mem, cr3, Linear(d, t, 0), Supervisor).None? { return false, b; }
      var copy;
      copy, b' := CopyToHeap(d, t, b1);
      ok := copy.Some?;
    }

    /** The copy becomes a directory: no write bits, the recursive slot, and a place in the process list. */
    method AdoptDirectory(s: Index, ghost b: Book)
      requires Valid(b) && Taken(Snapshot(), b, s) && mem[SlotFrame(Snapshot(), s)] == mem[cr3]
      modifies this`mem, this`procs
      ensures Snapshot() == Adopt(old(Snapshot()), s) && Valid(b)
    {
      ghost var m := Snapshot();
      ValidIsReady(b);
      ClearWritesIn(HEAP_SLOT, s);
      var f := GetPaddr(HEAP_SLOT, s);
      var e := NewKernelEntry(f);
      StoreWord(Linear(HEAP_SLOT, s, SELF_SLOT), e);
      procs := procs + [Proc(f, HEAP_SLOT, s)];
      assert Snapshot() == Adopt(m, s);
      AdoptKeeps(m, b, active, s);
    }

    /** fork; fds is the heap page fd_tables holds for the running process, if any. */
    method Fork(fds: Option<Index>, ghost b: Book) returns (ok: bool, ghost b': Book)
      requires Valid(b) && FdsOk(Snapshot(), fds)
      modifies this`mem, this`procs, frames.bitmap
      ensures Reached(Machine.Fork(old(Snapshot()), active, fds), ok, b')
    {
      var newDir;
      newDir, b' := ForkCopy(fds, b);
      if newDir.None? { return false, b; }
      ok, b' := FinishFork(newDir.value, b');
    }

    /** fork from the new directory on. */
    method FinishFork(s: Index, ghost b: Book) returns (ok: bool, ghost b': Book)
      requires Valid(b) && Taken(Snapshot(), b, s) && mem[SlotFrame(Snapshot(), s)] == mem[cr3]
      modifies this`mem, this`procs, frames.bitmap
      ensures var k := Machine.Kmalloc(Adopt(old(Snapshot()), s));
              Reached(if k.Some? then Some(k.value.0) else None, ok, b')
    {
      AdoptDirectory(s, b);
      ok, b' := TakeStack(b);
    }

    /** The page of the new process's kernel stack. */
    method TakeStack(ghost b: Book) returns (ok: bool, ghost b': Book)
      requires Valid(b)
      modifies this`mem, frames.bitmap
      ensures var k := Machine.Kmalloc(old(Snapshot()));
              Reached(if k.Some? then Some(k.value.0) else None, ok, b')
    {
      ghost var m := Snapshot();
      ValidIsReady(b);
      var kstack := Kmalloc();
      ok, b' := kstack.Some?, b;
      if ok { b' := KmallocKeeps(m, b); }
    }

    /** Clears directory slots 0 to 0x2FF through the kernel's own mapping of the directory. */
    method ClearUserSlots(ghost b: Book)
      requires Valid(b)
      modifies this`mem
      ensures Valid(b) && mem == old(mem)[cr3 := ClearUser(old(mem)[cr3])]
    {
      ghost var m := Snapshot();
      ValidIsReady(b);
      assert ProcOk(m, active);
      DirectoryRole(m, b, active);
      ghost var before := mem;
      var i := 0;
      assert ClearedTo(before[cr3], 0) == before[cr3];
      while i < USER_SLOTS
        invariant i <= USER_SLOTS
        invariant mem == before[cr3 := ClearedTo(before[cr3], i)]
      {
        StoreWord(Linear(procs[active].slot, procs[active].page, i), ZERO);
        assert ClearedTo(before[cr3], i)[i := ZERO] == ClearedTo(before[cr3], i + 1);
        i := i + 1;
      }
      assert ClearedTo(before[cr3], USER_SLOTS) == ClearUser(before[cr3]);
      ClearDirectory(m, b, active);
    }

    /** The address-space part of exec for a program of the given size in bytes. */
    method Exec(size: nat, ghost b: Book) returns (ok: bool, ghost b': Book)
      requires Valid(b) && PagesFor(size) <= USER_SLOTS * 1024
      modifies this`mem, this`pageFaultAllowed, frames.bitmap
      ensures Reached(Machine.Exec(old(Snapshot()), active, PagesFor(size)), ok, b')
    {
      ClearUserSlots(b);
      b' := b;
      var program, stack;
      program, b' := Mmap(0, size, 1, b');
      if program.None? { return false, b'; }
      ghost var m2 := Snapshot();
      assert PagesFor(4096) == 1;
      assert Machine.Mmap(m2, active, 0xbffff, 0) == Some(m2);
      stack, b' := Mmap(0xbffff000, 4096, 1, b');
      ok := stack.Some?;
    }

    /** The part of the scheduler that loads the chosen process's directory. */
    method SwitchTo(p: nat, ghost b: Book)
      requires Valid(b) && p < |procs|
      modifies this`active, this`cr3
      ensures Valid(b) && active == p
    {
      ValidIsReady(b);
      assert ProcOk(Snapshot(), p) && CodeOk(Snapshot(), procs[p].page);
      var f := GetPaddr(procs[p].slot, procs[p].page);
      active, cr3 := p, f;
    }
  }
}
