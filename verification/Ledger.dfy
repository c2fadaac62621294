/**
 What every reachable machine state satisfies, stated against a ledger that records for each marked frame
 what it is for and, if something may be written through it, through which single entry.
 */
module Ledger {
  import opened Least
  import opened Words
  import opened Paging
  import opened Machine
  import FrameBitmap

  const KERNEL_FRAMES: nat := FrameBitmap.KERNEL_FRAMES

  datatype Role =
    | Heap(slot: Index)                                 // attached to one kernel heap slot
    | Table(dirEntry: Option<(nat, Index)>)             // user page table; the directory entry that may write it
    | Data(tableEntry: Option<(Frame, Index)>)          // user page; the table entry that may write it

  type Book = map<nat, Role>

  /** Marked frames are the kernel's own 8 MiB and the frames in the ledger. */
  ghost predicate MarkOk(m: State, b: Book, f: nat) {
    && (f in b ==> KERNEL_FRAMES <= f < FRAMES)
    && (f < FRAMES ==> (f in m.marked <==> f < KERNEL_FRAMES || f in b))
  }

  ghost predicate SlotOk(m: State, b: Book, s: Index) {
    var e := m.mem[HEAP_TABLE][s];
    && (e.used ==> e.present)
    && (e.present ==> e.frame in b && b[e.frame] == Heap(s))
  }

  /** A heap frame is attached to the slot the ledger names. */
  ghost predicate AttachedOk(m: State, b: Book, f: Frame) {
    f in b && b[f].Heap? ==> m.mem[HEAP_TABLE][b[f].slot].present && m.mem[HEAP_TABLE][b[f].slot].frame == f
  }

  /** The kernel's identity table maps the first 4 MiB. */
  ghost predicate CodeOk(m: State, i: Index) {
    m.mem[CODE_TABLE][i].present && m.mem[CODE_TABLE][i].frame == i
  }

  ghost predicate ProcOk(m: State, p: nat)
    requires p < |m.procs|
  {
    var q := m.procs[p];
    && (|| (q == Proc(BOOT_DIR, CODE_SLOT, BOOT_DIR))
        || (q.slot == HEAP_SLOT && m.mem[HEAP_TABLE][q.page].used && m.mem[HEAP_TABLE][q.page].present
            && m.mem[HEAP_TABLE][q.page].frame == q.dir))
    && m.mem[q.dir][CODE_SLOT].present && m.mem[q.dir][CODE_SLOT].frame == CODE_TABLE
    && m.mem[q.dir][HEAP_SLOT].present && m.mem[q.dir][HEAP_SLOT].frame == HEAP_TABLE
    && m.mem[q.dir][SELF_SLOT].present && m.mem[q.dir][SELF_SLOT].frame == q.dir
    && KernelHalf(m.mem[q.dir])
  }

  /** The entries of the kernel's half of a directory, the recursive one included, are closed to user mode. */
  ghost predicate KernelHalf(dir: Page) { forall d: Index :: d >= USER_SLOTS ==> !dir[d].user }

  /** Processes have directories of their own. */
  ghost predicate Apart(m: State, p: nat, q: nat)
    requires p < |m.procs| && q < |m.procs|
  {
    m.procs[p].dir == m.procs[q].dir ==> p == q
  }

  /** The process whose directory entry owns table f. Processes are numbered in the order they were forked. */
  ghost predicate Owned(b: Book, f: Frame) { f in b && b[f].Table? && b[f].dirEntry.Some? }

  ghost function Owner(b: Book, f: Frame): nat
    requires Owned(b, f)
  {
    b[f].dirEntry.value.0
  }

  /**
   A writable user directory entry is the owner of its table; a read-only one names a table owned by an earlier
   process.
   */
  ghost predicate PdeOk(m: State, b: Book, p: nat, d: Index)
    requires p < |m.procs|
  {
    var e := m.mem[m.procs[p].dir][d];
    d < USER_SLOTS && e.present ==>
      e.user && Owned(b, e.frame) && if e.write then b[e.frame].dirEntry == Some((p, d)) else Owner(b, e.frame) < p
  }

  /** Frame f is user data, owned by an entry of a table that is itself owned. */
  ghost predicate OwnedData(b: Book, f: Frame) {
    f in b && b[f].Data? && b[f].tableEntry.Some? && Owned(b, b[f].tableEntry.value.0)
  }

  ghost function DataOwner(b: Book, f: Frame): nat
    requires OwnedData(b, f)
  {
    Owner(b, b[f].tableEntry.value.0)
  }

  /**
   A writable entry of a user table is the owner of its data frame; a read-only one names a frame owned by a
   process earlier than the table's.
   */
  ghost predicate PteOk(m: State, b: Book, f: Frame, t: Index) {
    var e := m.mem[f][t];
    f in b && b[f].Table? && e.present ==>
      && e.user && OwnedData(b, e.frame)
      && (if e.write then b[e.frame].tableEntry == Some((f, t))
          else Owned(b, f) ==> DataOwner(b, e.frame) < Owner(b, f))
  }

  ghost predicate Consistent(m: State, b: Book) {
    && BOOT_DIR !in b && CODE_TABLE !in b && HEAP_TABLE !in b
    && (forall f: nat :: MarkOk(m, b, f))
    && (forall s: Index :: SlotOk(m, b, s))
    && (forall f: Frame :: AttachedOk(m, b, f))
    && (forall i: Index :: CodeOk(m, i))
    && (forall p: nat :: p < |m.procs| ==> ProcOk(m, p))
    && (forall p: nat, q: nat :: p < |m.procs| && q < |m.procs| ==> Apart(m, p, q))
    && (forall p: nat, d: Index :: p < |m.procs| ==> PdeOk(m, b, p, d))
    && (forall f: Frame, t: Index :: PteOk(m, b, f, t))
  }

  ghost predicate IsDirectory(m: State, f: Frame) { exists p: nat :: p < |m.procs| && m.procs[p].dir == f }

  /** Directories are heap frames or the boot directory. */
  lemma DirectoryRole(m: State, b: Book, p: nat)
    requires Consistent(m, b) && p < |m.procs|
    ensures m.procs[p].dir == BOOT_DIR || (m.procs[p].dir in b && b[m.procs[p].dir] == Heap(m.procs[p].page))
  {
    assert ProcOk(m, p);
    assert SlotOk(m, b, m.procs[p].page);
  }

  // ---- Writing contents ----

  /** The contents of heap pages that are not directories, and of user pages, are nobody's invariant. */
  lemma WritePage(m: State, b: Book, f: Frame, page: Page)
    requires Consistent(m, b) && !IsDirectory(m, f)
    requires f in b && !b[f].Table?
    ensures Consistent(m.(mem := m.mem[f := page]), b)
  {
    var m' := m.(mem := m.mem[f := page]);
    forall g: nat ensures MarkOk(m', b, g) { assert MarkOk(m, b, g); }
    forall p: nat, q: nat | p < |m'.procs| && q < |m'.procs| ensures Apart(m', p, q) { assert Apart(m, p, q); }
    forall s: Index ensures SlotOk(m', b, s) { assert SlotOk(m, b, s); }
    forall g: Frame ensures AttachedOk(m', b, g) { assert AttachedOk(m, b, g); }
    forall i: Index ensures CodeOk(m', i) { assert CodeOk(m, i); }
    forall p: nat | p < |m.procs| ensures ProcOk(m', p) { assert ProcOk(m, p); }
    forall p: nat, d: Index | p < |m.procs| ensures PdeOk(m', b, p, d) { assert PdeOk(m, b, p, d); }
    forall g: Frame, t: Index ensures PteOk(m', b, g, t) { assert PteOk(m, b, g, t); }
  }

  // ---- Heap slots ----

  lemma SetUsed(m: State, b: Book, s: Index, used: bool)
    requires Consistent(m, b) && m.mem[HEAP_TABLE][s].present
    requires used || !IsDirectory(m, SlotFrame(m, s))
    ensures Consistent(m.(mem := SetWord(m.mem, HEAP_TABLE, s, m.mem[HEAP_TABLE][s].(used := used))), b)
  {
    var m' := m.(mem := SetWord(m.mem, HEAP_TABLE, s, m.mem[HEAP_TABLE][s].(used := used)));
    forall g: nat ensures MarkOk(m', b, g) { assert MarkOk(m, b, g); }
    forall p: nat, q: nat | p < |m'.procs| && q < |m'.procs| ensures Apart(m', p, q) { assert Apart(m, p, q); }
    forall r: Index ensures SlotOk(m', b, r) { assert SlotOk(m, b, r); }
    forall g: Frame ensures AttachedOk(m', b, g) { assert AttachedOk(m, b, g); }
    forall i: Index ensures CodeOk(m', i) { assert CodeOk(m, i); }
    forall p: nat | p < |m.procs| ensures ProcOk(m', p) { assert ProcOk(m, p); DirectoryRole(m, b, p); }
    forall p: nat, d: Index | p < |m.procs| ensures PdeOk(m', b, p, d) {
      assert PdeOk(m, b, p, d);
      DirectoryRole(m, b, p);
    }
    forall g: Frame, t: Index ensures PteOk(m', b, g, t) { assert PteOk(m, b, g, t); }
  }

  lemma Attach(m: State, b: Book, s: Index, f: Frame)
    requires Consistent(m, b) && !m.mem[HEAP_TABLE][s].present && f !in m.marked
    ensures Consistent(State(SetWord(m.mem, HEAP_TABLE, s, KernelEntry(f)), m.marked + {f}, m.procs), b[f := Heap(s)])
  {
    var m' := State(SetWord(m.mem, HEAP_TABLE, s, KernelEntry(f)), m.marked + {f}, m.procs);
    var b' := b[f := Heap(s)];
    assert MarkOk(m, b, f);
    forall g: nat ensures MarkOk(m', b', g) { assert MarkOk(m, b, g); }
    forall p: nat, q: nat | p < |m'.procs| && q < |m'.procs| ensures Apart(m', p, q) { assert Apart(m, p, q); }
    forall r: Index ensures SlotOk(m', b', r) { assert SlotOk(m, b, r); }
    forall g: Frame ensures AttachedOk(m', b', g) { assert AttachedOk(m, b, g); }
    forall i: Index ensures CodeOk(m', i) { assert CodeOk(m, i); }
    forall p: nat | p < |m.procs| ensures ProcOk(m', p) { assert ProcOk(m, p); DirectoryRole(m, b, p); }
    forall p: nat, d: Index | p < |m.procs| ensures PdeOk(m', b', p, d) {
      assert PdeOk(m, b, p, d);
      DirectoryRole(m, b, p);
    }
    forall g: Frame, t: Index ensures PteOk(m', b', g, t) { assert PteOk(m, b, g, t); }
  }

  /** What a frame's contents must look like before it can serve as a user table. */
  ghost predicate TableReady(b: Book, page: Page) {
    forall t: Index :: page[t].present ==> page[t].user && !page[t].write && OwnedData(b, page[t].frame)
  }

  /** Every page of the table belongs to a process earlier than p. */
  ghost predicate AllEarlier(b: Book, page: Page, p: nat) {
    forall t: Index :: page[t].present && OwnedData(b, page[t].frame) ==> DataOwner(b, page[t].frame) < p
  }

  /** A detached frame becomes a page or a table that nothing refers to yet. */
  lemma DetachFrame(m: State, b: Book, s: Index, role: Role)
    requires Consistent(m, b) && m.mem[HEAP_TABLE][s].present && !IsDirectory(m, SlotFrame(m, s))
    requires role == Data(None) || (role == Table(None) && TableReady(b, m.mem[SlotFrame(m, s)]))
    ensures Consistent(Detach(m, s), b[SlotFrame(m, s) := role])
  {
    var n := SlotFrame(m, s);
    var m', b' := Detach(m, s), b[n := role];
    assert SlotOk(m, b, s);
    forall g: nat ensures MarkOk(m', b', g) { assert MarkOk(m, b, g); }
    forall p: nat, q: nat | p < |m'.procs| && q < |m'.procs| ensures Apart(m', p, q) { assert Apart(m, p, q); }
    forall r: Index ensures SlotOk(m', b', r) { assert SlotOk(m, b, r); }
    forall g: Frame ensures AttachedOk(m', b', g) { assert AttachedOk(m, b, g); }
    forall i: Index ensures CodeOk(m', i) { assert CodeOk(m, i); }
    forall p: nat | p < |m.procs| ensures ProcOk(m', p) { assert ProcOk(m, p); DirectoryRole(m, b, p); }
    forall p: nat, d: Index | p < |m.procs| ensures PdeOk(m', b', p, d) {
      assert PdeOk(m, b, p, d);
      DirectoryRole(m, b, p);
    }
    forall g: Frame, t: Index ensures PteOk(m', b', g, t) { assert PteOk(m, b, g, t); }
  }

  // ---- User entries ----

  /** A frame taken straight from the allocator for user space. */
  lemma TakeFrame(m: State, b: Book, f: Frame, page: Page, role: Role)
    requires Consistent(m, b) && f !in m.marked
    requires role == Data(None) || (role == Table(None) && TableReady(b, page))
    ensures Consistent(State(m.mem[f := page], m.marked + {f}, m.procs), b[f := role])
  {
    var m', b' := State(m.mem[f := page], m.marked + {f}, m.procs), b[f := role];
    assert MarkOk(m, b, f);
    forall g: nat ensures MarkOk(m', b', g) { assert MarkOk(m, b, g); }
    forall p: nat, q: nat | p < |m'.procs| && q < |m'.procs| ensures Apart(m', p, q) { assert Apart(m, p, q); }
    forall r: Index ensures SlotOk(m', b', r) { assert SlotOk(m, b, r); }
    forall g: Frame ensures AttachedOk(m', b', g) { assert AttachedOk(m, b, g); }
    forall i: Index ensures CodeOk(m', i) { assert CodeOk(m, i); }
    forall p: nat | p < |m.procs| ensures ProcOk(m', p) { assert ProcOk(m, p); DirectoryRole(m, b, p); }
    forall p: nat, d: Index | p < |m.procs| ensures PdeOk(m', b', p, d) {
      assert PdeOk(m, b, p, d);
      DirectoryRole(m, b, p);
    }
    forall g: Frame, t: Index ensures PteOk(m', b', g, t) { assert PteOk(m, b, g, t); }
  }

  /** Pointing a directory entry at an unowned table makes the entry its owner. */
  lemma LinkTable(m: State, b: Book, p: nat, d: Index, e: Word)
    requires Consistent(m, b) && p < |m.procs| && d < USER_SLOTS
    requires e.user && e.write && e.frame in b && b[e.frame] == Table(None) && AllEarlier(b, m.mem[e.frame], p)
    ensures Consistent(m.(mem := SetWord(m.mem, m.procs[p].dir, d, e)), b[e.frame := Table(Some((p, d)))])
  {
    var dir := m.procs[p].dir;
    var m', b' := m.(mem := SetWord(m.mem, dir, d, e)), b[e.frame := Table(Some((p, d)))];
    DirectoryRole(m, b, p);
    forall g: nat ensures MarkOk(m', b', g) { assert MarkOk(m, b, g); }
    forall p: nat, q: nat | p < |m'.procs| && q < |m'.procs| ensures Apart(m', p, q) { assert Apart(m, p, q); }
    forall r: Index ensures SlotOk(m', b', r) { assert SlotOk(m, b, r); }
    forall g: Frame ensures AttachedOk(m', b', g) { assert AttachedOk(m, b, g); }
    forall i: Index ensures CodeOk(m', i) { assert CodeOk(m, i); }
    forall q: nat | q < |m.procs| ensures ProcOk(m', q) { assert ProcOk(m, q) && Apart(m, p, q); }
    forall q: nat, c: Index | q < |m.procs| ensures PdeOk(m', b', q, c) { assert PdeOk(m, b, q, c) && Apart(m, p, q); }
    forall g: Frame, t: Index ensures PteOk(m', b', g, t) { assert PteOk(m, b, g, t); }
  }

  /** Pointing a table entry at an unowned page makes the entry its owner. */
  lemma LinkPage(m: State, b: Book, f: Frame, t: Index, e: Word)
    requires Consistent(m, b) && Owned(b, f)
    requires e.user && e.write && e.frame in b && b[e.frame] == Data(None)
    ensures Consistent(m.(mem := SetWord(m.mem, f, t, e)), b[e.frame := Data(Some((f, t)))])
  {
    var m', b' := m.(mem := SetWord(m.mem, f, t, e)), b[e.frame := Data(Some((f, t)))];
    forall g: nat ensures MarkOk(m', b', g) { assert MarkOk(m, b, g); }
    forall p: nat, q: nat | p < |m'.procs| && q < |m'.procs| ensures Apart(m', p, q) { assert Apart(m, p, q); }
    forall r: Index ensures SlotOk(m', b', r) { assert SlotOk(m, b, r); }
    forall g: Frame ensures AttachedOk(m', b', g) { assert AttachedOk(m, b, g); }
    forall i: Index ensures CodeOk(m', i) { assert CodeOk(m, i); }
    forall q: nat | q < |m.procs| ensures ProcOk(m', q) { assert ProcOk(m, q); DirectoryRole(m, b, q); }
    forall q: nat, c: Index | q < |m.procs| ensures PdeOk(m', b', q, c) {
      assert PdeOk(m, b, q, c);
      DirectoryRole(m, b, q);
    }
    forall g: Frame, u: Index ensures PteOk(m', b', g, u) { assert PteOk(m, b, g, u); }
  }

  /** exec's first step: the user half of a directory is emptied. */
  lemma ClearDirectory(m: State, b: Book, p: nat)
    requires Consistent(m, b) && p < |m.procs|
    ensures var dir := m.procs[p].dir; Consistent(m.(mem := m.mem[dir := ClearUser(m.mem[dir])]), b)
  {
    var dir := m.procs[p].dir;
    var m' := m.(mem := m.mem[dir := ClearUser(m.mem[dir])]);
    DirectoryRole(m, b, p);
    forall g: nat ensures MarkOk(m', b, g) { assert MarkOk(m, b, g); }
    forall p: nat, q: nat | p < |m'.procs| && q < |m'.procs| ensures Apart(m', p, q) { assert Apart(m, p, q); }
    forall r: Index ensures SlotOk(m', b, r) { assert SlotOk(m, b, r); }
    forall g: Frame ensures AttachedOk(m', b, g) { assert AttachedOk(m, b, g); }
    forall i: Index ensures CodeOk(m', i) { assert CodeOk(m, i); }
    forall q: nat | q < |m.procs| ensures ProcOk(m', q) { assert ProcOk(m, q) && Apart(m, p, q); }
    forall q: nat, c: Index | q < |m.procs| ensures PdeOk(m', b, q, c) { assert PdeOk(m, b, q, c) && Apart(m, p, q); }
    forall g: Frame, t: Index ensures PteOk(m', b, g, t) { assert PteOk(m, b, g, t); }
  }

  /** fork's last step: a heap page holding the forked directory becomes a process. */
  lemma AddProcess(m: State, b: Book, p: nat, s: Index)
    requires Consistent(m, b) && p < |m.procs|
    requires m.mem[HEAP_TABLE][s].used && !IsDirectory(m, SlotFrame(m, s))
    ensures var n := SlotFrame(m, s);
            Consistent(State(m.mem[n := ForkedDirectory(m.mem[m.procs[p].dir], n)], m.marked,
                             m.procs + [Proc(n, HEAP_SLOT, s)]), b)
  {
    var n, dir := SlotFrame(m, s), m.procs[p].dir;
    var m' := State(m.mem[n := ForkedDirectory(m.mem[dir], n)], m.marked, m.procs + [Proc(n, HEAP_SLOT, s)]);
    assert SlotOk(m, b, s);
    forall g: nat ensures MarkOk(m', b, g) { assert MarkOk(m, b, g); }
    forall r: nat, q: nat | r < |m'.procs| && q < |m'.procs| ensures Apart(m', r, q) {
      if r < |m.procs| && q < |m.procs| { assert Apart(m, r, q); }
    }
    forall r: Index ensures SlotOk(m', b, r) { assert SlotOk(m, b, r); }
    forall g: Frame ensures AttachedOk(m', b, g) { assert AttachedOk(m, b, g); }
    forall i: Index ensures CodeOk(m', i) { assert CodeOk(m, i); }
    assert ProcOk(m, p);
    forall q: nat | q < |m'.procs| ensures ProcOk(m', q) {
      if q < |m.procs| { assert ProcOk(m, q); }
    }
    forall q: nat, c: Index | q < |m'.procs| ensures PdeOk(m', b, q, c) {
      if q < |m.procs| { assert PdeOk(m, b, q, c); } else { assert PdeOk(m, b, p, c); }
    }
    forall g: Frame, t: Index ensures PteOk(m', b, g, t) { assert PteOk(m, b, g, t); }
  }
}
