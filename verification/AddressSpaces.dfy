/** fork, mmap, exec and user stores: what they keep, and which pages of which processes they can change. */
module AddressSpaces {
  import opened Least
  import opened Words
  import opened Paging
  import opened Machine
  import opened Ledger
  import opened CopyOnWrite

  // ---- fork ----

  /** A descriptor table, if the process has one, is a heap page in use. */
  ghost predicate FdsOk(m: State, fds: Option<Index>) { fds.Some? ==> m.mem[HEAP_TABLE][fds.value].used }

  lemma FdsReadable(m: State, b: Book, p: nat, fds: Option<Index>)
    requires Consistent(m, b) && p < |m.procs| && FdsOk(m, fds) && FdFrame(m, p, fds).Some?
    ensures Readable(m, b, FdFrame(m, p, fds).value)
  {
    if fds.Some? { assert SlotOk(m, b, fds.value); } else { PageRoles(m, b, p, 0, 0); }
  }

  lemma CopyFdsKeeps(m: State, b: Book, p: nat, fds: Option<Index>) returns (b': Book)
    requires Consistent(m, b) && p < |m.procs| && FdsOk(m, fds) && CopyFds(m, p, fds).Some?
    ensures Quiet(m, b, CopyFds(m, p, fds).value, b')
  {
    var src := FdFrame(m, p, fds).value;
    FdsReadable(m, b, p, fds);
    var m1 := Kmalloc(m).value.0;
    var b1 := KmallocKeeps(m, b);
    ReadableKept(m, b, b1, src);
    b' := CopyToHeapKeeps(m1, b1, src);
    QuietTrans(m, b, m1, b1, CopyToHeap(m1, src).value.0, b');
  }

  lemma ForkCopyKeeps(m: State, b: Book, p: nat, fds: Option<Index>) returns (b': Book)
    requires Consistent(m, b) && p < |m.procs| && FdsOk(m, fds) && ForkCopy(m, p, fds).Some?
    ensures var (m', s) := ForkCopy(m, p, fds).value;
            && Quiet(m, b, m', b') && Taken(m', b', s)
            && m'.mem[SlotFrame(m', s)] == m.mem[m.procs[p].dir]
  {
    var m2 := CopyFds(m, p, fds).value;
    var b2 := CopyFdsKeeps(m, b, p, fds);
    DirectoryRole(m2, b2, p);
    assert ProcOk(m2, p);
    b' := CopyToHeapKeeps(m2, b2, m.procs[p].dir);
    QuietTrans(m, b, m2, b2, ForkCopy(m, p, fds).value.0, b');
  }

  lemma AdoptKeeps(m: State, b: Book, p: nat, s: Index)
    requires Consistent(m, b) && p < |m.procs| && Taken(m, b, s)
    requires m.mem[SlotFrame(m, s)] == m.mem[m.procs[p].dir]
    ensures var m' := Adopt(m, s);
            && Consistent(m', b) && SameUser(m, m')
            && (forall d: nat, t: Index :: d < USER_SLOTS ==>
                  View(m', |m.procs|, d, t) == View(m, p, d, t) && !Writable(m', |m.procs|, d, t))
  {
    AddProcess(m, b, p, s);
    var m' := Adopt(m, s);
    forall q: nat, d: nat, t: Index | q < |m.procs| && d < USER_SLOTS ensures SameAt(m, m', q, d, t) {
      PageRoles(m, b, q, d, t);
    }
    forall d: nat, t: Index | d < USER_SLOTS
      ensures View(m', |m.procs|, d, t) == View(m, p, d, t) && !Writable(m', |m.procs|, d, t)
    {
      PageRoles(m, b, p, d, t);
    }
  }

  /**
   Process p's child, the last process, sees what p sees in m, and can write none of it. Its directory names the
   tables p's does, the kernel's among them, and maps itself in its last slot for the kernel alone.
   */
  ghost predicate IsChild(m: State, m': State, p: nat)
    requires p < |m.procs|
  {
    && |m'.procs| == |m.procs| + 1 && m'.procs[..|m.procs|] == m.procs
    && (forall d: nat, t: Index :: d < USER_SLOTS ==>
          View(m', |m.procs|, d, t) == View(m, p, d, t) && !Writable(m', |m.procs|, d, t))
    && (forall d: nat :: d < SELF_SLOT ==>
          Pde(m', p, d) == Pde(m, p, d) && Pde(m', |m.procs|, d) == Pde(m, p, d).(write := false))
    && (var e := Pde(m', |m.procs|, SELF_SLOT);
        e.present && e.write && !e.user && e.frame == m'.procs[|m.procs|].dir)
  }

  /** fork from the copy of the directory on. */
  lemma ForkFromCopy(m: State, b: Book, p: nat, s: Index) returns (b': Book)
    requires Consistent(m, b) && p < |m.procs| && Taken(m, b, s) && Kmalloc(Adopt(m, s)).Some?
    requires m.mem[SlotFrame(m, s)] == m.mem[m.procs[p].dir]
    ensures var m' := Kmalloc(Adopt(m, s)).value.0; Consistent(m', b') && SameUser(m, m') && IsChild(m, m', p)
  {
    AdoptKeeps(m, b, p, s);
    var m2 := Adopt(m, s);
    b' := KmallocKeeps(m2, b);
    var m' := Kmalloc(m2).value.0;
    QuietIsInvisible(m2, b, m', b');
    SameUserTrans(m, m2, m');
    forall d: nat, t: Index | d < USER_SLOTS
      ensures View(m', |m.procs|, d, t) == View(m, p, d, t) && !Writable(m', |m.procs|, d, t)
    {
      assert SameAt(m2, m', |m.procs|, d, t);
    }
    assert m'.mem[m2.procs[|m.procs|].dir] == m2.mem[m2.procs[|m.procs|].dir];
    assert m'.mem[m2.procs[p].dir] == m2.mem[m2.procs[p].dir];
  }

  /** The child sees exactly what the parent sees and can write none of it; nobody else notices. */
  lemma ForkKeeps(m: State, b: Book, p: nat, fds: Option<Index>) returns (b': Book)
    requires Consistent(m, b) && p < |m.procs| && FdsOk(m, fds) && Fork(m, p, fds).Some?
    ensures var m' := Fork(m, p, fds).value; Consistent(m', b') && SameUser(m, m') && IsChild(m, m', p)
  {
    var (m1, s) := ForkCopy(m, p, fds).value;
    var b1 := ForkCopyKeeps(m, b, p, fds);
    QuietIsInvisible(m, b, m1, b1);
    b' := ForkFromCopy(m1, b1, p, s);
    ChildOfQuiet(m, b, m1, b1, Fork(m, p, fds).value, p);
  }

  lemma ChildOfQuiet(m: State, b: Book, m1: State, b1: Book, m': State, p: nat)
    requires p < |m.procs| && Quiet(m, b, m1, b1) && SameUser(m, m1) && SameUser(m1, m') && IsChild(m1, m', p)
    ensures SameUser(m, m') && IsChild(m, m', p)
  {
    SameUserTrans(m, m1, m');
    forall d: nat, t: Index | d < USER_SLOTS
      ensures View(m', |m.procs|, d, t) == View(m, p, d, t) && !Writable(m', |m.procs|, d, t)
    {
      assert SameAt(m, m1, p, d, t);
    }
  }

  /**
   The heap pages fork takes: the process record, the copy of the descriptor table, the directory and the stack. They
   were not in use before, they are four, the second holds what the parent's table held, the third is the child's
   directory, and no page in use has changed.
   */
  ghost predicate ForkPages(m: State, m': State, src: Frame, record: Index, table: Index, dir: Index, stack: Index) {
    && !m.mem[HEAP_TABLE][record].used && !m.mem[HEAP_TABLE][table].used
    && !m.mem[HEAP_TABLE][dir].used && !m.mem[HEAP_TABLE][stack].used
    && m'.mem[HEAP_TABLE][record].used && m'.mem[HEAP_TABLE][table].used
    && m'.mem[HEAP_TABLE][dir].used && m'.mem[HEAP_TABLE][stack].used
    && record != table && record != dir && record != stack && table != dir && table != stack && dir != stack
    && m'.mem[SlotFrame(m', table)] == m.mem[src]
    && |m'.procs| == |m.procs| + 1 && m'.procs[|m.procs|] == Proc(SlotFrame(m', dir), HEAP_SLOT, dir)
    && OtherPagesKept(m, m', None)
  }

  /** The first two of these pages, and the last two. */
  ghost predicate FdsPages(m: State, m': State, src: Frame, record: Index, table: Index) {
    && record != table && !m.mem[HEAP_TABLE][record].used && !m.mem[HEAP_TABLE][table].used
    && m'.mem[HEAP_TABLE][record].used && m'.mem[HEAP_TABLE][table].used
    && m'.procs == m.procs && OtherPagesKept(m, m', None) && m'.mem[SlotFrame(m', table)] == m.mem[src]
  }

  ghost predicate DirectoryPages(m: State, m': State, dir: Index, stack: Index) {
    && dir != stack && !m.mem[HEAP_TABLE][dir].used && !m.mem[HEAP_TABLE][stack].used
    && m'.mem[HEAP_TABLE][dir].used && m'.mem[HEAP_TABLE][stack].used && OtherPagesKept(m, m', None)
    && |m'.procs| == |m.procs| + 1 && m'.procs[|m.procs|] == Proc(SlotFrame(m', dir), HEAP_SLOT, dir)
  }

  lemma FourPages(m: State, m1: State, m': State, src: Frame, record: Index, table: Index, dir: Index, stack: Index)
    requires FdsPages(m, m1, src, record, table) && DirectoryPages(m1, m', dir, stack)
    ensures ForkPages(m, m', src, record, table, dir, stack)
  {
    PagesKeptTrans(m, m1, m', None);
    assert PageKept(m1, m', record) && PageKept(m1, m', table);
    StillUnused(m, m1, dir);
    StillUnused(m, m1, stack);
  }

  lemma CopyFdsFills(m: State, b: Book, p: nat, fds: Option<Index>) returns (record: Index, table: Index)
    requires Consistent(m, b) && p < |m.procs| && FdsOk(m, fds) && CopyFds(m, p, fds).Some?
    ensures FdsPages(m, CopyFds(m, p, fds).value, FdFrame(m, p, fds).value, record, table)
  {
    var src := FdFrame(m, p, fds).value;
    FdsReadable(m, b, p, fds);
    var m1 := Kmalloc(m).value.0;
    record := Kmalloc(m).value.1;
    var b1 := KmallocKeeps(m, b);
    KmallocKeepsPages(m, b);
    ReadableKept(m, b, b1, src);
    CopyToHeapFills(m1, b1, src);
    table := CopyToHeap(m1, src).value.1;
    assert PageKept(m1, CopyFds(m, p, fds).value, record);
    PagesKeptTrans(m, m1, CopyFds(m, p, fds).value, None);
    assert m1.mem[src] == m.mem[src] by { if src in b && b[src].Heap? { assert SlotOk(m, b, b[src].slot); } }
  }

  /** fork from the copy of the directory on. */
  ghost function ForkEnd(m: State, p: nat): Option<State>
    requires p < |m.procs|
  {
    var c := CopyToHeap(m, m.procs[p].dir);
    if c.None? then None else
    var k := Kmalloc(Adopt(c.value.0, c.value.1));
    if k.None? then None else Some(k.value.0)
  }

  lemma ForkInTwo(m: State, p: nat, fds: Option<Index>)
    requires p < |m.procs|
    ensures Fork(m, p, fds) == if CopyFds(m, p, fds).None? then None else ForkEnd(CopyFds(m, p, fds).value, p)
  {
  }

  /** What fork leaves on the heap. */
  lemma ForkFills(m: State, b: Book, p: nat, fds: Option<Index>)
    returns (record: Index, table: Index, dir: Index, stack: Index)
    requires Consistent(m, b) && p < |m.procs| && FdsOk(m, fds) && Fork(m, p, fds).Some?
    ensures FdFrame(m, p, fds).Some?
    ensures ForkPages(m, Fork(m, p, fds).value, FdFrame(m, p, fds).value, record, table, dir, stack)
  {
    ForkInTwo(m, p, fds);
    record, table := CopyFdsFills(m, b, p, fds);
    var b1 := CopyFdsKeeps(m, b, p, fds);
    dir, stack := DirectoryFills(CopyFds(m, p, fds).value, b1, p);
    FourPages(m, CopyFds(m, p, fds).value, Fork(m, p, fds).value, FdFrame(m, p, fds).value, record, table, dir, stack);
  }

  lemma DirectoryFills(m: State, b: Book, p: nat) returns (dir: Index, stack: Index)
    requires Consistent(m, b) && p < |m.procs| && ForkEnd(m, p).Some?
    ensures DirectoryPages(m, ForkEnd(m, p).value, dir, stack)
  {
    DirectoryRole(m, b, p);
    assert ProcOk(m, p);
    CopyToHeapFills(m, b, m.procs[p].dir);
    var b1 := CopyToHeapKeeps(m, b, m.procs[p].dir);
    dir := CopyToHeap(m, m.procs[p].dir).value.1;
    stack := AdoptedFills(m, CopyToHeap(m, m.procs[p].dir).value.0, b1, p, dir);
  }

  /** The copy becomes a process, and the page for its stack is taken. */
  lemma AdoptedFills(m: State, m1: State, b1: Book, p: nat, dir: Index) returns (stack: Index)
    requires Consistent(m1, b1) && p < |m1.procs| && Taken(m1, b1, dir) && Kmalloc(Adopt(m1, dir)).Some?
    requires m1.mem[SlotFrame(m1, dir)] == m1.mem[m1.procs[p].dir]
    requires m1.procs == m.procs && !m.mem[HEAP_TABLE][dir].used && OtherPagesKept(m, m1, None)
    ensures DirectoryPages(m, Kmalloc(Adopt(m1, dir)).value.0, dir, stack)
  {
    AdoptKeepsPages(m1, b1, p, dir);
    AdoptKeeps(m1, b1, p, dir);
    var m2 := Adopt(m1, dir);
    KmallocKeepsPages(m2, b1);
    stack := Kmalloc(m2).value.1;
    var m' := Kmalloc(m2).value.0;
    PagesKeptTrans(m, m1, m2, Some(dir));
    PagesKeptTrans(m, m2, m', None);
    assert PageKept(m2, m', dir);
    StillUnused(m, m2, stack);
  }

  lemma AdoptKeepsPages(m: State, b: Book, p: nat, s: Index)
    requires Consistent(m, b) && p < |m.procs| && Taken(m, b, s)
    ensures OtherPagesKept(m, Adopt(m, s), Some(s)) && Adopt(m, s).mem[HEAP_TABLE] == m.mem[HEAP_TABLE]
  {
    assert SlotOk(m, b, s);
    forall r: Index | m.mem[HEAP_TABLE][r].used && r != s ensures PageKept(m, Adopt(m, s), r) {
      assert SlotOk(m, b, r);
    }
  }

  // ---- mmap ----

  /** Entry (q, c) and entry (p, d) name the same table. */
  ghost predicate Shares(m: State, q: nat, c: nat, p: nat, d: nat)
    requires p < |m.procs| && q < |m.procs| && c < USER_SLOTS && d < USER_SLOTS
  {
    Pde(m, q, c).present && Pde(m, p, d).present && Pde(m, q, c).frame == Pde(m, p, d).frame
  }

  /** The directory entry is absent or writable, so the table mmap stores into is nobody else's to write. */
  ghost predicate Private(m: State, p: nat, d: nat)
    requires p < |m.procs| && d < USER_SLOTS
  {
    Pde(m, p, d).present ==> Pde(m, p, d).write
  }

  lemma MmapTableKeeps(m: State, b: Book, p: nat, d: nat) returns (b': Book)
    requires Consistent(m, b) && p < |m.procs| && d < USER_SLOTS
    requires !Pde(m, p, d).present && MmapTable(m, p, d).Some?
    ensures var m' := MmapTable(m, p, d).value;
            && Consistent(m', b') && SameUser(m, m') && m'.marked >= m.marked
            && Pde(m', p, d).present && Pde(m', p, d).write
            && (forall c: nat :: c < USER_SLOTS && c != d ==> Pde(m', p, c) == Pde(m, p, c))
            && (forall q: nat, c: Index :: q < |m.procs| && (q, c) != (p, d) ==> Pde(m', q, c) == Pde(m, q, c))
            && Pde(m', p, d).frame !in m.marked
            && (forall f :: f in b ==> f in b' && b'[f] == b[f])
  {
    var (m1, f) := Pmalloc(m).value;
    assert MarkOk(m, b, f);
    var m2 := m1.(mem := m1.mem[f := ZeroPage()]);
    TakeFrame(m, b, f, ZeroPage(), Table(None));
    var b2 := b[f := Table(None)];
    LinkTable(m2, b2, p, d, UserEntry(f));
    b' := b2[f := Table(Some((p, d)))];
    var m' := MmapTable(m, p, d).value;
    DirectoryRole(m, b, p);
    AllApart(m, b, p);
    forall q: nat | q < |m.procs| ensures m.procs[q].dir != f { DirectoryRole(m, b, q); }
    forall q: nat, c: nat, u: Index | q < |m.procs| && c < USER_SLOTS ensures SameAt(m, m', q, c, u) {
      PageRoles(m, b, q, c, u);
    }
  }

  lemma MmapEntryKeeps(m: State, b: Book, p: nat, d: nat, t: Index, f: Frame)
    requires Consistent(m, b) && p < |m.procs| && d < USER_SLOTS
    requires Pde(m, p, d).present && f in b && b[f] == Data(None)
    ensures var table := Pde(m, p, d).frame;
            var m' := m.(mem := SetWord(m.mem, table, t, UserEntry(f)));
            && Owned(b, table)
            && Consistent(m', b[f := Data(Some((table, t)))])
            && (forall q: nat, c: Index :: q < |m.procs| ==> Pde(m', q, c) == Pde(m, q, c))
            && (forall q: nat, c: nat, u: Index :: q < |m.procs| && c < USER_SLOTS ==>
                  SameAt(m, m', q, c, u) || (u == t && Shares(m, q, c, p, d)))
            && Pte(m', p, d, t) == UserEntry(f)
            && m'.mem[f] == m.mem[f]
  {
    PageRoles(m, b, p, d, t);
    var table := Pde(m, p, d).frame;
    var m' := m.(mem := SetWord(m.mem, table, t, UserEntry(f)));
    LinkPage(m, b, table, t, UserEntry(f));
    forall q: nat | q < |m.procs| ensures m.procs[q].dir != table { DirectoryRole(m, b, q); }
    forall q: nat, c: nat, u: Index | q < |m.procs| && c < USER_SLOTS
      ensures SameAt(m, m', q, c, u) || (u == t && Shares(m, q, c, p, d))
    {
      PageRoles(m, b, q, c, u);
    }
  }

  /**
   One page of mmap. The page is mapped with the contents of a frame nobody was using; it can be written when
   the directory entry can; and a page of any process changes only if it is this slot of this very table.
   */
  lemma MmapPageKeeps(m: State, b: Book, p: nat, d: nat, t: Index) returns (b': Book)
    requires Consistent(m, b) && p < |m.procs| && d < USER_SLOTS && MmapPage(m, p, d, t).Some?
    ensures var m' := MmapPage(m, p, d, t).value;
            && Consistent(m', b') && m'.procs == m.procs
            && Pde(m', p, d).present && Pte(m', p, d, t).frame !in m.marked
            && View(m', p, d, t) == Some(m.mem[Pte(m', p, d, t).frame])
            && (Private(m, p, d) ==> Writable(m', p, d, t))
            && (forall q: nat, c: Index :: q < |m.procs| && (q, c) != (p, d) ==> Pde(m', q, c) == Pde(m, q, c))
            && (Pde(m, p, d).present ==> Pde(m', p, d) == Pde(m, p, d))
            && (!Pde(m, p, d).present ==> Pde(m', p, d).write && Pde(m', p, d).frame !in m.marked)
            && (forall q: nat, c: nat, u: Index :: q < |m.procs| && c < USER_SLOTS ==>
                  SameAt(m, m', q, c, u) || (u == t && ((q, c) == (p, d) || Shares(m, q, c, p, d))))
  {
    var (m1, f) := Pmalloc(m).value;
    assert MarkOk(m, b, f);
    TakeFrame(m, b, f, m.mem[f], Data(None));
    assert m.mem[f := m.mem[f]] == m.mem;
    var b1 := b[f := Data(None)];
    var m2, b2 := m1, b1;
    if !Pde(m, p, d).present {
      m2 := MmapTable(m1, p, d).value;
      b2 := MmapTableKeeps(m1, b1, p, d);
    }
    MmapEntryKeeps(m2, b2, p, d, t, f);
    b' := b2[f := Data(Some((Pde(m2, p, d).frame, t)))];
    var m' := MmapPage(m, p, d, t).value;
    DirectoryRole(m, b, p);
    PageRoles(m, b, p, d, t);
    forall q: nat, c: nat, u: Index | q < |m.procs| && c < USER_SLOTS
      ensures SameAt(m, m', q, c, u) || (u == t && ((q, c) == (p, d) || Shares(m, q, c, p, d)))
    {
      assert SameAt(m1, m2, q, c, u);
      MmapPageOthers(m, b, m2, m', p, d, t, q, c, u);
    }
  }

  lemma MmapPageOthers(m: State, b: Book, m2: State, m': State, p: nat, d: nat, t: Index, q: nat, c: nat, u: Index)
    requires Consistent(m, b) && p < |m.procs| && d < USER_SLOTS && q < |m.procs| && c < USER_SLOTS
    requires m2.procs == m.procs && m'.procs == m.procs
    requires SameAt(m, m2, q, c, u)
    requires (q, c) != (p, d) ==> Pde(m2, q, c) == Pde(m, q, c)
    requires Pde(m, p, d).present ==> Pde(m2, p, d) == Pde(m, p, d)
    requires !Pde(m, p, d).present ==> Pde(m2, p, d).frame !in m.marked
    requires SameAt(m2, m', q, c, u) || (u == t && Shares(m2, q, c, p, d))
    ensures SameAt(m, m', q, c, u) || (u == t && ((q, c) == (p, d) || Shares(m, q, c, p, d)))
  {
    PageRoles(m, b, q, c, u);
    assert MarkOk(m, b, Pde(m, q, c).frame);
  }

  // ---- Who notices ----

  /** Every page process q can write reads as before and can still be written. */
  ghost predicate Spares(m: State, m': State, q: nat)
    requires q < |m.procs| && q < |m'.procs|
  {
    forall c: nat, u: Index :: c < USER_SLOTS && Writable(m, q, c, u) ==> SameAt(m, m', q, c, u)
  }

  /** Every page of process q, writable or not, is as before. */
  ghost predicate Untouched(m: State, m': State, q: nat)
    requires q < |m.procs| && q < |m'.procs|
  {
    forall c: nat, u: Index :: c < USER_SLOTS ==> SameAt(m, m', q, c, u)
  }

  /**
   An operation of process p is contained: no other process loses or sees changed a page it can write, and no
   process forked earlier than p, p's ancestors among them, sees any page changed.
   */
  ghost predicate Contained(m: State, m': State, p: nat) {
    && |m.procs| <= |m'.procs|
    && (forall q: nat :: q < |m.procs| && q != p ==> Spares(m, m', q))
    && (forall q: nat :: q < |m.procs| && q < p ==> Untouched(m, m', q))
  }

  /** Two entries that both may write a table are one entry, and an earlier process holds no entry to p's own tables. */
  lemma OwnTableIsNotShared(m: State, b: Book, p: nat, d: nat, q: nat, c: nat)
    requires Consistent(m, b) && p < |m.procs| && q < |m.procs| && c < USER_SLOTS && d < USER_SLOTS
    requires Private(m, p, d) && Shares(m, q, c, p, d)
    ensures Pde(m, q, c).write ==> (q, c) == (p, d)
    ensures p <= q
  {
    PageRoles(m, b, p, d, 0);
    PageRoles(m, b, q, c, 0);
  }

  /** The frame of every mapped user page, and of its table, is marked. */
  lemma UserFramesAreMarked(m: State, b: Book, p: nat, d: nat, t: Index)
    requires Consistent(m, b) && p < |m.procs| && d < USER_SLOTS
    ensures Pde(m, p, d).present ==> Pde(m, p, d).frame in m.marked
    ensures Mapped(m, p, d, t) ==> Pte(m, p, d, t).frame in m.marked
  {
    PageRoles(m, b, p, d, t);
    assert MarkOk(m, b, Pde(m, p, d).frame) && MarkOk(m, b, Pte(m, p, d, t).frame);
  }

  /** The same entries name the same tables as before. */
  ghost predicate SameSharing(m: State, m': State)
    requires m'.procs == m.procs
  {
    forall p: nat, d: nat, q: nat, c: nat ::
      p < |m.procs| && q < |m.procs| && d < USER_SLOTS && c < USER_SLOTS && (q, c) != (p, d)
      ==> (Shares(m', q, c, p, d) <==> Shares(m, q, c, p, d))
  }

  lemma MmapPageSharing(m: State, b: Book, p: nat, d: nat, t: Index)
    requires Consistent(m, b) && p < |m.procs| && d < USER_SLOTS && MmapPage(m, p, d, t).Some?
    ensures SameSharing(m, MmapPage(m, p, d, t).value)
  {
    var b' := MmapPageKeeps(m, b, p, d, t);
    var m' := MmapPage(m, p, d, t).value;
    forall r: nat, e: nat, q: nat, c: nat |
      r < |m.procs| && q < |m.procs| && e < USER_SLOTS && c < USER_SLOTS && (q, c) != (r, e)
      ensures Shares(m', q, c, r, e) <==> Shares(m, q, c, r, e)
    {
      UserFramesAreMarked(m, b, q, c, 0);
      UserFramesAreMarked(m, b, r, e, 0);
      if (q, c) != (p, d) { assert Pde(m', q, c) == Pde(m, q, c); }
      if (r, e) != (p, d) { assert Pde(m', r, e) == Pde(m, r, e); }
    }
  }

  /** Page (q, c, u) goes through the very table word that mapping page (d, t) of process p stores to. */
  ghost predicate SameEntry(m: State, p: nat, d: nat, t: Index, q: nat, c: nat, u: Index)
    requires p < |m.procs| && q < |m.procs| && c < USER_SLOTS && d < USER_SLOTS
  {
    u == t && ((q, c) == (p, d) || Shares(m, q, c, p, d))
  }

  /** Page (q, c, u) keeps its frame and its contents, or, if taken, is on a frame that was not marked. */
  ghost predicate Fate(m: State, m': State, taken: bool, q: nat, c: nat, u: Index)
    requires q < |m.procs| && q < |m'.procs| && c < USER_SLOTS
  {
    if taken then Mapped(m', q, c, u) && Pte(m', q, c, u).frame !in m.marked
    else SameAt(m, m', q, c, u) && (Mapped(m, q, c, u) ==> Pte(m', q, c, u).frame == Pte(m, q, c, u).frame)
  }

  lemma FateTrans(m: State, m1: State, m': State, taken: bool, taken': bool, q: nat, c: nat, u: Index)
    requires q < |m.procs| && m1.procs == m.procs && m'.procs == m.procs && c < USER_SLOTS && m1.marked >= m.marked
    requires Fate(m, m1, taken, q, c, u) && Fate(m1, m', taken', q, c, u)
    ensures Fate(m, m', taken || taken', q, c, u)
  {
  }

  /** Whether a mapped page was taken can be told from its frame. */
  lemma FateShows(m: State, b: Book, m': State, taken: bool, q: nat, c: nat, u: Index)
    requires Consistent(m, b) && q < |m.procs| && m'.procs == m.procs && c < USER_SLOTS && Mapped(m, q, c, u)
    requires Fate(m, m', taken, q, c, u)
    ensures Mapped(m', q, c, u) && (Pte(m', q, c, u).frame == Pte(m, q, c, u).frame <==> !taken)
  {
    UserFramesAreMarked(m, b, q, c, u);
  }

  /**
   The exact condition for one page of mmap to leave a page of any process alone, its own ones included: it must
   not be the same slot of the same table. Another process's writable page is safe if p's directory entry is absent
   or writable; through the read-only entry left by fork, mmap stores into the other process's table.
   */
  lemma MmapSparesExactly(m: State, b: Book, p: nat, d: nat, t: Index, q: nat, c: nat, u: Index)
    requires Consistent(m, b) && p < |m.procs| && d < USER_SLOTS && MmapPage(m, p, d, t).Some?
    requires q < |m.procs| && c < USER_SLOTS
    ensures var m' := MmapPage(m, p, d, t).value;
            && Fate(m, m', SameEntry(m, p, d, t, q, c, u), q, c, u)
            && (Mapped(m, q, c, u) ==>
                  (Pte(m', q, c, u).frame == Pte(m, q, c, u).frame <==> !SameEntry(m, p, d, t, q, c, u)))
            && (Private(m, p, d) && Writable(m, q, c, u) && SameEntry(m, p, d, t, q, c, u) ==> (q, c) == (p, d))
  {
    var b' := MmapPageKeeps(m, b, p, d, t);
    var m' := MmapPage(m, p, d, t).value;
    UserFramesAreMarked(m, b, q, c, u);
    if SameEntry(m, p, d, t, q, c, u) {
      if Shares(m, q, c, p, d) && Private(m, p, d) { OwnTableIsNotShared(m, b, p, d, q, c); }
      PageRoles(m', b', q, c, u);
      assert Pte(m', q, c, u) == Pte(m', p, d, t);
    } else {
      if Mapped(m, q, c, u) { MmapOtherEntry(m, b, p, d, t, q, c, u); }
    }
  }

  lemma MmapOtherEntry(m: State, b: Book, p: nat, d: nat, t: Index, q: nat, c: nat, u: Index)
    requires Consistent(m, b) && p < |m.procs| && d < USER_SLOTS && MmapPage(m, p, d, t).Some?
    requires q < |m.procs| && c < USER_SLOTS && Pde(m, q, c).present && !SameEntry(m, p, d, t, q, c, u)
    ensures Pte(MmapPage(m, p, d, t).value, q, c, u) == Pte(m, q, c, u)
  {
    PageRoles(m, b, q, c, u);
    assert MarkOk(m, b, Pde(m, q, c).frame) && MarkOk(m, b, m.procs[p].dir) && MarkOk(m, b, m.procs[q].dir)
        && Apart(m, p, q);
    PageRoles(m, b, p, d, t);
    DirectoryRole(m, b, p);
    DirectoryRole(m, b, q);
  }

  /** Every directory entry that maps part of the n pages from page number v up is absent or writable. */
  ghost predicate PrivateRange(m: State, p: nat, v: nat, n: nat)
    requires p < |m.procs| && v + n <= USER_SLOTS * 1024
  {
    forall c: nat :: c < USER_SLOTS && v < (c + 1) * 1024 && c * 1024 < v + n ==> Private(m, p, c)
  }

  /** Page number of user page (c, u). */
  function PageNumber(c: nat, u: Index): nat { c * 1024 + u }

  lemma PageSlots(k: nat, c: nat, u: Index)
    ensures PageNumber(c, u) == k <==> (c, u) == (k / 1024, k % 1024)
  {
  }

  lemma {:induction false} MmapKeeps(m: State, b: Book, p: nat, v: nat, n: nat) returns (b': Book)
    requires Consistent(m, b) && p < |m.procs| && v + n <= USER_SLOTS * 1024 && Mmap(m, p, v, n).Some?
    ensures Consistent(Mmap(m, p, v, n).value, b')
    decreases n
  {
    if n == 0 {
      b' := b;
    } else {
      var b1 := MmapKeeps(m, b, p, v, n - 1);
      b' := MmapPageKeeps(Mmap(m, p, v, n - 1).value, b1, p, (v + n - 1) / 1024, (v + n - 1) % 1024);
    }
  }

  // ---- Whole ranges ----

  /** One of the n pages from page number v up, mapped by process p, is the same slot of the same table as (q, c, u). */
  ghost predicate Takes(m: State, p: nat, v: nat, n: nat, q: nat, c: nat, u: Index)
    requires p < |m.procs| && q < |m.procs| && c < USER_SLOTS
  {
    exists d: nat :: d < USER_SLOTS && v <= PageNumber(d, u) < v + n && SameEntry(m, p, d, u, q, c, u)
  }

  lemma {:induction false} MmapSharing(m: State, b: Book, p: nat, v: nat, n: nat)
    requires Consistent(m, b) && p < |m.procs| && v + n <= USER_SLOTS * 1024 && Mmap(m, p, v, n).Some?
    ensures SameSharing(m, Mmap(m, p, v, n).value)
    decreases n
  {
    if n > 0 {
      MmapSharing(m, b, p, v, n - 1);
      var b1 := MmapKeeps(m, b, p, v, n - 1);
      MmapPageSharing(Mmap(m, p, v, n - 1).value, b1, p, (v + n - 1) / 1024, (v + n - 1) % 1024);
    }
  }

  /** One page more: its own slot is the only one that can be taken besides those taken before. */
  lemma TakesOneMore(m: State, m1: State, p: nat, v: nat, n: nat, q: nat, c: nat, u: Index)
    requires p < |m.procs| && q < |m.procs| && c < USER_SLOTS && v + n < USER_SLOTS * 1024
    requires m1.procs == m.procs && SameSharing(m, m1)
    ensures Takes(m, p, v, n + 1, q, c, u) <==>
              Takes(m, p, v, n, q, c, u) || SameEntry(m1, p, (v + n) / 1024, (v + n) % 1024, q, c, u)
  {
    var d, t := (v + n) / 1024, (v + n) % 1024;
    PageSlots(v + n, d, t);
    assert SameEntry(m1, p, d, t, q, c, u) <==> SameEntry(m, p, d, t, q, c, u);
    if Takes(m, p, v, n, q, c, u) {
      var e: nat :| e < USER_SLOTS && v <= PageNumber(e, u) < v + n && SameEntry(m, p, e, u, q, c, u);
    }
    if e: nat :| e < USER_SLOTS && v <= PageNumber(e, u) < v + n + 1 && SameEntry(m, p, e, u, q, c, u) {
      PageSlots(v + n, e, u);
    }
  }

  /**
   mmap of a range, under any directory entries, changes a page of any process if and only if the range takes it;
   a page taken reads a frame nobody was using, and every other page is as before.
   */
  lemma MmapTakesExactly(m: State, b: Book, p: nat, v: nat, n: nat, q: nat, c: nat, u: Index)
    requires Consistent(m, b) && p < |m.procs| && v + n <= USER_SLOTS * 1024 && Mmap(m, p, v, n).Some?
    requires q < |m.procs| && c < USER_SLOTS
    ensures var m' := Mmap(m, p, v, n).value;
            && Fate(m, m', Takes(m, p, v, n, q, c, u), q, c, u)
            && (Mapped(m, q, c, u) ==>
                  (Pte(m', q, c, u).frame == Pte(m, q, c, u).frame <==> !Takes(m, p, v, n, q, c, u)))
  {
    MmapFate(m, b, p, v, n, q, c, u);
    if Mapped(m, q, c, u) { FateShows(m, b, Mmap(m, p, v, n).value, Takes(m, p, v, n, q, c, u), q, c, u); }
  }

  lemma {:induction false} MmapFate(m: State, b: Book, p: nat, v: nat, n: nat, q: nat, c: nat, u: Index)
    requires Consistent(m, b) && p < |m.procs| && v + n <= USER_SLOTS * 1024 && Mmap(m, p, v, n).Some?
    requires q < |m.procs| && c < USER_SLOTS
    ensures Fate(m, Mmap(m, p, v, n).value, Takes(m, p, v, n, q, c, u), q, c, u)
    decreases n
  {
    if n > 0 {
      MmapFate(m, b, p, v, n - 1, q, c, u);
      MmapSharing(m, b, p, v, n - 1);
      var b1 := MmapKeeps(m, b, p, v, n - 1);
      FateOneMore(m, Mmap(m, p, v, n - 1).value, b1, p, v, n, q, c, u);
    } else {
      assert !Takes(m, p, v, n, q, c, u);
    }
  }

  lemma FateOneMore(m: State, m1: State, b1: Book, p: nat, v: nat, n: nat, q: nat, c: nat, u: Index)
    requires p < |m.procs| && q < |m.procs| && c < USER_SLOTS && 0 < n && v + n <= USER_SLOTS * 1024
    requires Consistent(m1, b1) && m1.procs == m.procs && m1.marked >= m.marked && SameSharing(m, m1)
    requires Fate(m, m1, Takes(m, p, v, n - 1, q, c, u), q, c, u)
    requires MmapPage(m1, p, (v + n - 1) / 1024, (v + n - 1) % 1024).Some?
    ensures Fate(m, MmapPage(m1, p, (v + n - 1) / 1024, (v + n - 1) % 1024).value, Takes(m, p, v, n, q, c, u), q, c, u)
  {
    var d, t := (v + n - 1) / 1024, (v + n - 1) % 1024;
    TakesOneMore(m, m1, p, v, n - 1, q, c, u);
    MmapSparesExactly(m1, b1, p, d, t, q, c, u);
    FateTrans(m, m1, MmapPage(m1, p, d, t).value,
              Takes(m, p, v, n - 1, q, c, u), SameEntry(m1, p, d, t, q, c, u), q, c, u);
  }

  /** mmap leaves a directory entry absent or writable exactly where it was. */
  lemma PrivateKept(m: State, b: Book, p: nat, d: nat, t: Index, c: nat)
    requires Consistent(m, b) && p < |m.procs| && d < USER_SLOTS && MmapPage(m, p, d, t).Some? && c < USER_SLOTS
    ensures Private(MmapPage(m, p, d, t).value, p, c) <==> Private(m, p, c)
  {
    var b' := MmapPageKeeps(m, b, p, d, t);
    if c != d { assert Pde(MmapPage(m, p, d, t).value, p, c) == Pde(m, p, c); }
  }

  lemma MmapPageGives(m: State, b: Book, p: nat, d: nat, t: Index, c: nat, u: Index)
    requires Consistent(m, b) && p < |m.procs| && d < USER_SLOTS && MmapPage(m, p, d, t).Some? && c < USER_SLOTS
    ensures var m' := MmapPage(m, p, d, t).value;
            && (Private(m, p, c) && ((c, u) == (d, t) || Writable(m, p, c, u)) ==> Writable(m', p, c, u))
            && (!Private(m, p, c) ==> !Writable(m', p, c, u))
  {
    PrivateKept(m, b, p, d, t, c);
    var b' := MmapPageKeeps(m, b, p, d, t);
    if (c, u) != (d, t) && Private(m, p, c) { MmapPageSpares(m, b, p, d, t, c, u); }
  }

  /** A private page is not taken through another directory entry of its own process. */
  lemma MmapPageSpares(m: State, b: Book, p: nat, d: nat, t: Index, c: nat, u: Index)
    requires Consistent(m, b) && p < |m.procs| && d < USER_SLOTS && MmapPage(m, p, d, t).Some? && c < USER_SLOTS
    requires (c, u) != (d, t) && Private(m, p, c)
    ensures SameAt(m, MmapPage(m, p, d, t).value, p, c, u)
  {
    PageRoles(m, b, p, c, u);
    PageRoles(m, b, p, d, t);
    MmapSparesExactly(m, b, p, d, t, p, c, u);
  }

  /** Directory entry c is as private as before, and if page (c, u) is in the range it can be written exactly then. */
  ghost predicate Given(m: State, m': State, p: nat, v: nat, n: nat, c: nat, u: Index)
    requires p < |m.procs| && p < |m'.procs| && c < USER_SLOTS
  {
    && (Private(m', p, c) <==> Private(m, p, c))
    && (v <= PageNumber(c, u) < v + n ==> (Writable(m', p, c, u) <==> Private(m, p, c)))
  }

  lemma GivenOneMore(m: State, m1: State, b1: Book, p: nat, v: nat, n: nat, c: nat, u: Index)
    requires p < |m.procs| && c < USER_SLOTS && 0 < n && v + n <= USER_SLOTS * 1024
    requires Consistent(m1, b1) && m1.procs == m.procs && Given(m, m1, p, v, n - 1, c, u)
    requires MmapPage(m1, p, (v + n - 1) / 1024, (v + n - 1) % 1024).Some?
    ensures Given(m, MmapPage(m1, p, (v + n - 1) / 1024, (v + n - 1) % 1024).value, p, v, n, c, u)
  {
    var d, t := (v + n - 1) / 1024, (v + n - 1) % 1024;
    PrivateKept(m1, b1, p, d, t, c);
    MmapPageGives(m1, b1, p, d, t, c, u);
    PageSlots(v + n - 1, c, u);
  }

  /** Each page of the range can be written afterwards exactly when its directory entry was absent or writable. */
  lemma {:induction false} MmapGivesExactly(m: State, b: Book, p: nat, v: nat, n: nat, c: nat, u: Index)
    requires Consistent(m, b) && p < |m.procs| && v + n <= USER_SLOTS * 1024 && Mmap(m, p, v, n).Some?
    requires c < USER_SLOTS
    ensures Given(m, Mmap(m, p, v, n).value, p, v, n, c, u)
    decreases n
  {
    if n > 0 {
      MmapGivesExactly(m, b, p, v, n - 1, c, u);
      var b1 := MmapKeeps(m, b, p, v, n - 1);
      GivenOneMore(m, Mmap(m, p, v, n - 1).value, b1, p, v, n, c, u);
    }
  }

  /** The n pages from page number v up are writable for p, and p's other private pages are as before. */
  ghost predicate MapsRange(m: State, m': State, p: nat, v: nat, n: nat)
    requires p < |m.procs| && p < |m'.procs|
  {
    && (forall c: nat :: c < USER_SLOTS && Private(m, p, c) ==> Private(m', p, c))
    && (forall c: nat, u: Index :: c < USER_SLOTS && v <= PageNumber(c, u) < v + n ==> Writable(m', p, c, u))
    && (forall c: nat, u: Index :: c < USER_SLOTS && Private(m, p, c) && !(v <= PageNumber(c, u) < v + n) ==>
          SameAt(m, m', p, c, u))
  }

  /**
   Under absent or writable directory entries mmap takes no page another process can write and none of an earlier
   one.
   */
  lemma PrivateRangeTakes(m: State, b: Book, p: nat, v: nat, n: nat, q: nat, c: nat, u: Index)
    requires Consistent(m, b) && p < |m.procs| && v + n <= USER_SLOTS * 1024 && PrivateRange(m, p, v, n)
    requires q < |m.procs| && c < USER_SLOTS && Takes(m, p, v, n, q, c, u)
    ensures p <= q && (q == p || Pde(m, q, c).write ==> v <= PageNumber(c, u) < v + n && q == p)
  {
    var d: nat :| d < USER_SLOTS && v <= PageNumber(d, u) < v + n && SameEntry(m, p, d, u, q, c, u);
    assert Private(m, p, d);
    if (q, c) != (p, d) {
      OwnTableIsNotShared(m, b, p, d, q, c);
      PageRoles(m, b, p, d, 0);
      PageRoles(m, b, q, c, 0);
    }
  }

  lemma MmapIsContained(m: State, b: Book, p: nat, v: nat, n: nat)
    requires Consistent(m, b) && p < |m.procs| && v + n <= USER_SLOTS * 1024 && Mmap(m, p, v, n).Some?
    requires PrivateRange(m, p, v, n)
    ensures var m' := Mmap(m, p, v, n).value; Contained(m, m', p) && MapsRange(m, m', p, v, n)
  {
    var m' := Mmap(m, p, v, n).value;
    forall q: nat, c: nat, u: Index | q < |m.procs| && c < USER_SLOTS && !SameAt(m, m', q, c, u)
      ensures p <= q && (q == p || Pde(m, q, c).write ==> v <= PageNumber(c, u) < v + n && q == p)
    {
      MmapTakesExactly(m, b, p, v, n, q, c, u);
      PrivateRangeTakes(m, b, p, v, n, q, c, u);
    }
    MmapMapsRange(m, b, p, v, n);
  }

  lemma MmapMapsRange(m: State, b: Book, p: nat, v: nat, n: nat)
    requires Consistent(m, b) && p < |m.procs| && v + n <= USER_SLOTS * 1024 && Mmap(m, p, v, n).Some?
    requires PrivateRange(m, p, v, n)
    ensures MapsRange(m, Mmap(m, p, v, n).value, p, v, n)
  {
    var m' := Mmap(m, p, v, n).value;
    forall c: nat, u: Index | c < USER_SLOTS
      ensures Private(m, p, c) ==> Private(m', p, c)
      ensures v <= PageNumber(c, u) < v + n ==> Writable(m', p, c, u)
      ensures !(v <= PageNumber(c, u) < v + n) ==> SameAt(m, m', p, c, u)
    {
      MmapGivesExactly(m, b, p, v, n, c, u);
      MmapTakesExactly(m, b, p, v, n, p, c, u);
      if Takes(m, p, v, n, p, c, u) { PrivateRangeTakes(m, b, p, v, n, p, c, u); }
    }
  }

  /** mmap and exec leave the kernel's half of every directory as it is. */
  lemma {:induction false} MmapKeepsKernel(m: State, b: Book, p: nat, v: nat, n: nat, q: nat, d: Index)
    requires Consistent(m, b) && p < |m.procs| && v + n <= USER_SLOTS * 1024 && Mmap(m, p, v, n).Some?
    requires q < |m.procs| && d >= USER_SLOTS
    ensures Pde(Mmap(m, p, v, n).value, q, d) == Pde(m, q, d)
    decreases n
  {
    if n > 0 {
      MmapKeepsKernel(m, b, p, v, n - 1, q, d);
      var b1 := MmapKeeps(m, b, p, v, n - 1);
      MmapPageKeepsKernel(Mmap(m, p, v, n - 1).value, b1, p, (v + n - 1) / 1024, (v + n - 1) % 1024, q, d);
    }
  }

  lemma MmapPageKeepsKernel(m: State, b: Book, p: nat, c: nat, t: Index, q: nat, d: Index)
    requires Consistent(m, b) && p < |m.procs| && c < USER_SLOTS && MmapPage(m, p, c, t).Some?
    requires q < |m.procs| && d >= USER_SLOTS
    ensures Pde(MmapPage(m, p, c, t).value, q, d) == Pde(m, q, d)
  {
    var b' := MmapPageKeeps(m, b, p, c, t);
  }

  // ---- exec ----

  /** No process but p notices anything. */
  ghost predicate OthersUntouched(m: State, m': State, p: nat) {
    |m.procs| <= |m'.procs| && forall q: nat :: q < |m.procs| && q != p ==> Untouched(m, m', q)
  }

  lemma OthersUntouchedTrans(m: State, m1: State, m2: State, p: nat)
    requires OthersUntouched(m, m1, p) && OthersUntouched(m1, m2, p)
    ensures OthersUntouched(m, m2, p)
  {
    forall q: nat | q < |m.procs| && q != p ensures Untouched(m, m2, q) {
      assert Untouched(m, m1, q) && Untouched(m1, m2, q);
      forall c: nat, u: Index | c < USER_SLOTS ensures SameAt(m, m2, q, c, u) {
        assert SameAt(m, m1, q, c, u) && SameAt(m1, m2, q, c, u);
      }
    }
  }

  /** No other process names a table that p names. */
  ghost predicate Unshared(m: State, p: nat)
    requires p < |m.procs|
  {
    forall d: nat, q: nat, c: nat :: d < USER_SLOTS && q < |m.procs| && q != p && c < USER_SLOTS ==>
        !Shares(m, q, c, p, d)
  }

  /** mmap by a process that shares no table is noticed by nobody else. */
  lemma UnsharedMmap(m: State, b: Book, p: nat, v: nat, n: nat)
    requires Consistent(m, b) && p < |m.procs| && v + n <= USER_SLOTS * 1024 && Mmap(m, p, v, n).Some?
    requires Unshared(m, p)
    ensures var m' := Mmap(m, p, v, n).value; OthersUntouched(m, m', p) && Unshared(m', p)
  {
    var m' := Mmap(m, p, v, n).value;
    MmapSharing(m, b, p, v, n);
    forall q: nat | q < |m.procs| && q != p ensures Untouched(m, m', q) {
      forall c: nat, u: Index | c < USER_SLOTS ensures SameAt(m, m', q, c, u) {
        MmapTakesExactly(m, b, p, v, n, q, c, u);
      }
    }
  }

  /** exec's first step takes p's pages from p, and leaves p no table to share. */
  lemma ClearUserKeeps(m: State, b: Book, p: nat)
    requires Consistent(m, b) && p < |m.procs|
    ensures var m' := m.(mem := m.mem[m.procs[p].dir := ClearUser(m.mem[m.procs[p].dir])]);
            && Consistent(m', b) && OthersUntouched(m, m', p) && Unshared(m', p)
            && (forall c: nat :: c < USER_SLOTS ==> Private(m', p, c))
            && (forall c: nat, u: Index :: c < USER_SLOTS ==> !Mapped(m', p, c, u))
  {
    ClearDirectory(m, b, p);
    var m' := m.(mem := m.mem[m.procs[p].dir := ClearUser(m.mem[m.procs[p].dir])]);
    DirectoryRole(m, b, p);
    AllApart(m, b, p);
    forall q: nat, c: nat, u: Index | q < |m.procs| && q != p && c < USER_SLOTS ensures SameAt(m, m', q, c, u) {
      PageRoles(m, b, q, c, u);
    }
  }

  /** The stack page as a range of one page. */
  lemma OnePage(m: State, p: nat, d: nat, t: Index)
    requires p < |m.procs| && d < USER_SLOTS
    ensures Mmap(m, p, PageNumber(d, t), 1) == MmapPage(m, p, d, t)
  {
    assert Mmap(m, p, PageNumber(d, t), 0) == Some(m);
  }

  /** Nobody else notices exec, not even a process that shares the pages given up. */
  lemma ExecIsUnnoticed(m: State, b: Book, p: nat, n: nat)
    requires Consistent(m, b) && p < |m.procs| && n <= USER_SLOTS * 1024 && Exec(m, p, n).Some?
    ensures OthersUntouched(m, Exec(m, p, n).value, p)
  {
    var m1 := m.(mem := m.mem[m.procs[p].dir := ClearUser(m.mem[m.procs[p].dir])]);
    var m2, m' := Mmap(m1, p, 0, n).value, Exec(m, p, n).value;
    ClearUserKeeps(m, b, p);
    UnsharedMmap(m1, b, p, 0, n);
    var b2 := MmapKeeps(m1, b, p, 0, n);
    OnePage(m2, p, USER_SLOTS - 1, 1023);
    UnsharedMmap(m2, b2, p, PageNumber(USER_SLOTS - 1, 1023), 1);
    OthersUntouchedTrans(m, m1, m2, p);
    OthersUntouchedTrans(m, m2, m', p);
  }

  /**
   After exec the process has its program pages and its stack page, all writable, and nothing else, and no page of
   any other process has changed.
   */
  lemma ExecKeeps(m: State, b: Book, p: nat, n: nat) returns (b': Book)
    requires Consistent(m, b) && p < |m.procs| && n <= USER_SLOTS * 1024 && Exec(m, p, n).Some?
    ensures var m' := Exec(m, p, n).value;
            && Consistent(m', b') && OthersUntouched(m, m', p)
            && (forall c: nat, u: Index :: c < USER_SLOTS ==>
                  && (Mapped(m', p, c, u) <==> Writable(m', p, c, u))
                  && (Writable(m', p, c, u) <==> PageNumber(c, u) < n || PageNumber(c, u) == 0xbffff))
  {
    var m1 := m.(mem := m.mem[m.procs[p].dir := ClearUser(m.mem[m.procs[p].dir])]);
    ClearUserKeeps(m, b, p);
    var m2 := Mmap(m1, p, 0, n).value;
    var b2 := MmapKeeps(m1, b, p, 0, n);
    b' := MmapPageKeeps(m2, b2, p, USER_SLOTS - 1, 1023);
    ExecIsUnnoticed(m, b, p, n);
    ExecMaps(m1, b, p, n);
  }

  lemma ExecKeepsKernel(m: State, b: Book, p: nat, n: nat, q: nat, d: Index)
    requires Consistent(m, b) && p < |m.procs| && n <= USER_SLOTS * 1024 && Exec(m, p, n).Some?
    requires q < |m.procs| && d >= USER_SLOTS
    ensures Pde(Exec(m, p, n).value, q, d) == Pde(m, q, d)
  {
    var m1 := m.(mem := m.mem[m.procs[p].dir := ClearUser(m.mem[m.procs[p].dir])]);
    ClearUserKeeps(m, b, p);
    AllApart(m, b, p);
    MmapKeepsKernel(m1, b, p, 0, n, q, d);
    var b2 := MmapKeeps(m1, b, p, 0, n);
    var b' := MmapPageKeeps(Mmap(m1, p, 0, n).value, b2, p, USER_SLOTS - 1, 1023);
  }

  /** The two mmaps of exec, from an empty user half. */
  lemma ExecMaps(m: State, b: Book, p: nat, n: nat)
    requires Consistent(m, b) && p < |m.procs| && n <= USER_SLOTS * 1024 && Mmap(m, p, 0, n).Some?
    requires MmapPage(Mmap(m, p, 0, n).value, p, USER_SLOTS - 1, 1023).Some?
    requires forall c: nat :: c < USER_SLOTS ==> Private(m, p, c)
    requires forall c: nat, u: Index :: c < USER_SLOTS ==> !Mapped(m, p, c, u)
    ensures var m' := MmapPage(Mmap(m, p, 0, n).value, p, USER_SLOTS - 1, 1023).value;
            forall c: nat, u: Index :: c < USER_SLOTS ==>
              && (Mapped(m', p, c, u) <==> Writable(m', p, c, u))
              && (Writable(m', p, c, u) <==> PageNumber(c, u) < n || PageNumber(c, u) == 0xbffff)
  {
    var m2 := Mmap(m, p, 0, n).value;
    var b2 := MmapKeeps(m, b, p, 0, n);
    MmapIsContained(m, b, p, 0, n);
    var m' := MmapPage(m2, p, USER_SLOTS - 1, 1023).value;
    forall c: nat, u: Index | c < USER_SLOTS
      ensures Mapped(m', p, c, u) <==> Writable(m', p, c, u)
      ensures Writable(m', p, c, u) <==> PageNumber(c, u) < n || PageNumber(c, u) == 0xbffff
    {
      assert Private(m, p, c) && Private(m2, p, c);
      if (c, u) != (USER_SLOTS - 1, 1023) {
        MmapPageSpares(m2, b2, p, USER_SLOTS - 1, 1023, c, u);
        if PageNumber(c, u) >= n { assert SameAt(m, m2, p, c, u); }
      } else {
        MmapPageGives(m2, b2, p, USER_SLOTS - 1, 1023, c, u);
      }
    }
  }

  // ---- User stores ----

  /** A store reaches exactly the pages that read its frame, and changes one word of them. */
  lemma StoreKeeps(m: State, b: Book, p: nat, a: Linear, w: Word)
    requires Consistent(m, b) && p < |m.procs| && a.d < USER_SLOTS && Writable(m, p, a.d, a.t)
    ensures var m' := Store(m, p, a, w);
            && Consistent(m', b) && Contained(m, m', p)
            && (forall q: nat, c: nat, u: Index :: q < |m.procs| && c < USER_SLOTS ==>
                  && Writable(m', q, c, u) == Writable(m, q, c, u)
                  && (View(m', q, c, u) ==
                        if Mapped(m, q, c, u) && Pte(m, q, c, u).frame == Pte(m, p, a.d, a.t).frame
                        then Some(View(m, q, c, u).value[a.o := w]) else View(m, q, c, u)))
  {
    var m', f := Store(m, p, a, w), Pte(m, p, a.d, a.t).frame;
    PageRoles(m, b, p, a.d, a.t);
    forall q: nat | q < |m.procs| ensures m.procs[q].dir != f { DirectoryRole(m, b, q); }
    WritePage(m, b, f, m.mem[f][a.o := w]);
    forall q: nat, c: nat, u: Index | q < |m.procs| && c < USER_SLOTS
      ensures Writable(m', q, c, u) == Writable(m, q, c, u)
      ensures View(m', q, c, u) ==
                if Mapped(m, q, c, u) && Pte(m, q, c, u).frame == f
                then Some(View(m, q, c, u).value[a.o := w]) else View(m, q, c, u)
      ensures q != p && (Writable(m, q, c, u) || q < p) ==> SameAt(m, m', q, c, u)
    {
      PageRoles(m, b, q, c, u);
    }
  }
}
