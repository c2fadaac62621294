/** What the kernel's memory operations keep, and what user mode can see of them. */
module CopyOnWrite {
  import opened Least
  import opened Words
  import opened Paging
  import opened Machine
  import opened Ledger

  // ---- Operations inside the kernel heap ----

  /** Going from m to m', nothing that user mode can reach changes, in contents or in role. */
  ghost predicate Quiet(m: State, b: Book, m': State, b': Book) {
    && Consistent(m', b')
    && m'.procs == m.procs
    && (forall p: nat :: p < |m.procs| ==> m'.mem[m.procs[p].dir] == m.mem[m.procs[p].dir])
    && (forall f: Frame :: f in b && !b[f].Heap? ==> f in b' && b'[f] == b[f] && m'.mem[f] == m.mem[f])
    && (forall f :: f in b ==> f in b' && (b[f].Heap? ==> b'[f].Heap?))
  }

  /** A slot the kernel has just taken: in use, and not holding anybody's directory. */
  ghost predicate Taken(m: State, b: Book, s: Index) {
    && m.mem[HEAP_TABLE][s].used && m.mem[HEAP_TABLE][s].present
    && SlotFrame(m, s) in b && b[SlotFrame(m, s)] == Heap(s)
    && !IsDirectory(m, SlotFrame(m, s))
  }

  lemma UnusedIsNoDirectory(m: State, b: Book, s: Index)
    requires Consistent(m, b) && m.mem[HEAP_TABLE][s].present && !m.mem[HEAP_TABLE][s].used
    ensures !IsDirectory(m, SlotFrame(m, s))
  {
    assert SlotOk(m, b, s);
    forall p: nat | p < |m.procs| ensures m.procs[p].dir != SlotFrame(m, s) {
      DirectoryRole(m, b, p);
      assert ProcOk(m, p);
    }
  }

  lemma KmallocKeeps(m: State, b: Book) returns (b': Book)
    requires Consistent(m, b) && Kmalloc(m).Some?
    ensures var (m', s) := Kmalloc(m).value;
            && Quiet(m, b, m', b') && Taken(m', b', s)
            && m'.marked >= m.marked
            && !m.mem[HEAP_TABLE][s].used
            && (forall r: Index :: r != s ==> m'.mem[HEAP_TABLE][r] == m.mem[HEAP_TABLE][r])
            && (forall f: Frame :: f != HEAP_TABLE ==> m'.mem[f] == m.mem[f])
  {
    var (m', s) := Kmalloc(m).value;
    assert SlotOk(m, b, s);
    forall p: nat | p < |m.procs| ensures m.procs[p].dir != HEAP_TABLE { DirectoryRole(m, b, p); }
    if m.mem[HEAP_TABLE][s].present {
      b' := b;
      UnusedIsNoDirectory(m, b, s);
      SetUsed(m, b, s, true);
    } else {
      var f := Pmalloc(m).value.1;
      assert MarkOk(m, b, f);
      b' := b[f := Heap(s)];
      Attach(m, b, s, f);
      forall p: nat | p < |m.procs| ensures m.procs[p].dir != f { DirectoryRole(m, b, p); }
    }
  }

  /** Frames a copy may be read from without meeting the copy's own buffer. */
  ghost predicate Readable(m: State, b: Book, f: Frame) {
    f == BOOT_DIR || (f in b && (b[f].Heap? ==> m.mem[HEAP_TABLE][b[f].slot].used))
  }

  lemma MemCopyKeeps(m: State, b: Book, src: Frame, s: Index) returns (b': Book)
    requires Consistent(m, b) && Taken(m, b, s) && Readable(m, b, src)
    requires MemCopy(m, src, SlotFrame(m, s)).Some?
    ensures var m' := MemCopy(m, src, SlotFrame(m, s)).value;
            && Quiet(m, b, m', b') && Taken(m', b', s) && m'.marked >= m.marked
            && SlotFrame(m', s) == SlotFrame(m, s)
            && m'.mem[SlotFrame(m, s)] == m.mem[src]
  {
    var n := SlotFrame(m, s);
    var (m1, k) := Kmalloc(m).value;
    var b1 := KmallocKeeps(m, b);
    var buffer := SlotFrame(m1, k);
    assert k != s;
    assert SlotOk(m1, b1, s) && SlotOk(m1, b1, k);
    assert buffer != src by {
      if src in b && b[src].Heap? { assert AttachedOk(m, b, src); assert SlotOk(m1, b1, b[src].slot); }
    }
    var m2 := m1.(mem := m1.mem[buffer := m1.mem[src]]);
    WritePage(m1, b1, buffer, m1.mem[src]);
    var m3 := m2.(mem := m2.mem[n := m2.mem[buffer]]);
    WritePage(m2, b1, n, m2.mem[buffer]);
    SetUsed(m3, b1, k, false);
    b' := b1;
    var m' := MemCopy(m, src, n).value;
    assert m' == Kfree(m3, k);
    forall p: nat | p < |m.procs| ensures m'.mem[m.procs[p].dir] == m.mem[m.procs[p].dir] {
      DirectoryRole(m, b, p);
    }
  }

  lemma QuietTrans(m: State, b: Book, m1: State, b1: Book, m2: State, b2: Book)
    requires Quiet(m, b, m1, b1) && Quiet(m1, b1, m2, b2)
    ensures Quiet(m, b, m2, b2)
  {
  }

  /** What can be read before kmalloc can be read after it. */
  lemma ReadableKept(m: State, b: Book, b1: Book, f: Frame)
    requires Consistent(m, b) && Readable(m, b, f) && Kmalloc(m).Some?
    requires var (m1, s) := Kmalloc(m).value;
             Quiet(m, b, m1, b1) && forall r: Index :: r != s ==> m1.mem[HEAP_TABLE][r] == m.mem[HEAP_TABLE][r]
    ensures Readable(Kmalloc(m).value.0, b1, f)
  {
    var m1 := Kmalloc(m).value.0;
    if f in b && b[f].Heap? { assert AttachedOk(m, b, f); assert SlotOk(m1, b1, b[f].slot); }
  }

  lemma CopyToHeapKeeps(m: State, b: Book, src: Frame) returns (b': Book)
    requires Consistent(m, b) && Readable(m, b, src) && CopyToHeap(m, src).Some?
    ensures var (m', s) := CopyToHeap(m, src).value;
            && Quiet(m, b, m', b') && Taken(m', b', s) && m'.marked >= m.marked
            && m'.mem[SlotFrame(m', s)] == m.mem[src]
            && (SlotFrame(m', s) in b ==> b[SlotFrame(m', s)].Heap?)
  {
    var (m1, s) := Kmalloc(m).value;
    var b1 := KmallocKeeps(m, b);
    ReadableKept(m, b, b1, src);
    assert src != HEAP_TABLE;
    b' := MemCopyKeeps(m1, b1, src, s);
    QuietTrans(m, b, m1, b1, CopyToHeap(m, src).value.0, b');
  }

  // ---- What stays on the heap ----

  /** Heap page s of m is in use in m' too, on the same frame with the same contents. */
  ghost predicate PageKept(m: State, m': State, s: Index) {
    m'.mem[HEAP_TABLE][s] == m.mem[HEAP_TABLE][s] && m'.mem[SlotFrame(m, s)] == m.mem[SlotFrame(m, s)]
  }

  /** Every heap page in use stays as it is, except for page x. */
  ghost predicate OtherPagesKept(m: State, m': State, x: Option<Index>) {
    forall s: Index :: m.mem[HEAP_TABLE][s].used && Some(s) != x ==> PageKept(m, m', s)
  }

  lemma KmallocKeepsPages(m: State, b: Book)
    requires Consistent(m, b) && Kmalloc(m).Some?
    ensures var (m', s) := Kmalloc(m).value;
            !m.mem[HEAP_TABLE][s].used && m'.mem[HEAP_TABLE][s].used && OtherPagesKept(m, m', None)
  {
    var b' := KmallocKeeps(m, b);
    forall s: Index | m.mem[HEAP_TABLE][s].used ensures PageKept(m, Kmalloc(m).value.0, s) { assert SlotOk(m, b, s); }
  }

  /** mem_copy into heap page s writes that page and none other in use. */
  lemma MemCopyKeepsPages(m: State, b: Book, src: Frame, s: Index)
    requires Consistent(m, b) && Taken(m, b, s) && Readable(m, b, src) && MemCopy(m, src, SlotFrame(m, s)).Some?
    ensures var m' := MemCopy(m, src, SlotFrame(m, s)).value;
            OtherPagesKept(m, m', Some(s)) && m'.mem[HEAP_TABLE][s] == m.mem[HEAP_TABLE][s]
  {
    var (m1, k) := Kmalloc(m).value;
    var b1 := KmallocKeeps(m, b);
    assert SlotOk(m1, b1, k) && SlotOk(m1, b1, s);
    forall r: Index | m.mem[HEAP_TABLE][r].used && r != s
      ensures PageKept(m, MemCopy(m, src, SlotFrame(m, s)).value, r)
    {
      assert SlotOk(m, b, r) && SlotOk(m1, b1, r);
    }
  }

  /** kmalloc and mem_copy fill one page that was not in use, and leave those in use alone. */
  lemma CopyToHeapFills(m: State, b: Book, src: Frame)
    requires Consistent(m, b) && Readable(m, b, src) && CopyToHeap(m, src).Some?
    ensures var (m', s) := CopyToHeap(m, src).value;
            && !m.mem[HEAP_TABLE][s].used && m'.mem[HEAP_TABLE][s].used && OtherPagesKept(m, m', None)
            && m'.mem[SlotFrame(m', s)] == m.mem[src]
  {
    var (m1, s) := Kmalloc(m).value;
    var b1 := KmallocKeeps(m, b);
    KmallocKeepsPages(m, b);
    ReadableKept(m, b, b1, src);
    MemCopyKeepsPages(m1, b1, src, s);
    var b' := CopyToHeapKeeps(m, b, src);
    PagesKeptTrans(m, m1, CopyToHeap(m, src).value.0, Some(s));
  }

  /** A page not in use after pages in use were kept was not in use before. */
  lemma StillUnused(m: State, m1: State, s: Index)
    requires OtherPagesKept(m, m1, None) && !m1.mem[HEAP_TABLE][s].used
    ensures !m.mem[HEAP_TABLE][s].used
  {
    assert m.mem[HEAP_TABLE][s].used ==> PageKept(m, m1, s);
  }

  /** Pages in use before stay through both steps; x may be written in the second if it was not in use before. */
  lemma PagesKeptTrans(m: State, m1: State, m2: State, x: Option<Index>)
    requires OtherPagesKept(m, m1, None) && OtherPagesKept(m1, m2, x)
    requires x.Some? ==> !m.mem[HEAP_TABLE][x.value].used
    ensures OtherPagesKept(m, m2, None)
  {
    forall s: Index | m.mem[HEAP_TABLE][s].used ensures PageKept(m, m2, s) {
      assert PageKept(m, m1, s) && PageKept(m1, m2, s);
    }
  }

  // ---- What user mode sees ----

  /** Process p reads page (d, t) as before and may write it as before. */
  ghost predicate SameAt(m: State, m': State, p: nat, d: nat, t: Index)
    requires p < |m.procs| && p < |m'.procs| && d < USER_SLOTS
  {
    View(m', p, d, t) == View(m, p, d, t) && Writable(m', p, d, t) == Writable(m, p, d, t)
  }

  ghost predicate SameUser(m: State, m': State) {
    && |m.procs| <= |m'.procs|
    && (forall p: nat, d: nat, t: Index :: p < |m.procs| && d < USER_SLOTS ==> SameAt(m, m', p, d, t))
  }

  /** The frames a user page goes through have the roles the ledger says. */
  lemma PageRoles(m: State, b: Book, p: nat, d: nat, t: Index)
    requires Consistent(m, b) && p < |m.procs| && d < USER_SLOTS
    ensures Pde(m, p, d).present ==>
              && Pde(m, p, d).user && Owned(b, Pde(m, p, d).frame) && Owner(b, Pde(m, p, d).frame) <= p
              && (if Pde(m, p, d).write then b[Pde(m, p, d).frame].dirEntry == Some((p, d))
                  else Owner(b, Pde(m, p, d).frame) < p)
    ensures Pde(m, p, d).present && Pte(m, p, d, t).present ==>
              && Pte(m, p, d, t).user && OwnedData(b, Pte(m, p, d, t).frame)
              && DataOwner(b, Pte(m, p, d, t).frame) <= Owner(b, Pde(m, p, d).frame)
              && (if Pte(m, p, d, t).write then b[Pte(m, p, d, t).frame].tableEntry == Some((Pde(m, p, d).frame, t))
                  else DataOwner(b, Pte(m, p, d, t).frame) < Owner(b, Pde(m, p, d).frame))
  {
    assert PdeOk(m, b, p, d);
    if Pde(m, p, d).present { assert PteOk(m, b, Pde(m, p, d).frame, t); }
  }

  lemma QuietIsInvisible(m: State, b: Book, m': State, b': Book)
    requires Consistent(m, b) && Quiet(m, b, m', b')
    ensures SameUser(m, m')
  {
    forall p: nat, d: nat, t: Index | p < |m.procs| && d < USER_SLOTS ensures SameAt(m, m', p, d, t) {
      PageRoles(m, b, p, d, t);
    }
  }

  lemma SameUserTrans(m: State, m1: State, m2: State)
    requires SameUser(m, m1) && SameUser(m1, m2)
    ensures SameUser(m, m2)
  {
    forall p: nat, d: nat, t: Index | p < |m.procs| && d < USER_SLOTS ensures SameAt(m, m2, p, d, t) {
      assert SameAt(m, m1, p, d, t) && SameAt(m1, m2, p, d, t);
    }
  }

  // ---- The copy-on-write fault ----

  /** Nobody's page or table: unmarked, or a page of the kernel heap. */
  ghost predicate NewFrame(b: Book, f: Frame) { f in b ==> b[f].Heap? }

  /** Frames never leave the ledger, and only the given ones leave the heap. */
  ghost predicate HeapKept(b: Book, b': Book, moved: set<nat>) {
    && (forall f: Frame :: f in b ==> f in b' && (b[f].Heap? ==> b'[f].Heap? || f in moved))
    && (forall f: Frame :: f in b && !b[f].Heap? ==> f in b' && b'[f] == b[f])
  }

  lemma HeapKeptTrans(b: Book, b1: Book, b2: Book, f: nat, g: Frame)
    requires HeapKept(b, b1, {f}) && HeapKept(b1, b2, {g}) && NewFrame(b1, g)
    ensures HeapKept(b, b2, {g} + {f}) && NewFrame(b, g)
  {
  }

  /** User-visible effect of redirecting a read-only directory entry to a copy of its table with no write bits. */
  lemma SwapTable(m: State, b: Book, m': State, p: nat, d: nat, n: Frame)
    requires Consistent(m, b) && p < |m.procs| && d < USER_SLOTS && m'.procs == m.procs
    requires Pde(m, p, d).present && !Pde(m, p, d).write
    requires m'.mem[m.procs[p].dir] == m.mem[m.procs[p].dir][d := Pde(m, p, d).(frame := n, write := true)]
    requires forall q: nat :: q < |m.procs| && q != p ==> m'.mem[m.procs[q].dir] == m.mem[m.procs[q].dir]
    requires forall f: Frame :: f in b && !b[f].Heap? ==> m'.mem[f] == m.mem[f]
    requires m'.mem[n] == ClearWrites(m.mem[Pde(m, p, d).frame])
    ensures SameUser(m, m')
  {
    forall q: nat, c: nat, u: Index | q < |m.procs| && c < USER_SLOTS ensures SameAt(m, m', q, c, u) {
      PageRoles(m, b, q, c, u);
    }
  }

  /** The table half in the ledger: the copied frame leaves the heap and becomes entry (p, d)'s own table. */
  lemma AdoptTable(m: State, b: Book, s: Index, p: nat, d: nat, e: Word)
    requires Consistent(m, b) && Taken(m, b, s) && p < |m.procs| && d < USER_SLOTS && e.user && e.write
    requires var table := ClearWrites(m.mem[SlotFrame(m, s)]); TableReady(b, table) && AllEarlier(b, table, p)
    requires e.frame == SlotFrame(m, s)
    ensures var m2 := m.(mem := m.mem[e.frame := ClearWrites(m.mem[e.frame])]);
            var m3 := Detach(m2, s);
            Consistent(m3.(mem := SetWord(m3.mem, m.procs[p].dir, d, e)), b[e.frame := Table(Some((p, d)))])
  {
    var n := SlotFrame(m, s);
    var m2 := m.(mem := m.mem[n := ClearWrites(m.mem[n])]);
    WritePage(m, b, n, ClearWrites(m.mem[n]));
    DetachFrame(m2, b, s, Table(None));
    var b3 := b[n := Table(None)];
    LinkTable(Detach(m2, s), b3, p, d, e);
    assert b3[n := Table(Some((p, d)))] == b[n := Table(Some((p, d)))];
  }

  lemma CowTableKeeps(m: State, b: Book, p: nat, d: nat) returns (b': Book)
    requires Consistent(m, b) && p < |m.procs| && d < USER_SLOTS
    requires Pde(m, p, d).present && !Pde(m, p, d).write && CowTable(m, p, d).Some?
    ensures var m' := CowTable(m, p, d).value;
            && Consistent(m', b') && m'.procs == m.procs && SameUser(m, m')
            && Pde(m', p, d).present && Pde(m', p, d).write
            && NewFrame(b, Pde(m', p, d).frame) && HeapKept(b, b', {Pde(m', p, d).frame})
  {
    var e := Pde(m, p, d);
    PageRoles(m, b, p, d, 0);
    var (m1, s) := CopyToHeap(m, e.frame).value;
    var b1 := CopyToHeapKeeps(m, b, e.frame);
    var n := SlotFrame(m1, s);
    CopiedTableReady(m, b, p, d, b1, ClearWrites(m1.mem[n]));
    b' := b1[n := Table(Some((p, d)))];
    AdoptTable(m1, b1, s, p, d, e.(frame := n, write := true));
    CowTableEffect(m, b, p, d, b1);
  }

  lemma CowTableEffect(m: State, b: Book, p: nat, d: nat, b1: Book)
    requires Consistent(m, b) && p < |m.procs| && d < USER_SLOTS
    requires Pde(m, p, d).present && !Pde(m, p, d).write && CowTable(m, p, d).Some?
    requires var (m1, s) := CopyToHeap(m, Pde(m, p, d).frame).value;
             && Quiet(m, b, m1, b1) && Taken(m1, b1, s)
             && m1.mem[SlotFrame(m1, s)] == m.mem[Pde(m, p, d).frame]
    ensures SameUser(m, CowTable(m, p, d).value)
    ensures Pde(CowTable(m, p, d).value, p, d) == Pde(m, p, d).(
              frame := var (m1, s) := CopyToHeap(m, Pde(m, p, d).frame).value; SlotFrame(m1, s), write := true)
  {
    var (m1, s) := CopyToHeap(m, Pde(m, p, d).frame).value;
    var n := SlotFrame(m1, s);
    forall q: nat | q < |m.procs| ensures m.procs[q].dir != n && m.procs[q].dir != HEAP_TABLE {
      DirectoryRole(m1, b1, q);
    }
    assert n in b1 && n != HEAP_TABLE;
    AllApart(m, b, p);
    forall f: Frame | f in b && !b[f].Heap? ensures f != m.procs[p].dir && f != n && f != HEAP_TABLE {
      DirectoryRole(m, b, p);
    }
    SwapTable(m, b, CowTable(m, p, d).value, p, d, n);
  }

  ghost predicate ProcsDiffer(m: State, p: nat)
    requires p < |m.procs|
  {
    forall q: nat :: q < |m.procs| && q != p ==> m.procs[q].dir != m.procs[p].dir
  }

  lemma AllApart(m: State, b: Book, p: nat)
    requires Consistent(m, b) && p < |m.procs|
    ensures ProcsDiffer(m, p)
  {
    forall q: nat | q < |m.procs| && q != p ensures m.procs[q].dir != m.procs[p].dir { assert Apart(m, p, q); }
  }

  lemma CopiedTableReady(m: State, b: Book, p: nat, d: nat, b': Book, table: Page)
    requires Consistent(m, b) && p < |m.procs| && d < USER_SLOTS && Pde(m, p, d).present && !Pde(m, p, d).write
    requires table == ClearWrites(m.mem[Pde(m, p, d).frame])
    requires forall f: Frame :: f in b && !b[f].Heap? ==> f in b' && b'[f] == b[f]
    ensures TableReady(b', table) && AllEarlier(b', table, p)
  {
    forall t: Index | table[t].present
      ensures table[t].user && OwnedData(b', table[t].frame) && DataOwner(b', table[t].frame) < p
    {
      PageRoles(m, b, p, d, t);
    }
  }

  /** Everybody reads every page as before; page (p, d, t) is now writable and no other page's writability changed. */
  ghost predicate OnlyUnlocks(m: State, m': State, p: nat, d: nat, t: Index)
    requires p < |m.procs| && d < USER_SLOTS
  {
    && m'.procs == m.procs
    && (forall q: nat, c: nat, u: Index :: q < |m.procs| && c < USER_SLOTS ==>
          && View(m', q, c, u) == View(m, q, c, u)
          && (Writable(m', q, c, u) <==> Writable(m, q, c, u) || (q, c, u) == (p, d, t)))
  }

  /** User-visible effect of redirecting an entry of p's own table to a copy of the page. */
  lemma SwapPage(m: State, b: Book, m': State, p: nat, d: nat, t: Index, n: Frame)
    requires Consistent(m, b) && p < |m.procs| && d < USER_SLOTS && m'.procs == m.procs
    requires Pde(m, p, d).present && Pde(m, p, d).write && Pte(m, p, d, t).present
    requires var table := Pde(m, p, d).frame;
             && m'.mem[table] == m.mem[table][t := Pte(m, p, d, t).(frame := n, write := true)]
             && (forall f: Frame :: f in b && !b[f].Heap? && f != table ==> m'.mem[f] == m.mem[f])
    requires forall q: nat :: q < |m.procs| ==> m'.mem[m.procs[q].dir] == m.mem[m.procs[q].dir]
    requires m'.mem[n] == m.mem[Pte(m, p, d, t).frame]
    ensures OnlyUnlocks(m, m', p, d, t)
  {
    PageRoles(m, b, p, d, t);
    forall q: nat, c: nat, u: Index | q < |m.procs| && c < USER_SLOTS
      ensures View(m', q, c, u) == View(m, q, c, u)
      ensures Writable(m', q, c, u) <==> Writable(m, q, c, u) || (q, c, u) == (p, d, t)
    {
      PageRoles(m, b, q, c, u);
    }
  }

  /** The page half in the ledger: the copied frame leaves the heap and becomes table entry (f, t)'s own page. */
  lemma AdoptPage(m: State, b: Book, s: Index, f: Frame, t: Index, e: Word)
    requires Consistent(m, b) && Taken(m, b, s) && Owned(b, f) && e.user && e.write && e.frame == SlotFrame(m, s)
    ensures var m2 := Detach(m, s);
            Consistent(m2.(mem := SetWord(m2.mem, f, t, e)), b[e.frame := Data(Some((f, t)))])
  {
    DetachFrame(m, b, s, Data(None));
    var b2 := b[e.frame := Data(None)];
    LinkPage(Detach(m, s), b2, f, t, e);
    assert b2[e.frame := Data(Some((f, t)))] == b[e.frame := Data(Some((f, t)))];
  }

  lemma CowPageEffect(m: State, b: Book, p: nat, d: nat, t: Index, b1: Book)
    requires Consistent(m, b) && p < |m.procs| && d < USER_SLOTS
    requires Pde(m, p, d).present && Pde(m, p, d).write && Pte(m, p, d, t).present && CowPage(m, p, d, t).Some?
    requires var (m1, s) := CopyToHeap(m, Pte(m, p, d, t).frame).value;
             && Quiet(m, b, m1, b1) && Taken(m1, b1, s)
             && m1.mem[SlotFrame(m1, s)] == m.mem[Pte(m, p, d, t).frame]
    ensures var (m1, s) := CopyToHeap(m, Pte(m, p, d, t).frame).value;
            var m' := CowPage(m, p, d, t).value;
            && OnlyUnlocks(m, m', p, d, t)
            && Pde(m', p, d) == Pde(m, p, d)
            && Pte(m', p, d, t).frame == SlotFrame(m1, s)
  {
    PageRoles(m, b, p, d, t);
    var (m1, s) := CopyToHeap(m, Pte(m, p, d, t).frame).value;
    var m', n, table := CowPage(m, p, d, t).value, SlotFrame(m1, s), Pde(m, p, d).frame;
    forall q: nat | q < |m.procs| ensures m.procs[q].dir != HEAP_TABLE && m.procs[q].dir != table {
      DirectoryRole(m, b, q);
    }
    SwapPage(m, b, m', p, d, t, n);
  }

  lemma CowPageKeeps(m: State, b: Book, p: nat, d: nat, t: Index) returns (b': Book)
    requires Consistent(m, b) && p < |m.procs| && d < USER_SLOTS
    requires Pde(m, p, d).present && Pde(m, p, d).write && Pte(m, p, d, t).present
    requires CowPage(m, p, d, t).Some?
    ensures var m' := CowPage(m, p, d, t).value;
            && Consistent(m', b') && OnlyUnlocks(m, m', p, d, t)
            && Pde(m', p, d) == Pde(m, p, d)
            && NewFrame(b, Pte(m', p, d, t).frame) && HeapKept(b, b', {Pte(m', p, d, t).frame})
  {
    var e, table := Pte(m, p, d, t), Pde(m, p, d).frame;
    PageRoles(m, b, p, d, t);
    var (m1, s) := CopyToHeap(m, e.frame).value;
    var b1 := CopyToHeapKeeps(m, b, e.frame);
    var n := SlotFrame(m1, s);
    b' := b1[n := Data(Some((table, t)))];
    AdoptPage(m1, b1, s, table, t, e.(frame := n, write := true));
    CowPageEffect(m, b, p, d, t, b1);
  }

  /**
   The fault is invisible: every process reads every user page as before, the faulting page has become
   writable, and no other page has changed its writability.
   */
  lemma CowFaultKeeps(m: State, b: Book, p: nat, d: nat, t: Index) returns (b': Book)
    requires Consistent(m, b) && p < |m.procs| && d < USER_SLOTS
    requires Mapped(m, p, d, t) && !Writable(m, p, d, t) && CowFault(m, p, d, t).Some?
    ensures var m' := CowFault(m, p, d, t).value;
            && Consistent(m', b') && OnlyUnlocks(m, m', p, d, t)
            && FramesMoved(m, b, m', b', p, d, t)
  {
    if Pde(m, p, d).write {
      b' := CowPageKeeps(m, b, p, d, t);
    } else {
      var m1, m' := CowTable(m, p, d).value, CowFault(m, p, d, t).value;
      var b1 := CowTableKeeps(m, b, p, d);
      assert SameAt(m, m1, p, d, t);
      b' := CowPageKeeps(m1, b1, p, d, t);
      UnlockAfterSame(m, m1, m', p, d, t);
      HeapKeptTrans(b, b1, b', Pde(m1, p, d).frame, Pte(m', p, d, t).frame);
    }
  }

  /** Word e' is e with another frame and its write bit set. */
  predicate Redirected(e: Word, e': Word) { e' == e.(frame := e'.frame, write := true) }

  /** The fault redirects the two entries of the page and leaves every other flag of theirs. */
  lemma FaultKeepsFlags(m: State, b: Book, p: nat, d: nat, t: Index)
    requires Consistent(m, b) && p < |m.procs| && d < USER_SLOTS
    requires Mapped(m, p, d, t) && !Writable(m, p, d, t) && CowFault(m, p, d, t).Some?
    ensures var m' := CowFault(m, p, d, t).value;
            Redirected(Pde(m, p, d), Pde(m', p, d)) && Redirected(Pte(m, p, d, t), Pte(m', p, d, t))
  {
    if Pde(m, p, d).write {
      CowPageRedirects(m, b, p, d, t);
    } else {
      CowTableRedirects(m, b, p, d, t);
      var b1 := CowTableKeeps(m, b, p, d);
      var m1 := CowTable(m, p, d).value;
      assert SameAt(m, m1, p, d, t);
      CowPageRedirects(m1, b1, p, d, t);
    }
  }

  lemma CowPageRedirects(m: State, b: Book, p: nat, d: nat, t: Index)
    requires Consistent(m, b) && p < |m.procs| && d < USER_SLOTS
    requires Pde(m, p, d).present && Pde(m, p, d).write && Pte(m, p, d, t).present && CowPage(m, p, d, t).Some?
    ensures var m' := CowPage(m, p, d, t).value;
            Pde(m', p, d) == Pde(m, p, d) && Redirected(Pte(m, p, d, t), Pte(m', p, d, t))
  {
    PageRoles(m, b, p, d, t);
    var b1 := CopyToHeapKeeps(m, b, Pte(m, p, d, t).frame);
    CowPageEffect(m, b, p, d, t, b1);
  }

  lemma CowTableRedirects(m: State, b: Book, p: nat, d: nat, t: Index)
    requires Consistent(m, b) && p < |m.procs| && d < USER_SLOTS
    requires Pde(m, p, d).present && !Pde(m, p, d).write && CowTable(m, p, d).Some?
    ensures var m' := CowTable(m, p, d).value;
            Redirected(Pde(m, p, d), Pde(m', p, d)) && Pte(m', p, d, t) == Pte(m, p, d, t).(write := false)
  {
    PageRoles(m, b, p, d, t);
    var e := Pde(m, p, d);
    var (m1, s) := CopyToHeap(m, e.frame).value;
    var b1 := CopyToHeapKeeps(m, b, e.frame);
    CowTableEffect(m, b, p, d, b1);
    DirectoryRole(m1, b1, p);
    assert SlotFrame(m1, s) != HEAP_TABLE && m.procs[p].dir != SlotFrame(m1, s);
  }

  /** Only the new page, and the new table if there is one, left the heap, and neither was in user hands before. */
  ghost predicate FramesMoved(m: State, b: Book, m': State, b': Book, p: nat, d: nat, t: Index)
    requires p < |m.procs| && p < |m'.procs| && d < USER_SLOTS
  {
    && NewFrame(b, Pte(m', p, d, t).frame)
    && (if Pde(m, p, d).write then Pde(m', p, d) == Pde(m, p, d) else NewFrame(b, Pde(m', p, d).frame))
    && HeapKept(b, b', {Pte(m', p, d, t).frame} + if Pde(m, p, d).write then {} else {Pde(m', p, d).frame})
  }

  lemma UnlockAfterSame(m: State, m1: State, m': State, p: nat, d: nat, t: Index)
    requires p < |m.procs| && d < USER_SLOTS && m1.procs == m.procs
    requires SameUser(m, m1) && OnlyUnlocks(m1, m', p, d, t)
    ensures OnlyUnlocks(m, m', p, d, t)
  {
    forall q: nat, c: nat, u: Index | q < |m.procs| && c < USER_SLOTS
      ensures View(m', q, c, u) == View(m, q, c, u)
      ensures Writable(m', q, c, u) <==> Writable(m, q, c, u) || (q, c, u) == (p, d, t)
    {
      assert SameAt(m, m1, q, c, u);
    }
  }

  /** The user pages process p can read and not write. */
  ghost function ReadOnlyPages(m: State, p: nat): set<(nat, nat)>
    requires p < |m.procs|
  {
    set d: nat, t: nat | d < USER_SLOTS && t < 1024 && Mapped(m, p, d, t) && !Writable(m, p, d, t) :: (d, t)
  }

  /** So a process takes each copy-on-write fault once: the count of its read-only pages drops by one. */
  lemma CowFaultProgress(m: State, b: Book, p: nat, d: nat, t: Index)
    requires Consistent(m, b) && p < |m.procs| && d < USER_SLOTS
    requires Mapped(m, p, d, t) && !Writable(m, p, d, t) && CowFault(m, p, d, t).Some?
    ensures var m' := CowFault(m, p, d, t).value;
            && ReadOnlyPages(m', p) == ReadOnlyPages(m, p) - {(d, t)}
            && |ReadOnlyPages(m', p)| == |ReadOnlyPages(m, p)| - 1
  {
    var b' := CowFaultKeeps(m, b, p, d, t);
    UnlockShrinks(m, CowFault(m, p, d, t).value, p, d, t);
  }

  lemma UnlockShrinks(m: State, m': State, p: nat, d: nat, t: Index)
    requires p < |m.procs| && d < USER_SLOTS && Mapped(m, p, d, t) && !Writable(m, p, d, t)
    requires OnlyUnlocks(m, m', p, d, t)
    ensures ReadOnlyPages(m', p) == ReadOnlyPages(m, p) - {(d, t)}
    ensures |ReadOnlyPages(m', p)| == |ReadOnlyPages(m, p)| - 1
  {
    forall c: nat, u: nat | c < USER_SLOTS && u < 1024
      ensures (c, u) in ReadOnlyPages(m', p) <==> (c, u) in ReadOnlyPages(m, p) && (c, u) != (d, t)
    {
      assert View(m', p, c, u) == View(m, p, c, u);
    }
    assert (d, t) in ReadOnlyPages(m, p);
  }
}
