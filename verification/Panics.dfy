/**
 When the kernel runs out: the exact conditions under which the copy-on-write fault, fork, mmap and exec end in a
 panic. They depend on the heap's first unused slots, on which of these have a frame, and on how many frames are free.
 */
module Panics {
  import opened Least
  import opened Words
  import opened Paging
  import opened Machine
  import opened Ledger
  import opened CopyOnWrite
  import opened AddressSpaces

  // ---- What there is to allocate ----

  ghost function FreeFrames(marked: set<nat>): set<nat> { set f: nat | f < FRAMES && f !in marked }

  /** Heap slots in use, heap slots that have a frame, and the number of free frames. */
  datatype Resources = Resources(used: set<nat>, present: set<nat>, free: nat)

  ghost function PresentSlots(mem: Memory): set<nat> { set i: nat | i < 1024 && mem[HEAP_TABLE][i].present }

  ghost function ResourcesOf(m: State): Resources {
    Resources(UsedSlots(m.mem), PresentSlots(m.mem), |FreeFrames(m.marked)|)
  }

  /** The first k slots not in use. */
  ghost function FirstUnused(used: set<nat>, k: nat): (r: Option<seq<nat>>)
    ensures r.Some? ==> |r.value| == k
    decreases k
  {
    if k == 0 then Some([]) else
    var s := LeastOutside(used, 1024);
    if s.None? then None else
    var rest := FirstUnused(used + {s.value}, k - 1);
    if rest.None? then None else Some([s.value] + rest.value)
  }

  function Missing(present: set<nat>, slots: seq<nat>): nat {
    if slots == [] then 0 else (if slots[0] in present then 0 else 1) + Missing(present, slots[1..])
  }

  /** There are k unused slots, and frames for those of the first k that have none and for `extra` more. */
  ghost predicate HasRoom(r: Resources, k: nat, extra: nat) {
    var slots := FirstUnused(r.used, k);
    slots.Some? && Missing(r.present, slots.value) + extra <= r.free
  }

  // ---- Allocation on the resources ----

  ghost function Alloc(r: Resources): Option<(Resources, nat)> {
    var s := LeastOutside(r.used, 1024);
    if s.None? || (s.value !in r.present && r.free == 0) then None
    else Some((Resources(r.used + {s.value}, r.present + {s.value}, if s.value in r.present then r.free
        else r.free - 1),
               s.value))
  }

  /** A page, and a second one for the buffer of mem_copy that is given back. */
  ghost function Copy(r: Resources): Option<(Resources, nat)> {
    var a := Alloc(r);
    if a.None? then None else
    var b := Alloc(a.value.0);
    if b.None? then None else Some((b.value.0.(used := b.value.0.used - {b.value.1}), a.value.1))
  }

  /** One half of the fault: a copy whose page leaves the heap. */
  ghost function CopyOut(r: Resources): Option<Resources> {
    var c := Copy(r);
    if c.None? then None
    else Some(c.value.0.(used := c.value.0.used - {c.value.1}, present := c.value.0.present - {c.value.1}))
  }

  /** fork up to the descriptor table, and from the directory on. */
  ghost function FdsUse(r: Resources): Option<Resources> {
    var a := Alloc(r);
    if a.None? then None else
    var b := Copy(a.value.0);
    if b.None? then None else Some(b.value.0)
  }

  ghost function DirectoryUse(r: Resources): Option<Resources> {
    var c := Copy(r);
    if c.None? then None else
    var d := Alloc(c.value.0);
    if d.None? then None else Some(d.value.0)
  }

  ghost function ForkUse(r: Resources): Option<Resources> {
    var a := FdsUse(r);
    if a.None? then None else DirectoryUse(a.value)
  }

  lemma TwoUnused(used: set<nat>)
    ensures FirstUnused(used, 2) ==
              var s1 := LeastOutside(used, 1024);
              if s1.None? then None else
              var s2 := LeastOutside(used + {s1.value}, 1024);
              if s2.None? then None else Some([s1.value, s2.value])
  {
    var s1 := LeastOutside(used, 1024);
    if s1.Some? {
      var s2 := LeastOutside(used + {s1.value}, 1024);
      if s2.Some? {
        assert FirstUnused(used + {s1.value} + {s2.value}, 0) == Some([]);
        assert [s2.value] + [] == [s2.value];
        assert [s1.value] + [s2.value] == [s1.value, s2.value];
      }
    }
  }

  lemma MissingTwo(present: set<nat>, s1: nat, s2: nat)
    ensures Missing(present, [s1, s2]) == (if s1 in present then 0 else 1) + if s2 in present then 0 else 1
  {
    assert [s1, s2][1..] == [s2] && [s2][1..] == [];
    assert Missing(present, [s2]) == if s2 in present then 0 else 1;
  }

  /** What one half of the fault needs, and what it leaves: the first slot empty, the second with a frame. */
  lemma CopyOutExactly(r: Resources)
    ensures CopyOut(r).Some? <==> HasRoom(r, 2, 0)
    ensures HasRoom(r, 2, 0) ==>
              var s := FirstUnused(r.used, 2).value;
              && s[0] != s[1]
              && CopyOut(r).value == Resources(r.used, r.present + {s[1]} - {s[0]}, r.free - Missing(r.present, s))
  {
    TwoUnused(r.used);
    var s1 := LeastOutside(r.used, 1024);
    if s1.Some? {
      var s2 := LeastOutside(r.used + {s1.value}, 1024);
      if s2.Some? {
        MissingTwo(r.present, s1.value, s2.value);
        assert r.used + {s1.value} + {s2.value} - {s2.value} - {s1.value} == r.used;
        assert r.present + {s1.value} + {s2.value} - {s1.value} == r.present + {s2.value} - {s1.value};
      }
    }
  }

  lemma CopyOutTwice(r: Resources)
    ensures CopyOut(r).Some? && CopyOut(CopyOut(r).value).Some? <==> HasRoom(r, 2, 1)
  {
    CopyOutExactly(r);
    if HasRoom(r, 2, 0) {
      var s := FirstUnused(r.used, 2).value;
      var r1 := CopyOut(r).value;
      CopyOutExactly(r1);
      assert s == [s[0], s[1]];
      MissingTwo(r1.present, s[0], s[1]);
    }
  }

  // ---- The kernel's allocations use exactly these resources ----

  lemma PmallocUse(m: State)
    ensures Pmalloc(m).Some? <==> |FreeFrames(m.marked)| > 0
    ensures Pmalloc(m).Some? ==> |FreeFrames(Pmalloc(m).value.0.marked)| == |FreeFrames(m.marked)| - 1
  {
    var free := FreeFrames(m.marked);
    if f: nat :| f in free { assert f < FRAMES && f !in m.marked; }
    if Pmalloc(m).Some? {
      var (m', f) := Pmalloc(m).value;
      assert f in free;
      assert FreeFrames(m'.marked) == free - {f};
    } else {
      assert free == {};
    }
  }

  lemma KmallocUse(m: State)
    ensures Kmalloc(m).Some? <==> Alloc(ResourcesOf(m)).Some?
    ensures Kmalloc(m).Some? ==>
              var (m', s) := Kmalloc(m).value;
              Alloc(ResourcesOf(m)) == Some((ResourcesOf(m'), s))
  {
    PmallocUse(m);
    var r := LeastOutside(UsedSlots(m.mem), 1024);
    if r.Some? && Kmalloc(m).Some? {
      var s, m' := r.value, Kmalloc(m).value.0;
      assert UsedSlots(m'.mem) == UsedSlots(m.mem) + {s};
      assert PresentSlots(m'.mem) == PresentSlots(m.mem) + {s};
    }
  }

  lemma SameHeap(m: State, m': State)
    requires m'.mem[HEAP_TABLE] == m.mem[HEAP_TABLE] && m'.marked == m.marked
    ensures ResourcesOf(m') == ResourcesOf(m)
  {
  }

  lemma KfreeUse(m: State, s: Index)
    ensures ResourcesOf(Kfree(m, s)) == ResourcesOf(m).(used := ResourcesOf(m).used - {s})
  {
    assert UsedSlots(Kfree(m, s).mem) == UsedSlots(m.mem) - {s};
    assert PresentSlots(Kfree(m, s).mem) == PresentSlots(m.mem);
  }

  lemma DetachUse(m: State, s: Index)
    ensures var r := ResourcesOf(m);
            ResourcesOf(Detach(m, s)) == r.(used := r.used - {s}, present := r.present - {s})
  {
    assert UsedSlots(Detach(m, s).mem) == UsedSlots(m.mem) - {s};
    assert PresentSlots(Detach(m, s).mem) == PresentSlots(m.mem) - {s};
  }

  lemma MemCopyUse(m: State, b: Book, src: Frame, dst: Frame)
    requires Consistent(m, b) && dst != HEAP_TABLE
    ensures MemCopy(m, src, dst).Some? <==> Alloc(ResourcesOf(m)).Some?
    ensures MemCopy(m, src, dst).Some? ==>
              var (r, s) := Alloc(ResourcesOf(m)).value;
              ResourcesOf(MemCopy(m, src, dst).value) == r.(used := r.used - {s})
  {
    KmallocUse(m);
    if Kmalloc(m).Some? {
      var (m1, s) := Kmalloc(m).value;
      var b1 := KmallocKeeps(m, b);
      var m2 := m1.(mem := m1.mem[SlotFrame(m1, s) := m1.mem[src]]);
      var m3 := m2.(mem := m2.mem[dst := m2.mem[SlotFrame(m1, s)]]);
      SameHeap(m1, m3);
      KfreeUse(m3, s);
    }
  }

  lemma CopyToHeapUse(m: State, b: Book, src: Frame)
    requires Consistent(m, b)
    ensures CopyToHeap(m, src).Some? <==> Copy(ResourcesOf(m)).Some?
    ensures CopyToHeap(m, src).Some? ==>
              var (m', s) := CopyToHeap(m, src).value;
              Copy(ResourcesOf(m)) == Some((ResourcesOf(m'), s))
  {
    KmallocUse(m);
    if Kmalloc(m).Some? {
      var (m1, s) := Kmalloc(m).value;
      var b1 := KmallocKeeps(m, b);
      MemCopyUse(m1, b1, src, SlotFrame(m1, s));
    }
  }

  // ---- The copy-on-write fault ----

  lemma CowTableUse(m: State, b: Book, p: nat, d: nat)
    requires Consistent(m, b) && p < |m.procs| && d < USER_SLOTS && Pde(m, p, d).present
    ensures CowTable(m, p, d).Some? <==> CopyOut(ResourcesOf(m)).Some?
    ensures CowTable(m, p, d).Some? ==> CopyOut(ResourcesOf(m)) == Some(ResourcesOf(CowTable(m, p, d).value))
  {
    var e := Pde(m, p, d);
    PageRoles(m, b, p, d, 0);
    CopyToHeapUse(m, b, e.frame);
    if CopyToHeap(m, e.frame).Some? {
      var (m1, s) := CopyToHeap(m, e.frame).value;
      var b1 := CopyToHeapKeeps(m, b, e.frame);
      var n := SlotFrame(m1, s);
      var m2 := m1.(mem := m1.mem[n := ClearWrites(m1.mem[n])]);
      SameHeap(m1, m2);
      DetachUse(m2, s);
      DirectoryRole(m, b, p);
      SameHeap(Detach(m2, s), CowTable(m, p, d).value);
    }
  }

  lemma CowPageUse(m: State, b: Book, p: nat, d: nat, t: Index)
    requires Consistent(m, b) && p < |m.procs| && d < USER_SLOTS && Pde(m, p, d).present && Pte(m, p, d, t).present
    ensures CowPage(m, p, d, t).Some? <==> CopyOut(ResourcesOf(m)).Some?
  {
    PageRoles(m, b, p, d, t);
    CopyToHeapUse(m, b, Pte(m, p, d, t).frame);
  }

  /**
   The fault succeeds if and only if the heap has two unused slots and there are frames for those of the first two
   that have none, and one more if the table has to be copied too.
   */
  lemma FaultPanicsExactly(m: State, b: Book, p: nat, d: nat, t: Index)
    requires Consistent(m, b) && p < |m.procs| && d < USER_SLOTS && Mapped(m, p, d, t) && !Writable(m, p, d, t)
    ensures CowFault(m, p, d, t).Some? <==> HasRoom(ResourcesOf(m), 2, if Pde(m, p, d).write then 0 else 1)
  {
    if Pde(m, p, d).write {
      CowPageUse(m, b, p, d, t);
      CopyOutExactly(ResourcesOf(m));
    } else {
      CowTableUse(m, b, p, d);
      CopyOutTwice(ResourcesOf(m));
      if CowTable(m, p, d).Some? {
        var b1 := CowTableKeeps(m, b, p, d);
        var m1 := CowTable(m, p, d).value;
        assert SameAt(m, m1, p, d, t);
        CowPageUse(m1, b1, p, d, t);
      }
    }
  }

  // ---- fork ----

  lemma FourUnused(used: set<nat>, s1: nat, s2: nat)
    requires LeastOutside(used, 1024) == Some(s1) && LeastOutside(used + {s1}, 1024) == Some(s2)
    ensures var rest := FirstUnused(used + {s1} + {s2}, 2);
            FirstUnused(used, 4) == if rest.None? then None else Some([s1, s2] + rest.value)
  {
    var rest := FirstUnused(used + {s1} + {s2}, 2);
    assert FirstUnused(used + {s1}, 3) == if rest.None? then None else Some([s2] + rest.value);
    if rest.Some? { assert [s1] + ([s2] + rest.value) == [s1, s2] + rest.value; }
  }

  lemma FewerThanTwo(used: set<nat>, k: nat)
    requires k >= 2 && FirstUnused(used, 2).None?
    ensures FirstUnused(used, k).None?
  {
    TwoUnused(used);
    var s1 := LeastOutside(used, 1024);
    if s1.Some? { assert FirstUnused(used + {s1.value}, k - 1).None?; }
  }

  lemma MissingFour(present: set<nat>, s1: nat, s2: nat, s3: nat, s4: nat)
    ensures Missing(present, [s1, s2, s3, s4]) == Missing(present, [s1, s2]) + Missing(present, [s3, s4])
  {
    assert [s1, s2, s3, s4][1..] == [s2, s3, s4] && [s2, s3, s4][1..] == [s3, s4];
    MissingTwo(present, s1, s2);
  }

  /** fork's four heap pages: record, descriptor table, directory, stack; each copy's buffer is the slot after it. */
  lemma ForkUseExactly(r: Resources)
    ensures ForkUse(r).Some? <==> HasRoom(r, 4, 0)
  {
    var s1 := LeastOutside(r.used, 1024);
    TwoUnused(r.used);
    if FirstUnused(r.used, 2).None? {
      FewerThanTwo(r.used, 4);
    } else {
      var s2 := LeastOutside(r.used + {s1.value}, 1024);
      var used := r.used + {s1.value} + {s2.value};
      FourUnused(r.used, s1.value, s2.value);
      TwoUnused(used);
      ForkLast(r, s1.value, s2.value);
    }
  }

  /** From the copy of the descriptor table on. */
  lemma ForkLast(r: Resources, s1: nat, s2: nat)
    requires LeastOutside(r.used, 1024) == Some(s1) && LeastOutside(r.used + {s1}, 1024) == Some(s2)
    ensures var rest := FirstUnused(r.used + {s1} + {s2}, 2);
            ForkUse(r).Some? <==> rest.Some? && Missing(r.present, [s1, s2] + rest.value) <= r.free
  {
    var used := r.used + {s1} + {s2};
    TwoUnused(used);
    var s3 := LeastOutside(used, 1024);
    if s3.Some? {
      assert used + {s3.value} - {s3.value} == used;
      var s4 := LeastOutside(used + {s3.value}, 1024);
      if s4.Some? {
        assert used + {s3.value} + {s4.value} - {s4.value} == used + {s3.value};
        assert [s1, s2] + [s3.value, s4.value] == [s1, s2, s3.value, s4.value];
        MissingFour(r.present, s1, s2, s3.value, s4.value);
        MissingTwo(r.present, s1, s2);
        MissingTwo(r.present, s3.value, s4.value);
      }
    }
  }

  /**
   fork succeeds if and only if the descriptor table can be read, the heap has four unused slots, and there are frames
   for those of the first four that have none.
   */
  lemma ForkPanicsExactly(m: State, b: Book, p: nat, fds: Option<Index>)
    requires Consistent(m, b) && p < |m.procs| && FdsOk(m, fds)
    ensures Fork(m, p, fds).Some? <==> FdFrame(m, p, fds).Some? && HasRoom(ResourcesOf(m), 4, 0)
  {
    ForkUseExactly(ResourcesOf(m));
    CopyFdsUse(m, b, p, fds);
    ForkInTwo(m, p, fds);
    if CopyFds(m, p, fds).Some? {
      var b2 := CopyFdsKeeps(m, b, p, fds);
      ForkEndUse(CopyFds(m, p, fds).value, b2, p);
    }
  }

  lemma CopyFdsUse(m: State, b: Book, p: nat, fds: Option<Index>)
    requires Consistent(m, b) && p < |m.procs| && FdsOk(m, fds)
    ensures CopyFds(m, p, fds).Some? <==> FdFrame(m, p, fds).Some? && FdsUse(ResourcesOf(m)).Some?
    ensures CopyFds(m, p, fds).Some? ==> FdsUse(ResourcesOf(m)) == Some(ResourcesOf(CopyFds(m, p, fds).value))
  {
    KmallocUse(m);
    if Kmalloc(m).Some? && FdFrame(m, p, fds).Some? {
      var src := FdFrame(m, p, fds).value;
      var b1 := KmallocKeeps(m, b);
      CopyToHeapUse(Kmalloc(m).value.0, b1, src);
    }
  }

  lemma ForkEndUse(m: State, b: Book, p: nat)
    requires Consistent(m, b) && p < |m.procs|
    ensures ForkEnd(m, p).Some? <==> DirectoryUse(ResourcesOf(m)).Some?
  {
    var dir := m.procs[p].dir;
    CopyToHeapUse(m, b, dir);
    if CopyToHeap(m, dir).Some? {
      DirectoryRole(m, b, p);
      assert ProcOk(m, p);
      var (m1, s) := CopyToHeap(m, dir).value;
      var b1 := CopyToHeapKeeps(m, b, dir);
      SameHeap(m1, Adopt(m1, s));
      KmallocUse(Adopt(m1, s));
    }
  }

  // ---- mmap and exec ----

  lemma MmapPageUse(m: State, p: nat, d: Index, t: Index)
    requires p < |m.procs|
    ensures var need, free := 1 + (if Pde(m, p, d).present then 0 else 1), |FreeFrames(m.marked)|;
            && (MmapPage(m, p, d, t).Some? <==> need <= free)
            && (MmapPage(m, p, d, t).Some? ==> |FreeFrames(MmapPage(m, p, d, t).value.marked)| == free - need)
  {
    PmallocUse(m);
    if Pmalloc(m).Some? { PmallocUse(Pmalloc(m).value.0); }
  }

  /** The directory slots of the range that have no table yet. */
  ghost function MissingTables(m: State, p: nat, v: nat, n: nat): set<nat>
    requires p < |m.procs|
  {
    set c: nat | c < USER_SLOTS && InRange(v, n, c) && !Pde(m, p, c).present
  }

  /** Some of the n pages from page number v up lie in directory slot c. */
  predicate InRange(v: nat, n: nat, c: nat) { n > 0 && v < (c + 1) * 1024 && c * 1024 < v + n }

  lemma InRangeOneMore(v: nat, n: nat, c: nat)
    requires n > 0
    ensures InRange(v, n, c) <==> InRange(v, n - 1, c) || c == (v + n - 1) / 1024
  {
  }

  ghost predicate TablesFilled(m: State, m': State, p: nat, v: nat, n: nat)
    requires p < |m.procs| && p < |m'.procs|
  {
    forall c: nat :: c < USER_SLOTS ==> (Pde(m', p, c).present <==> Pde(m, p, c).present || InRange(v, n, c))
  }

  /** What became of mmap of a range, in terms of the frames it needs and those that are free. */
  ghost predicate Spent(m: State, r: Option<State>, p: nat, v: nat, n: nat)
    requires p < |m.procs|
  {
    var need, free := n + |MissingTables(m, p, v, n)|, |FreeFrames(m.marked)|;
    && (r.Some? <==> need <= free)
    && (r.Some? ==>
          && r.value.procs == m.procs && |FreeFrames(r.value.marked)| == free - need
          && TablesFilled(m, r.value, p, v, n))
  }

  /**
   mmap succeeds if and only if there is a free frame for each page and for each table the range lacks; it uses
   exactly these.
   */
  lemma {:induction false} MmapPanicsExactly(m: State, b: Book, p: nat, v: nat, n: nat)
    requires Consistent(m, b) && p < |m.procs| && v + n <= USER_SLOTS * 1024
    ensures Spent(m, Mmap(m, p, v, n), p, v, n)
    decreases n
  {
    if n == 0 {
      assert MissingTables(m, p, v, n) == {};
    } else {
      MmapPanicsExactly(m, b, p, v, n - 1);
      var b1 := b;
      if Mmap(m, p, v, n - 1).Some? { b1 := MmapKeeps(m, b, p, v, n - 1); }
      SpentOneMore(m, Mmap(m, p, v, n - 1), b1, p, v, n);
    }
  }

  lemma SpentOneMore(m: State, r: Option<State>, b1: Book, p: nat, v: nat, n: nat)
    requires p < |m.procs| && 0 < n && v + n <= USER_SLOTS * 1024 && Spent(m, r, p, v, n - 1)
    requires r.Some? ==> Consistent(r.value, b1)
    ensures Spent(m, if r.None? then None else MmapPage(r.value, p, (v + n - 1) / 1024, (v + n - 1) % 1024), p, v, n)
  {
    var d, t := (v + n - 1) / 1024, (v + n - 1) % 1024;
    MissingOneMore(m, p, v, n);
    if r.Some? {
      MmapPageUse(r.value, p, d, t);
      if MmapPage(r.value, p, d, t).Some? { FilledOneMore(m, r.value, b1, p, v, n); }
    }
  }

  lemma MissingOneMore(m: State, p: nat, v: nat, n: nat)
    requires p < |m.procs| && 0 < n && v + n <= USER_SLOTS * 1024
    ensures var d := (v + n - 1) / 1024;
            |MissingTables(m, p, v, n)| ==
              |MissingTables(m, p, v, n - 1)| + if Pde(m, p, d).present || InRange(v, n - 1, d) then 0 else 1
  {
    var d := (v + n - 1) / 1024;
    forall c: nat ensures InRange(v, n, c) <==> InRange(v, n - 1, c) || c == d { InRangeOneMore(v, n, c); }
    if Pde(m, p, d).present || InRange(v, n - 1, d) {
      assert MissingTables(m, p, v, n) == MissingTables(m, p, v, n - 1);
    } else {
      assert MissingTables(m, p, v, n) == MissingTables(m, p, v, n - 1) + {d};
    }
  }

  lemma FilledOneMore(m: State, m1: State, b1: Book, p: nat, v: nat, n: nat)
    requires p < |m.procs| && m1.procs == m.procs && 0 < n && v + n <= USER_SLOTS * 1024
    requires Consistent(m1, b1) && TablesFilled(m, m1, p, v, n - 1)
    requires MmapPage(m1, p, (v + n - 1) / 1024, (v + n - 1) % 1024).Some?
    ensures TablesFilled(m, MmapPage(m1, p, (v + n - 1) / 1024, (v + n - 1) % 1024).value, p, v, n)
  {
    var d, t := (v + n - 1) / 1024, (v + n - 1) % 1024;
    var m' := MmapPage(m1, p, d, t).value;
    var b' := MmapPageKeeps(m1, b1, p, d, t);
    forall c: nat | c < USER_SLOTS ensures Pde(m', p, c).present <==> Pde(m, p, c).present || InRange(v, n, c) {
      InRangeOneMore(v, n, c);
      if c != d { assert Pde(m', p, c) == Pde(m1, p, c); }
    }
  }

  function Below(k: nat): (s: set<nat>)
    ensures |s| == k && forall c: nat :: c in s <==> c < k
  {
    if k == 0 then {} else Below(k - 1) + {k - 1}
  }

  /** The tables n pages from address 0 up take. */
  function TablesFor(n: nat): nat { (n + 1023) / 1024 }

  lemma TablesOfProgram(m: State, p: nat, n: nat)
    requires p < |m.procs| && n <= USER_SLOTS * 1024 && forall c: nat :: c < USER_SLOTS ==> !Pde(m, p, c).present
    ensures |MissingTables(m, p, 0, n)| == TablesFor(n)
  {
    forall c: nat ensures c in MissingTables(m, p, 0, n) <==> c < TablesFor(n) {
      assert c < TablesFor(n) <==> c * 1024 < n;
    }
    assert MissingTables(m, p, 0, n) == Below(TablesFor(n));
  }

  /**
   exec of a program of n pages succeeds if and only if there are free frames for the program, its tables, the stack
   page, and the stack's table unless the program reaches it. The frames of the old program are not given back.
   */
  lemma ExecPanicsExactly(m: State, b: Book, p: nat, n: nat)
    requires Consistent(m, b) && p < |m.procs| && n <= USER_SLOTS * 1024
    ensures Exec(m, p, n).Some? <==>
              n + TablesFor(n) + 1 + (if n > (USER_SLOTS - 1) * 1024 then 0 else 1) <= |FreeFrames(m.marked)|
  {
    var m1 := m.(mem := m.mem[m.procs[p].dir := ClearUser(m.mem[m.procs[p].dir])]);
    ClearUserKeeps(m, b, p);
    TablesOfProgram(m1, p, n);
    MmapPanicsExactly(m1, b, p, 0, n);
    if Mmap(m1, p, 0, n).Some? {
      var m2 := Mmap(m1, p, 0, n).value;
      MmapPageUse(m2, p, USER_SLOTS - 1, 1023);
      assert Pde(m2, p, USER_SLOTS - 1).present <==> InRange(0, n, USER_SLOTS - 1);
    }
  }
}
