/** Every run of the memory operations, in any interleaving of processes: single writer, isolation and frame roles. */
module MemoryRuns {
  import opened Least
  import opened Words
  import opened Paging
  import opened Machine
  import opened Ledger
  import opened CopyOnWrite
  import opened AddressSpaces
  import FrameBitmap

  /** Kernel allocations stand for whatever else the kernel does with its heap pages. */
  datatype Step =
    | UserStore(p: nat, a: Linear, w: Word)
    | WriteFault(p: nat, d: nat, t: Index)
    | ForkCall(p: nat, fds: Option<Index>)
    | MmapCall(p: nat, v: nat, n: nat)
    | ExecCall(p: nat, n: nat)
    | KernelAlloc
    | KernelFree(s: Index)
    | KernelWrite(s: Index, o: Index, w: Word)

  ghost predicate ByProcess(step: Step, p: nat) {
    match step
    case UserStore(q, _, _) => q == p
    case WriteFault(q, _, _) => q == p
    case ForkCall(q, _) => q == p
    case MmapCall(q, _, _) => q == p
    case ExecCall(q, _) => q == p
    case _ => false
  }

  /** A heap page the kernel holds for itself: in use, and no process's directory. */
  ghost predicate KernelPage(m: State, s: Index) {
    m.mem[HEAP_TABLE][s].present && m.mem[HEAP_TABLE][s].used && !IsDirectory(m, SlotFrame(m, s))
  }

  /** When a step can be taken. A store needs a writable page; a store to a readable one faults instead. */
  ghost predicate Enabled(m: State, step: Step) {
    match step
    case UserStore(p, a, _) => p < |m.procs| && a.d < USER_SLOTS && Writable(m, p, a.d, a.t)
    case WriteFault(p, d, t) => p < |m.procs| && d < USER_SLOTS && Mapped(m, p, d, t) && !Writable(m, p, d, t)
    case ForkCall(p, fds) => p < |m.procs| && FdsOk(m, fds)
    case MmapCall(p, v, n) => p < |m.procs| && v + n <= USER_SLOTS * 1024
    case ExecCall(p, n) => p < |m.procs| && n <= USER_SLOTS * 1024
    case KernelAlloc => true
    case KernelFree(s) => KernelPage(m, s)
    case KernelWrite(s, _, _) => KernelPage(m, s)
  }

  /** None is a kernel panic, after which the machine stands still. */
  ghost function Next(m: State, step: Step): Option<State>
    requires Enabled(m, step)
  {
    match step
    case UserStore(p, a, w) => Some(Store(m, p, a, w))
    case WriteFault(p, d, t) => CowFault(m, p, d, t)
    case ForkCall(p, fds) => Fork(m, p, fds)
    case MmapCall(p, v, n) => Mmap(m, p, v, n)
    case ExecCall(p, n) => Exec(m, p, n)
    case KernelAlloc => var k := Kmalloc(m); if k.None? then None else Some(k.value.0)
    case KernelFree(s) => Some(Kfree(m, s))
    case KernelWrite(s, o, w) => Some(m.(mem := SetWord(m.mem, SlotFrame(m, s), o, w)))
  }

  ghost predicate Inv(m: State) { exists b :: Consistent(m, b) }

  // ---- Boot ----

  /** The three frames of the boot image after init_vmm; the rest of memory holds anything. */
  ghost predicate BootImage(mem: Memory) {
    && mem[BOOT_DIR] == seq(1024, i => if i == CODE_SLOT then KernelEntry(CODE_TABLE)
                                        else if i == HEAP_SLOT then KernelEntry(HEAP_TABLE)
                                        else if i == SELF_SLOT then KernelEntry(BOOT_DIR) else ZERO)
    && mem[CODE_TABLE] == seq(1024, i requires 0 <= i < 1024 => KernelEntry(i))
    && mem[HEAP_TABLE] == ZeroPage()
  }

  /** The first process runs on the boot directory. */
  ghost predicate Boot(m: State) {
    && BootImage(m.mem)
    && m.marked == FrameBitmap.MarkedAtBoot()
    && m.procs == [Proc(BOOT_DIR, CODE_SLOT, BOOT_DIR)]
  }

  lemma BootInv(m: State)
    requires Boot(m)
    ensures Inv(m)
  {
    var b: Book := map[];
    assert forall s: Index :: m.mem[HEAP_TABLE][s] == ZERO;
    assert forall d: nat :: d < USER_SLOTS ==> m.mem[BOOT_DIR][d] == ZERO;
    assert Consistent(m, b);
  }

  // ---- Steps ----

  lemma KernelStepKeeps(m: State, b: Book, step: Step) returns (b': Book)
    requires Consistent(m, b) && Enabled(m, step) && Next(m, step).Some?
    requires step.KernelAlloc? || step.KernelFree? || step.KernelWrite?
    ensures Quiet(m, b, Next(m, step).value, b')
  {
    b' := b;
    match step {
      case KernelAlloc => b' := KmallocKeeps(m, b);
      case KernelFree(s) =>
        SetUsed(m, b, s, false);
        forall p: nat | p < |m.procs| ensures m.procs[p].dir != HEAP_TABLE { DirectoryRole(m, b, p); }
      case KernelWrite(s, o, w) =>
        assert SlotOk(m, b, s);
        WritePage(m, b, SlotFrame(m, s), m.mem[SlotFrame(m, s)][o := w]);
    }
  }

  lemma StepKeepsInv(m: State, step: Step)
    requires Inv(m) && Enabled(m, step) && Next(m, step).Some?
    ensures Inv(Next(m, step).value) && |m.procs| <= |Next(m, step).value.procs|
  {
    var b: Book :| Consistent(m, b);
    match step {
      case UserStore(p, a, w) => StoreKeeps(m, b, p, a, w);
      case WriteFault(p, d, t) => var b' := CowFaultKeeps(m, b, p, d, t);
      case ForkCall(p, fds) => var b' := ForkKeeps(m, b, p, fds);
      case MmapCall(p, v, n) => var b' := MmapKeeps(m, b, p, v, n);
      case ExecCall(p, n) => var b' := ExecKeeps(m, b, p, n);
      case _ => var b' := KernelStepKeeps(m, b, step);
    }
  }

  /** The step maps pages through the very table entry behind page (d, t) of process p. */
  ghost predicate TakesPage(m: State, step: Step, p: nat, d: nat, t: Index)
    requires Enabled(m, step) && p < |m.procs| && d < USER_SLOTS
  {
    step.MmapCall? && Takes(m, step.p, step.v, step.n, p, d, t)
  }

  /** Steps other than stores and mmap change no page of another process at all. */
  lemma OtherStepSpares(m: State, step: Step, p: nat, d: nat, t: Index)
    requires Inv(m) && Enabled(m, step) && Next(m, step).Some? && p < |m.procs| && d < USER_SLOTS
    requires !step.UserStore? && !step.MmapCall? && !(step.ExecCall? && step.p == p)
    ensures var m' := Next(m, step).value;
            && p < |m'.procs| && View(m', p, d, t) == View(m, p, d, t)
            && (Writable(m', p, d, t) <==> Writable(m, p, d, t) || step == WriteFault(p, d, t))
  {
    var b: Book :| Consistent(m, b);
    var m' := Next(m, step).value;
    if step.WriteFault? {
      var b' := CowFaultKeeps(m, b, step.p, step.d, step.t);
    } else if step.ForkCall? {
      var b' := ForkKeeps(m, b, step.p, step.fds);
      assert SameAt(m, m', p, d, t);
    } else if step.ExecCall? {
      var b' := ExecKeeps(m, b, step.p, step.n);
      assert Untouched(m, m', p);
      assert SameAt(m, m', p, d, t);
    } else {
      var b' := KernelStepKeeps(m, b, step);
      QuietIsInvisible(m, b, m', b');
      assert SameAt(m, m', p, d, t);
    }
  }

  /**
   Whoever takes a step, and whichever step it is, a page of another process stays as it was, unless mmap takes it
   or it is read-only and an earlier process stores.
   */
  lemma StepSpares(m: State, step: Step, p: nat, d: nat, t: Index)
    requires Inv(m) && Enabled(m, step) && Next(m, step).Some? && p < |m.procs| && d < USER_SLOTS
    requires !ByProcess(step, p) && !TakesPage(m, step, p, d, t)
    requires step.UserStore? && step.p < p ==> Writable(m, p, d, t)
    ensures p < |Next(m, step).value.procs| && SameAt(m, Next(m, step).value, p, d, t)
  {
    if step.UserStore? {
      var b: Book :| Consistent(m, b);
      StoreKeeps(m, b, step.p, step.a, step.w);
      var m' := Next(m, step).value;
      if p < step.p { assert Untouched(m, m', p); } else { assert Spares(m, m', p); }
    } else if step.MmapCall? {
      var b: Book :| Consistent(m, b);
      MmapTakesExactly(m, b, step.p, step.v, step.n, p, d, t);
    } else {
      OtherStepSpares(m, step, p, d, t);
    }
  }

  /** A caller of mmap can see to it: under directory entries that are absent or writable nothing of value is taken. */
  lemma PrivateMmapTakesNone(m: State, step: Step, p: nat, d: nat, t: Index)
    requires Inv(m) && Enabled(m, step) && p < |m.procs| && d < USER_SLOTS && !ByProcess(step, p)
    requires step.MmapCall? ==> PrivateRange(m, step.p, step.v, step.n)
    requires Writable(m, p, d, t) || (step.MmapCall? ==> p < step.p)
    ensures !TakesPage(m, step, p, d, t)
  {
    if TakesPage(m, step, p, d, t) {
      var b: Book :| Consistent(m, b);
      PrivateRangeTakes(m, b, step.p, step.v, step.n, p, d, t);
    }
  }

  // ---- Runs ----

  ghost predicate IsRun(states: seq<State>, steps: seq<Step>) {
    && |states| == |steps| + 1
    && (forall i: nat :: i < |steps| ==>
          Enabled(states[i], steps[i]) && Next(states[i], steps[i]) == Some(states[i + 1]))
  }

  lemma RunStep(states: seq<State>, steps: seq<Step>, i: nat)
    requires IsRun(states, steps) && i < |steps|
    ensures Enabled(states[i], steps[i]) && Next(states[i], steps[i]) == Some(states[i + 1])
  {
  }

  lemma {:induction false} RunKeepsInv(states: seq<State>, steps: seq<Step>, i: nat)
    requires IsRun(states, steps) && Inv(states[0]) && i < |states|
    ensures Inv(states[i]) && |states[0].procs| <= |states[i].procs|
    decreases i
  {
    if i > 0 {
      RunKeepsInv(states, steps, i - 1);
      StepKeepsInv(states[i - 1], steps[i - 1]);
    }
  }

  /**
   Single writer: a user table is named by at most one writable directory entry, and a user frame can be
   written at one page of one process at most.
   */
  ghost predicate SingleWriter(m: State) {
    && (forall p: nat, d: nat, q: nat, c: nat ::
          p < |m.procs| && q < |m.procs| && d < USER_SLOTS && c < USER_SLOTS
          && Allows(Pde(m, p, d), UserWrite) && Allows(Pde(m, q, c), UserWrite)
              && Pde(m, p, d).frame == Pde(m, q, c).frame
          ==> (p, d) == (q, c))
    && (forall p: nat, d: nat, t: Index, q: nat, c: nat, u: Index ::
          p < |m.procs| && q < |m.procs| && d < USER_SLOTS && c < USER_SLOTS
          && Writable(m, p, d, t) && Writable(m, q, c, u) && Pte(m, p, d, t).frame == Pte(m, q, c, u).frame
          ==> (p, d, t) == (q, c, u))
  }

  lemma InvIsSingleWriter(m: State)
    requires Inv(m)
    ensures SingleWriter(m)
  {
    var b: Book :| Consistent(m, b);
    forall p: nat, d: nat, q: nat, c: nat | p < |m.procs| && q < |m.procs| && d < USER_SLOTS && c < USER_SLOTS
      && Allows(Pde(m, p, d), UserWrite) && Allows(Pde(m, q, c), UserWrite) && Pde(m, p, d).frame == Pde(m, q, c).frame
      ensures (p, d) == (q, c)
    {
      PageRoles(m, b, p, d, 0);
      PageRoles(m, b, q, c, 0);
    }
    forall p: nat, d: nat, t: Index, q: nat, c: nat, u: Index |
      p < |m.procs| && q < |m.procs| && d < USER_SLOTS && c < USER_SLOTS
      && Writable(m, p, d, t) && Writable(m, q, c, u) && Pte(m, p, d, t).frame == Pte(m, q, c, u).frame
      ensures (p, d, t) == (q, c, u)
    {
      PageRoles(m, b, p, d, t);
      PageRoles(m, b, q, c, u);
    }
  }

  /** In every state of every run from boot. */
  lemma EveryRunHasSingleWriters(states: seq<State>, steps: seq<Step>, i: nat)
    requires IsRun(states, steps) && Boot(states[0]) && i < |states|
    ensures SingleWriter(states[i])
  {
    BootInv(states[0]);
    RunKeepsInv(states, steps, i);
    InvIsSingleWriter(states[i]);
  }

  /** No mmap of the first i steps goes through the table entry behind page (d, t) of process p. */
  ghost predicate NeverTaken(states: seq<State>, steps: seq<Step>, p: nat, d: nat, t: Index, i: nat)
    requires IsRun(states, steps) && i < |states| && d < USER_SLOTS
  {
    forall k: nat :: k < i ==> p < |states[k].procs| && !TakesPage(states[k], steps[k], p, d, t)
  }

  lemma RunStepSpares(states: seq<State>, steps: seq<Step>, p: nat, d: nat, t: Index, k: nat)
    requires IsRun(states, steps) && k < |steps| && Inv(states[k]) && p < |states[k].procs| && d < USER_SLOTS
    requires !ByProcess(steps[k], p) && !TakesPage(states[k], steps[k], p, d, t)
    requires steps[k].UserStore? && steps[k].p < p ==> Writable(states[k], p, d, t)
    ensures p < |states[k + 1].procs| && SameAt(states[k], states[k + 1], p, d, t)
  {
    RunStep(states, steps, k);
    StepSpares(states[k], steps[k], p, d, t);
  }

  /**
   Isolation over whole runs: while process p takes no step and no mmap takes the page, a page it can write keeps
   its contents and stays writable, whatever else the other processes and the kernel do.
   */
  lemma {:induction false} WritablePagesAreIsolated(states: seq<State>, steps: seq<Step>,
                                                    p: nat, d: nat, t: Index, i: nat)
    requires IsRun(states, steps) && Inv(states[0]) && i < |states|
    requires p < |states[0].procs| && d < USER_SLOTS && Writable(states[0], p, d, t)
    requires NeverTaken(states, steps, p, d, t, i) && forall k: nat :: k < i ==> !ByProcess(steps[k], p)
    ensures p < |states[i].procs| && SameAt(states[0], states[i], p, d, t)
    decreases i
  {
    if i > 0 {
      WritablePagesAreIsolated(states, steps, p, d, t, i - 1);
      RunKeepsInv(states, steps, i - 1);
      RunStepSpares(states, steps, p, d, t, i - 1);
    }
  }

  /**
   For read-only pages too, one way: while process p takes no step, no earlier process stores and no mmap takes the
   page, p reads it exactly as before; so stores of later processes, p's descendants among them, never reach p.
   */
  lemma {:induction false} AncestorsAreUntouched(states: seq<State>, steps: seq<Step>, p: nat, d: nat, t: Index, i: nat)
    requires IsRun(states, steps) && Inv(states[0]) && i < |states|
    requires p < |states[0].procs| && d < USER_SLOTS
    requires NeverTaken(states, steps, p, d, t, i) && forall k: nat :: k < i ==> !ByProcess(steps[k], p)
    requires forall k: nat :: k < i ==> !(steps[k].UserStore? && steps[k].p < p)
    ensures p < |states[i].procs| && SameAt(states[0], states[i], p, d, t)
    decreases i
  {
    if i > 0 {
      AncestorsAreUntouched(states, steps, p, d, t, i - 1);
      RunKeepsInv(states, steps, i - 1);
      RunStepSpares(states, steps, p, d, t, i - 1);
    }
  }

  // ---- The other direction does not hold ----

  /**
   fork clears write bits in the child's directory only, so the parent goes on writing the shared frames: a
   store by the parent to a page it can write is read by the child.
   */
  lemma ParentStoresShowThrough(m: State, p: nat, fds: Option<Index>, a: Linear, w: Word)
    requires Inv(m) && p < |m.procs| && a.d < USER_SLOTS && Writable(m, p, a.d, a.t)
    requires FdsOk(m, fds) && Fork(m, p, fds).Some?
    ensures var m1 := Fork(m, p, fds).value; var child := |m.procs|;
            && Writable(m1, p, a.d, a.t)
            && View(Store(m1, p, a, w), child, a.d, a.t) == Some(View(m, p, a.d, a.t).value[a.o := w])
  {
    var b: Book :| Consistent(m, b);
    var b1 := ForkKeeps(m, b, p, fds);
    var m1, child := Fork(m, p, fds).value, |m.procs|;
    assert SameAt(m, m1, p, a.d, a.t);
    SharedPageSeesStore(m1, b1, p, child, a, w);
  }

  /**
   Nor for mmap: right after fork the child's mmap of a page takes the page from the parent, and the parent's
   takes it from the child, since they go through one table.
   */
  lemma MmapShowsThrough(m: State, p: nat, fds: Option<Index>, d: nat, t: Index, q: nat)
    requires Inv(m) && p < |m.procs| && d < USER_SLOTS && Mapped(m, p, d, t) && FdsOk(m, fds) && Fork(m, p, fds).Some?
    requires q == p || q == |m.procs|
    requires q < |Fork(m, p, fds).value.procs| && MmapPage(Fork(m, p, fds).value, q, d, t).Some?
    ensures var m1, child := Fork(m, p, fds).value, |m.procs|;
            var m2 := MmapPage(m1, q, d, t).value;
            && child < |m2.procs| && Mapped(m2, p, d, t) && Mapped(m2, child, d, t)
            && Pte(m2, p, d, t).frame == Pte(m2, child, d, t).frame && Pte(m2, p, d, t).frame !in m1.marked
            && Pte(m1, p, d, t).frame in m1.marked && Pte(m1, p, d, t).frame == Pte(m1, child, d, t).frame
  {
    var b: Book :| Consistent(m, b);
    var b1 := ForkKeeps(m, b, p, fds);
    assert SameAt(m, Fork(m, p, fds).value, p, d, t);
    SharersLoseTogether(Fork(m, p, fds).value, b1, p, |m.procs|, d, t, q);
  }

  lemma SharersLoseTogether(m: State, b: Book, p: nat, r: nat, d: nat, t: Index, q: nat)
    requires Consistent(m, b) && p < |m.procs| && r < |m.procs| && d < USER_SLOTS && Mapped(m, p, d, t)
    requires Pde(m, r, d) == Pde(m, p, d).(write := false) && (q == p || q == r) && MmapPage(m, q, d, t).Some?
    ensures var m' := MmapPage(m, q, d, t).value;
            && Mapped(m', p, d, t) && Mapped(m', r, d, t)
            && Pte(m', p, d, t).frame == Pte(m', r, d, t).frame && Pte(m', p, d, t).frame !in m.marked
            && Pte(m, p, d, t).frame in m.marked && Pte(m, p, d, t).frame == Pte(m, r, d, t).frame
  {
    var b' := MmapPageKeeps(m, b, q, d, t);
    UserFramesAreMarked(m, b, p, d, t);
    MmapSparesExactly(m, b, q, d, t, p, d, t);
    MmapSparesExactly(m, b, q, d, t, r, d, t);
    assert Pde(MmapPage(m, q, d, t).value, p, d) == Pde(m, p, d)
        && Pde(MmapPage(m, q, d, t).value, r, d) == Pde(m, r, d);
  }

  lemma SharedPageSeesStore(m: State, b: Book, p: nat, q: nat, a: Linear, w: Word)
    requires Consistent(m, b) && p < |m.procs| && q < |m.procs| && a.d < USER_SLOTS && Writable(m, p, a.d, a.t)
    requires Pde(m, q, a.d) == Pde(m, p, a.d).(write := false)
    ensures View(Store(m, p, a, w), q, a.d, a.t) == Some(View(m, p, a.d, a.t).value[a.o := w])
  {
    StoreKeeps(m, b, p, a, w);
    assert Pte(m, q, a.d, a.t) == Pte(m, p, a.d, a.t);
  }

  /** A store is seen by another process exactly when the page it reads there is on the very frame stored to. */
  lemma StoreSeenExactly(m: State, p: nat, a: Linear, w: Word, q: nat, c: nat, u: Index)
    requires Inv(m) && p < |m.procs| && a.d < USER_SLOTS && Writable(m, p, a.d, a.t)
    requires q < |m.procs| && c < USER_SLOTS && Mapped(m, q, c, u) && w != m.mem[Pte(m, p, a.d, a.t).frame][a.o]
    ensures View(Store(m, p, a, w), q, c, u) != View(m, q, c, u) <==> Pte(m, q, c, u).frame == Pte(m, p, a.d, a.t).frame
    ensures Pte(m, q, c, u).frame == Pte(m, p, a.d, a.t).frame && (q, c, u) != (p, a.d, a.t) ==>
            p <= q && !Writable(m, q, c, u)
  {
    var b: Book :| Consistent(m, b);
    StoreKeeps(m, b, p, a, w);
    PageRoles(m, b, q, c, u);
    PageRoles(m, b, p, a.d, a.t);
  }

  // ---- What user mode cannot reach ----

  /** No process reads or writes anything through the kernel's half of its directory. */
  ghost predicate KernelIsClosed(m: State) {
    forall p: nat, a: Linear :: p < |m.procs| && a.d >= USER_SLOTS ==>
      Walk(m.mem, m.procs[p].dir, a, UserRead).None? && Walk(m.mem, m.procs[p].dir, a, UserWrite).None?
  }

  lemma InvClosesKernel(m: State)
    requires Inv(m)
    ensures KernelIsClosed(m)
  {
    var b: Book :| Consistent(m, b);
    forall p: nat, a: Linear | p < |m.procs| && a.d >= USER_SLOTS
      ensures Walk(m.mem, m.procs[p].dir, a, UserRead).None? && Walk(m.mem, m.procs[p].dir, a, UserWrite).None?
    {
      assert ProcOk(m, p);
    }
  }

  /** In every state of every run from boot. */
  lemma EveryRunClosesKernel(states: seq<State>, steps: seq<Step>, i: nat)
    requires IsRun(states, steps) && Boot(states[0]) && i < |states|
    ensures KernelIsClosed(states[i])
  {
    BootInv(states[0]);
    RunKeepsInv(states, steps, i);
    InvClosesKernel(states[i]);
  }

  /**
   Wherever user mode can read, there is a page of user data: no directory, no page table, nothing on the heap and
   nothing of the kernel's own 8 MiB.
   */
  lemma UserModeReachesDataOnly(m: State, p: nat, a: Linear)
    requires Inv(m) && p < |m.procs| && Walk(m.mem, m.procs[p].dir, a, UserRead).Some?
    ensures var f := Walk(m.mem, m.procs[p].dir, a, UserRead).value.frame;
            && a.d < USER_SLOTS && f >= KERNEL_FRAMES && !IsDirectory(m, f) && !OnHeap(m, f) && !IsUserTable(m, f)
  {
    var b: Book :| Consistent(m, b);
    assert ProcOk(m, p);
    var f := Walk(m.mem, m.procs[p].dir, a, UserRead).value.frame;
    PageRoles(m, b, p, a.d, a.t);
    assert MarkOk(m, b, f);
    forall q: nat | q < |m.procs| ensures m.procs[q].dir != f { DirectoryRole(m, b, q); }
    assert IsUserPage(m, f) by { assert Mapped(m, p, a.d, a.t) && Pte(m, p, a.d, a.t).frame == f; }
    FrameRoles(m, f);
  }

  // ---- Frame roles ----

  ghost predicate OnHeap(m: State, f: Frame) { exists s: Index :: m.mem[HEAP_TABLE][s].present && SlotFrame(m, s) == f }

  ghost predicate IsUserTable(m: State, f: Frame) {
    exists p: nat, d: nat :: p < |m.procs| && d < USER_SLOTS && Pde(m, p, d).present && Pde(m, p, d).frame == f
  }

  ghost predicate IsUserPage(m: State, f: Frame) {
    exists p: nat, d: nat, t: Index :: p < |m.procs| && d < USER_SLOTS && Mapped(m, p, d, t)
        && Pte(m, p, d, t).frame == f
  }

  /** Every frame in use has one role, is marked in the bitmap, and lies above the kernel's 8 MiB. */
  lemma FrameRoles(m: State, f: Frame)
    requires Inv(m)
    ensures OnHeap(m, f) ==> !IsUserTable(m, f) && !IsUserPage(m, f)
    ensures IsUserTable(m, f) ==> !IsUserPage(m, f)
    ensures OnHeap(m, f) || IsUserTable(m, f) || IsUserPage(m, f) ==> f in m.marked && f >= KERNEL_FRAMES
    ensures forall r: Index, s: Index ::
              (m.mem[HEAP_TABLE][r].present && m.mem[HEAP_TABLE][s].present && SlotFrame(m, r) == f
                  && SlotFrame(m, s) == f)
              ==> r == s
    ensures f < KERNEL_FRAMES ==> f in m.marked
  {
    var b: Book :| Consistent(m, b);
    assert MarkOk(m, b, f);
    forall s: Index | m.mem[HEAP_TABLE][s].present && SlotFrame(m, s) == f ensures f in b && b[f] == Heap(s) {
      assert SlotOk(m, b, s);
    }
    if IsUserTable(m, f) {
      var p: nat, d: nat :| p < |m.procs| && d < USER_SLOTS && Pde(m, p, d).present && Pde(m, p, d).frame == f;
      PageRoles(m, b, p, d, 0);
    }
    if IsUserPage(m, f) {
      var p: nat, d: nat, t: Index :| p < |m.procs| && d < USER_SLOTS && Mapped(m, p, d, t)
          && Pte(m, p, d, t).frame == f;
      PageRoles(m, b, p, d, t);
    }
  }

  /**
   The handler's "clear from heap" moves frames and loses none: a frame on the heap is still there afterwards or
   is now the faulting page's frame or its table; and those two frames were on the heap or unmarked before,
   never part of anybody's address space.
   */
  lemma CowFaultMovesFrames(m: State, p: nat, d: nat, t: Index, f: Frame)
    requires Inv(m) && p < |m.procs| && d < USER_SLOTS
    requires Mapped(m, p, d, t) && !Writable(m, p, d, t) && CowFault(m, p, d, t).Some?
    ensures var m' := CowFault(m, p, d, t).value;
            var table, page := Pde(m', p, d).frame, Pte(m', p, d, t).frame;
            && (OnHeap(m, f) ==> OnHeap(m', f) || f == page || (f == table && !Pde(m, p, d).write))
            && (f in m.marked ==> f in m'.marked)
            && (f == page || (f == table && !Pde(m, p, d).write) ==>
                  && (OnHeap(m, f) || f !in m.marked)
                  && !OnHeap(m', f) && f in m'.marked)
  {
    var b: Book :| Consistent(m, b);
    var b' := CowFaultKeeps(m, b, p, d, t);
    var m' := CowFault(m, p, d, t).value;
    UnlockedRoles(m, m', b', p, d, t);
    MovedFrame(m, b, m', b', p, d, t, f);
  }

  lemma MovedFrame(m: State, b: Book, m': State, b': Book, p: nat, d: nat, t: Index, f: Frame)
    requires Consistent(m, b) && Consistent(m', b') && p < |m.procs| && m'.procs == m.procs && d < USER_SLOTS
    requires FramesMoved(m, b, m', b', p, d, t)
    requires Owned(b', Pde(m', p, d).frame) && OwnedData(b', Pte(m', p, d, t).frame)
    ensures var table, page := Pde(m', p, d).frame, Pte(m', p, d, t).frame;
            && (OnHeap(m, f) ==> OnHeap(m', f) || f == page || (f == table && !Pde(m, p, d).write))
            && (f in m.marked ==> f in m'.marked)
            && (f == page || (f == table && !Pde(m, p, d).write) ==>
                  && (OnHeap(m, f) || f !in m.marked)
                  && !OnHeap(m', f) && f in m'.marked)
  {
    HeapRole(m, b, f);
    HeapRole(m', b', f);
  }

  /** After the fault the page and its table are user frames in the new ledger. */
  lemma UnlockedRoles(m: State, m': State, b': Book, p: nat, d: nat, t: Index)
    requires Consistent(m', b') && p < |m.procs| && d < USER_SLOTS && OnlyUnlocks(m, m', p, d, t)
    ensures Owned(b', Pde(m', p, d).frame) && OwnedData(b', Pte(m', p, d, t).frame)
  {
    assert Writable(m', p, d, t);
    PageRoles(m', b', p, d, t);
  }

  lemma HeapRole(m: State, b: Book, f: Frame)
    requires Consistent(m, b)
    ensures OnHeap(m, f) <==> f in b && b[f].Heap?
    ensures f in m.marked <==> f < KERNEL_FRAMES || f in b
    ensures f in b ==> KERNEL_FRAMES <= f
  {
    assert AttachedOk(m, b, f) && MarkOk(m, b, f);
    if s: Index :| m.mem[HEAP_TABLE][s].present && SlotFrame(m, s) == f { assert SlotOk(m, b, s); }
  }
}
