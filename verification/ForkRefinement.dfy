/**
 Lazy copying against the memory a reader of fork expects: a process has pages of its own, which change by its
 own stores and by nothing else. That plain memory never mentions frames, tables or write bits.
 */
module ForkRefinement {
  import opened Least
  import opened Words
  import opened Paging
  import opened Machine
  import opened Ledger
  import opened CopyOnWrite
  import opened AddressSpaces
  import opened MemoryRuns

  // ---- Plain memory ----

  /** What a step does to page (d, t) of process p if every process has memory of its own. */
  ghost function PlainStep(page: Option<Page>, step: Step, p: nat, d: nat, t: Index): Option<Page> {
    if step.UserStore? && page.Some? && (step.p, step.a.d, step.a.t) == (p, d, t)
    then Some(page.value[step.a.o := step.w])
    else page
  }

  ghost function PlainRun(page: Option<Page>, steps: seq<Step>, p: nat, d: nat, t: Index): Option<Page> {
    if steps == [] then page
    else PlainStep(PlainRun(page, steps[..|steps| - 1], p, d, t), steps[|steps| - 1], p, d, t)
  }

  // ---- Aliases ----

  /** Within one process a page it can write is on a frame no other page of that process is on. */
  lemma NoAlias(m: State, p: nat, d: nat, t: Index, c: nat, u: Index)
    requires Inv(m) && p < |m.procs| && d < USER_SLOTS && c < USER_SLOTS
    requires Writable(m, p, d, t) && Mapped(m, p, c, u) && Pte(m, p, c, u).frame == Pte(m, p, d, t).frame
    ensures (c, u) == (d, t)
  {
    var b: Book :| Consistent(m, b);
    PageRoles(m, b, p, d, t);
    PageRoles(m, b, p, c, u);
  }

  // ---- One step ----

  /**
   The steps after which page (d, t) of process p is not what p's own stores make of it: a store by an earlier
   process that changes a word of a frame the page shares; an mmap, by anybody, through the page's own table entry;
   and p's exec. Everything else is allowed: other processes' exec, faults, forks, and stores of later processes.
   */
  ghost predicate Disturbs(m: State, step: Step, p: nat, d: nat, t: Index)
    requires Enabled(m, step) && p < |m.procs| && d < USER_SLOTS
  {
    match step
    case UserStore(q, a, w) => SeesStore(m, q, a, w, p, d, t)
    case MmapCall(q, v, n) => Takes(m, q, v, n, p, d, t)
    case ExecCall(q, _) => q == p
    case _ => false
  }

  ghost predicate SeesStore(m: State, q: nat, a: Linear, w: Word, p: nat, d: nat, t: Index)
    requires q < |m.procs| && p < |m.procs| && d < USER_SLOTS
  {
    q < p && Mapped(m, p, d, t) && Pte(m, p, d, t).frame == Pte(m, q, a.d, a.t).frame
        && View(m, p, d, t).value[a.o] != w
  }

  /**
   A store by any process is plain for a page exactly when it does not change a word of a frame the page shares
   with an earlier process.
   */
  lemma PlainExactly(m: State, q: nat, a: Linear, w: Word, p: nat, d: nat, t: Index)
    requires Inv(m) && q < |m.procs| && a.d < USER_SLOTS && Writable(m, q, a.d, a.t) && p < |m.procs| && d < USER_SLOTS
    ensures View(Store(m, q, a, w), p, d, t) == PlainStep(View(m, p, d, t), UserStore(q, a, w), p, d, t)
            <==> !SeesStore(m, q, a, w, p, d, t)
    ensures Writable(Store(m, q, a, w), p, d, t) == Writable(m, p, d, t)
    ensures Writable(m, p, d, t) ==> !SeesStore(m, q, a, w, p, d, t)
  {
    var b: Book :| Consistent(m, b);
    StoreKeeps(m, b, q, a, w);
    var m' := Store(m, q, a, w);
    PageRoles(m, b, p, d, t);
    PageRoles(m, b, q, a.d, a.t);
    if q == p {
      if Mapped(m, p, d, t) && Pte(m, p, d, t).frame == Pte(m, q, a.d, a.t).frame { NoAlias(m, p, a.d, a.t, d, t); }
    } else if p < q {
      assert Untouched(m, m', p);
      assert SameAt(m, m', p, d, t);
    } else if Mapped(m, p, d, t) && Pte(m, p, d, t).frame == Pte(m, q, a.d, a.t).frame {
      var page := View(m, p, d, t).value;
      assert page[a.o := w] == page <==> page[a.o] == w;
    }
  }

  lemma StepIsPlain(m: State, step: Step, p: nat, d: nat, t: Index)
    requires Inv(m) && Enabled(m, step) && Next(m, step).Some? && p < |m.procs| && d < USER_SLOTS
    requires !Disturbs(m, step, p, d, t)
    ensures var m' := Next(m, step).value;
            && p < |m'.procs| && View(m', p, d, t) == PlainStep(View(m, p, d, t), step, p, d, t)
            && (Writable(m, p, d, t) ==> Writable(m', p, d, t))
  {
    if step.UserStore? {
      PlainExactly(m, step.p, step.a, step.w, p, d, t);
    } else if step.MmapCall? {
      var b: Book :| Consistent(m, b);
      MmapTakesExactly(m, b, step.p, step.v, step.n, p, d, t);
    } else {
      OtherStepSpares(m, step, p, d, t);
    }
  }

  // ---- Runs ----

  ghost predicate Undisturbed(states: seq<State>, steps: seq<Step>, p: nat, d: nat, t: Index, i: nat)
    requires IsRun(states, steps) && i < |states| && d < USER_SLOTS
  {
    forall k: nat :: k < i ==> p < |states[k].procs| && !Disturbs(states[k], steps[k], p, d, t)
  }

  /** Every run refines plain memory: until a page is disturbed it reads what its process's own stores made of it. */
  lemma {:induction false} RunIsPlain(states: seq<State>, steps: seq<Step>, p: nat, d: nat, t: Index, i: nat)
    requires IsRun(states, steps) && Inv(states[0]) && i < |states| && p < |states[0].procs| && d < USER_SLOTS
    requires Undisturbed(states, steps, p, d, t, i)
    ensures p < |states[i].procs| && View(states[i], p, d, t) == PlainRun(View(states[0], p, d, t), steps[..i], p, d, t)
    ensures Writable(states[0], p, d, t) ==> Writable(states[i], p, d, t)
    decreases i
  {
    if i > 0 {
      RunIsPlain(states, steps, p, d, t, i - 1);
      RunKeepsInv(states, steps, i - 1);
      RunStep(states, steps, i - 1);
      StepIsPlain(states[i - 1], steps[i - 1], p, d, t);
      PlainOneMore(View(states[0], p, d, t), steps, p, d, t, i);
    }
  }

  lemma PlainOneMore(page: Option<Page>, steps: seq<Step>, p: nat, d: nat, t: Index, i: nat)
    requires 0 < i <= |steps|
    ensures PlainRun(page, steps[..i], p, d, t) ==
            PlainStep(PlainRun(page, steps[..i - 1], p, d, t), steps[i - 1], p, d, t)
  {
    assert steps[..i][..i - 1] == steps[..i - 1];
  }

  /**
   Others map pages through absent or writable directory entries, and process p itself neither maps pages over page
   (d, t) nor starts a program.
   */
  ghost predicate ConsiderateStep(m: State, step: Step, p: nat, d: nat, t: Index)
    requires Enabled(m, step) && p < |m.procs| && d < USER_SLOTS
  {
    match step
    case MmapCall(q, v, n) => if q == p then !TakesPage(m, step, p, d, t) else PrivateRange(m, q, v, n)
    case ExecCall(q, _) => q != p
    case _ => true
  }

  ghost predicate Considerate(states: seq<State>, steps: seq<Step>, p: nat, d: nat, t: Index, i: nat)
    requires IsRun(states, steps) && i < |states| && d < USER_SLOTS
  {
    forall k: nat :: k < i ==> p < |states[k].procs| && ConsiderateStep(states[k], steps[k], p, d, t)
  }

  /** A page a process can write is never disturbed from outside, so it is plain whatever other processes store. */
  lemma {:induction false} WritablePagesArePlain(states: seq<State>, steps: seq<Step>, p: nat, d: nat, t: Index, i: nat)
    requires IsRun(states, steps) && Inv(states[0]) && i < |states| && p < |states[0].procs| && d < USER_SLOTS
    requires Writable(states[0], p, d, t) && Considerate(states, steps, p, d, t, i)
    ensures Undisturbed(states, steps, p, d, t, i) && p < |states[i].procs| && Writable(states[i], p, d, t)
    ensures View(states[i], p, d, t) == PlainRun(View(states[0], p, d, t), steps[..i], p, d, t)
    decreases i
  {
    if i > 0 {
      WritablePagesArePlain(states, steps, p, d, t, i - 1);
      RunKeepsInv(states, steps, i - 1);
      RunStep(states, steps, i - 1);
      WritableIsUndisturbed(states[i - 1], steps[i - 1], p, d, t);
    }
    RunIsPlain(states, steps, p, d, t, i);
  }

  lemma WritableIsUndisturbed(m: State, step: Step, p: nat, d: nat, t: Index)
    requires Inv(m) && Enabled(m, step) && p < |m.procs| && d < USER_SLOTS && Writable(m, p, d, t)
    requires ConsiderateStep(m, step, p, d, t)
    ensures !Disturbs(m, step, p, d, t)
  {
    if step.UserStore? {
      PlainExactly(m, step.p, step.a, step.w, p, d, t);
    } else if step.MmapCall? && step.p != p {
      PrivateMmapTakesNone(m, step, p, d, t);
    }
  }

  /**
   Lazy fork is an eager copy: from the fork on, parent and child each read the page the parent had at the fork
   with their own stores applied, as long as the page is not disturbed.
   */
  lemma ForkIsACopy(m: State, p: nat, fds: Option<Index>, states: seq<State>, steps: seq<Step>,
                    d: nat, t: Index, i: nat)
    requires IsRun(states, steps) && i < |states|
    requires Inv(m) && p < |m.procs| && FdsOk(m, fds) && Fork(m, p, fds) == Some(states[0]) && d < USER_SLOTS
    requires Undisturbed(states, steps, p, d, t, i) && Undisturbed(states, steps, |m.procs|, d, t, i)
    ensures var child, page := |m.procs|, View(m, p, d, t);
            && child < |states[i].procs|
            && View(states[i], p, d, t) == PlainRun(page, steps[..i], p, d, t)
            && View(states[i], child, d, t) == PlainRun(page, steps[..i], child, d, t)
  {
    var b: Book :| Consistent(m, b);
    var b' := ForkKeeps(m, b, p, fds);
    assert SameAt(m, states[0], p, d, t);
    RunIsPlain(states, steps, p, d, t, i);
    RunIsPlain(states, steps, |m.procs|, d, t, i);
  }

  // ---- What single operations do, for any state a run reaches ----

  /** The copy-on-write fault is invisible and makes progress. */
  lemma FaultIsInvisible(m: State, p: nat, d: nat, t: Index)
    requires Inv(m) && p < |m.procs| && d < USER_SLOTS
    requires Mapped(m, p, d, t) && !Writable(m, p, d, t) && CowFault(m, p, d, t).Some?
    ensures var m' := CowFault(m, p, d, t).value;
            && Inv(m') && OnlyUnlocks(m, m', p, d, t)
            && ReadOnlyPages(m', p) == ReadOnlyPages(m, p) - {(d, t)}
            && |ReadOnlyPages(m', p)| == |ReadOnlyPages(m, p)| - 1
  {
    var b: Book :| Consistent(m, b);
    var b' := CowFaultKeeps(m, b, p, d, t);
    CowFaultProgress(m, b, p, d, t);
  }

  /** Right after fork the child reads all its parent reads and can write none of it; nobody else notices. */
  lemma ForkShares(m: State, p: nat, fds: Option<Index>)
    requires Inv(m) && p < |m.procs| && FdsOk(m, fds) && Fork(m, p, fds).Some?
    ensures var m' := Fork(m, p, fds).value; Inv(m') && SameUser(m, m') && IsChild(m, m', p)
  {
    var b: Book :| Consistent(m, b);
    var b' := ForkKeeps(m, b, p, fds);
  }

  /**
   After exec the process has its program pages and its stack page, all private, and nothing of its old memory; no
   page of any other process has changed, the ones it shared with this process included.
   */
  lemma ExecMapsExactly(m: State, p: nat, n: nat)
    requires Inv(m) && p < |m.procs| && n <= USER_SLOTS * 1024 && Exec(m, p, n).Some?
    ensures var m' := Exec(m, p, n).value;
            && Inv(m') && OthersUntouched(m, m', p) && p < |m'.procs| && ReadOnlyPages(m', p) == {}
            && (forall c: nat, u: Index :: c < USER_SLOTS ==>
                  (Mapped(m', p, c, u) <==> PageNumber(c, u) < n || PageNumber(c, u) == 0xbffff))
  {
    var b: Book :| Consistent(m, b);
    var b' := ExecKeeps(m, b, p, n);
  }
}
