/**
 switch_kstack: six registers are pushed on the running process's kernel stack, the stack pointer is stored in
 its record, and the same is undone on the stack of the next process. Memory is in words and stacks grow down.
 Processes are numbered; record p's stack_pointer field is saved[p] and its kernel stack is the page at bases[p].
 */
module ContextSwitch {

  const STACK: nat := 1024
  /** Words of an interrupt frame (isr_stack_t) and of a switch frame (kstack_t). */
  const ISR_WORDS: nat := 15
  const FRAME: nat := 7
  const EAX: nat := 7
  const EFLAGS: nat := 12

  datatype Registers = Registers(ecx: nat, edx: nat, ebx: nat, esi: nat, edi: nat, ebp: nat)

  datatype State = State(mem: seq<nat>, regs: Registers, esp: nat, eip: nat,
                         saved: seq<nat>, bases: seq<nat>, running: nat)

  // ---- The switch ----

  function Pushed(mem: seq<nat>, esp: nat, r: Registers): seq<nat>
    requires 6 <= esp <= |mem|
  {
    mem[esp - 1 := r.ebp][esp - 2 := r.edi][esp - 3 := r.esi][esp - 4 := r.ebx][esp - 5 := r.edx][esp - 6 := r.ecx]
  }

  function FrameAt(mem: seq<nat>, sp: nat): Registers
    requires sp + 6 <= |mem|
  {
    Registers(mem[sp], mem[sp + 1], mem[sp + 2], mem[sp + 3], mem[sp + 4], mem[sp + 5])
  }

  /**
   The call switch_kstack(&old->stack_pointer, next->stack_pointer): the return address and the two arguments are on
   the stack, and the second argument was read before the call. The running process is old.
   */
  ghost predicate AtCall(s: State, next: nat, ret: nat) {
    && |s.saved| == |s.bases| && s.running < |s.saved| && next < |s.saved|
    && 6 <= s.esp && s.esp + 3 <= |s.mem|
    && s.mem[s.esp] == ret && s.mem[s.esp + 1] == s.running && s.mem[s.esp + 2] == s.saved[next]
    && s.saved[next] + FRAME <= |s.mem|
  }

  ghost function Switch(s: State, next: nat, ret: nat): State
    requires AtCall(s, next, ret)
  {
    var mem := Pushed(s.mem, s.esp, s.regs);
    var sp := s.saved[next];
    State(mem, FrameAt(mem, sp), sp + FRAME, mem[sp + 6], s.saved[s.running := s.esp - 6], s.bases, next)
  }

  /** The routine instruction by instruction. */
  class Cpu {
    const mem: array<nat>
    var regs: Registers
    var esp: nat
    var eip: nat
    const saved: array<nat>

    constructor (words: array<nat>, records: array<nat>)
      ensures mem == words && saved == records && esp == 0 && eip == 0 && regs == Registers(0, 0, 0, 0, 0, 0)
    {
      mem, saved, esp, eip, regs := words, records, 0, 0, Registers(0, 0, 0, 0, 0, 0);
    }

    method Push(x: nat)
      requires 1 <= esp <= mem.Length
      modifies this`esp, mem
      ensures esp == old(esp) - 1 && mem[..] == old(mem[..])[esp := x]
    {
      esp := esp - 1;
      mem[esp] := x;
    }

    method Pop() returns (x: nat)
      requires esp < mem.Length
      modifies this`esp
      ensures esp == old(esp) + 1 && x == mem[old(esp)]
    {
      x := mem[esp];
      esp := esp + 1;
    }

    method PushContext()
      requires 6 <= esp <= mem.Length
      modifies this`esp, mem
      ensures esp == old(esp) - 6 && mem[..] == Pushed(old(mem[..]), old(esp), regs)
    {
      Push(regs.ebp);
      Push(regs.edi);
      Push(regs.esi);
      Push(regs.ebx);
      Push(regs.edx);
      Push(regs.ecx);
    }

    /** Pop the six registers and return. */
    method PopContext()
      requires esp + FRAME <= mem.Length
      modifies this`esp, this`eip, this`regs
      ensures regs == FrameAt(mem[..], old(esp)) && eip == mem[old(esp) + 6] && esp == old(esp) + FRAME
    {
      var ecx := Pop();
      var edx := Pop();
      var ebx := Pop();
      var esi := Pop();
      var edi := Pop();
      var ebp := Pop();
      regs := Registers(ecx, edx, ebx, esi, edi, ebp);
      eip := Pop();
    }

    method SwitchKstack(ghost s: State, ghost next: nat, ghost ret: nat)
      requires mem != saved && AtCall(s, next, ret)
      requires mem[..] == s.mem && saved[..] == s.saved && regs == s.regs && esp == s.esp
      modifies this`esp, this`eip, this`regs, mem, saved
      ensures var s' := Switch(s, next, ret);
              mem[..] == s'.mem && saved[..] == s'.saved && regs == s'.regs && esp == s'.esp && eip == s'.eip
    {
      PushContext();
      PushedAbove(s.mem, s.esp, s.regs);
      assert mem[esp + 7] == mem[..][esp + 7] && mem[esp + 8] == mem[..][esp + 8];
      var eax := mem[esp + 7];
      saved[eax] := esp;
      assert saved[..] == s.saved[s.running := s.esp - 6];
      esp := mem[esp + 8];
      PopContext();
    }
  }

  lemma PushedAbove(mem: seq<nat>, esp: nat, r: Registers)
    requires 6 <= esp <= |mem|
    ensures |Pushed(mem, esp, r)| == |mem| && forall x: nat :: esp <= x < |mem| ==> Pushed(mem, esp, r)[x] == mem[x]
  {
  }

  // ---- Runs ----

  datatype Step =
    | Work(mem: seq<nat>, regs: Registers, esp: nat, eip: nat)   // the running process computes and moves its stack
    | SwitchTo(next: nat, ret: nat)
    | Spawn(base: nat, frame: seq<nat>)                          // fork: a new record and kernel stack

  ghost predicate InStack(s: State, p: nat, x: nat)
    requires p < |s.bases|
  {
    s.bases[p] <= x < s.bases[p] + STACK
  }

  /** Kernel stacks are separate pages. */
  ghost predicate StacksApart(s: State) {
    && |s.saved| == |s.bases| && s.running < |s.bases|
    && (forall p: nat :: p < |s.bases| ==> s.bases[p] + STACK <= |s.mem|)
    && (forall p: nat, q: nat :: p < q < |s.bases| ==> Apart(s.bases[p], s.bases[q]))
  }

  predicate Apart(a: nat, b: nat) { a + STACK <= b || b + STACK <= a }

  /** The running process leaves the kernel stacks of the others alone and keeps its stack pointer in its own. */
  ghost predicate Enabled(s: State, step: Step) {
    StacksApart(s) &&
    match step
    case Work(mem, _, esp, _) =>
      && |mem| == |s.mem|
      && s.bases[s.running] + FRAME <= esp <= s.bases[s.running] + STACK - 3
      && (forall p: nat, x: nat :: p < |s.bases| && p != s.running && InStack(s, p, x) ==> mem[x] == s.mem[x])
    case SwitchTo(next, ret) =>
      && AtCall(s, next, ret) && s.bases[s.running] + FRAME <= s.esp
      && s.esp + 3 <= s.bases[s.running] + STACK
    case Spawn(base, frame) =>
      && base + STACK <= |s.mem| && |frame| == ISR_WORDS
      && (forall p: nat :: p < |s.bases| ==> Apart(s.bases[p], base))
  }

  ghost function Next(s: State, step: Step): State
    requires Enabled(s, step)
  {
    match step
    case Work(mem, regs, esp, eip) => s.(mem := mem, regs := regs, esp := esp, eip := eip)
    case SwitchTo(next, ret) => Switch(s, next, ret)
    case Spawn(base, frame) =>
      s.(mem := InitKstack(s.mem, base, frame), saved := s.saved + [base + STACK - 1 - ISR_WORDS - FRAME],
          bases := s.bases + [base])
  }

  /** Where firstret is; the value is of no consequence. */
  const FIRSTRET: nat := 1

  /** init_kstack: the interrupt frame one word below the top of the page, the switch frame just below it. */
  function InitKstack(mem: seq<nat>, base: nat, frame: seq<nat>): (r: seq<nat>)
    requires base + STACK <= |mem| && |frame| == ISR_WORDS
    ensures |r| == |mem|
  {
    var f := base + STACK - 1 - ISR_WORDS;
    var k := f - FRAME;
    var m := mem[..f] + frame + mem[f + ISR_WORDS..];
    m[k + 6 := FIRSTRET][k + 5 := 0xb][k + 4 := 0xe][k := 0xc]
  }

  /** fork's copy of the parent's interrupt frame. */
  function ChildFrame(parent: seq<nat>): seq<nat>
    requires |parent| == ISR_WORDS
  {
    parent[EFLAGS := 0x282][EAX := 0]
  }

  lemma StepKeepsStacks(s: State, step: Step)
    requires Enabled(s, step)
    ensures StacksApart(Next(s, step))
  {
  }

  /** While process p is switched out, its saved stack pointer and its stack do not change. */
  lemma StepSparesStack(s: State, step: Step, p: nat)
    requires Enabled(s, step) && p < |s.bases| && p != s.running
    ensures var s' := Next(s, step);
            && |s'.mem| == |s.mem| && p < |s'.bases| && s'.bases[p] == s.bases[p] && s'.saved[p] == s.saved[p]
            && (forall x: nat :: InStack(s, p, x) ==> s'.mem[x] == s.mem[x])
  {
    assert p < s.running ==> Apart(s.bases[p], s.bases[s.running]);
    assert s.running < p ==> Apart(s.bases[s.running], s.bases[p]);
    if step.Spawn? { assert Apart(s.bases[p], step.base); }
  }

  ghost predicate IsRun(states: seq<State>, steps: seq<Step>) {
    && |states| == |steps| + 1
    && (forall i: nat :: i < |steps| ==> RunStep(states[i], steps[i], states[i + 1]))
  }

  ghost predicate RunStep(s: State, step: Step, s': State) { Enabled(s, step) && s' == Next(s, step) }

  /** Over any stretch of a run without a switch to p. */
  lemma {:induction false} StaysParked(states: seq<State>, steps: seq<Step>, i: nat, j: nat, p: nat)
    requires IsRun(states, steps) && i <= j < |states| && p < |states[i].bases| && states[i].running != p
    requires |states[i].saved| == |states[i].bases| && states[i].bases[p] + STACK <= |states[i].mem|
    requires forall k: nat :: i <= k < j ==> !(steps[k].SwitchTo? && steps[k].next == p)
    ensures var a, b := states[i], states[j];
            && |b.mem| == |a.mem| && p < |b.bases| == |b.saved| && b.running != p
            && b.bases[p] == a.bases[p] && b.saved[p] == a.saved[p]
            && (forall x: nat :: InStack(a, p, x) ==> b.mem[x] == a.mem[x])
    decreases j
  {
    if i < j {
      StaysParked(states, steps, i, j - 1, p);
      assert RunStep(states[j - 1], steps[j - 1], states[j - 1 + 1]);
      StepSparesStack(states[j - 1], steps[j - 1], p);
      StepKeepsStacks(states[j - 1], steps[j - 1]);
    }
  }

  /** What a switch away from p leaves on its stack. */
  lemma SwitchParks(s: State, next: nat, ret: nat)
    requires Enabled(s, SwitchTo(next, ret)) && next != s.running
    ensures var s', p := Switch(s, next, ret), s.running;
            && s'.saved[p] == s.esp - 6 && s'.running != p
            && s.bases[p] <= s'.saved[p] && s'.saved[p] + FRAME <= s.bases[p] + STACK
            && FrameAt(s'.mem, s'.saved[p]) == s.regs && s'.mem[s'.saved[p] + 6] == ret
  {
  }

  /**
   Under any interleaving: a process switched out at step i and next switched to at step j resumes with the six
   registers it had, its stack pointer just above the return address, and at the return address.
   */
  lemma ResumesAsLeft(states: seq<State>, steps: seq<Step>, i: nat, j: nat)
    requires IsRun(states, steps) && i < j < |steps|
    requires steps[i].SwitchTo? && steps[i].next != states[i].running
    requires steps[j].SwitchTo? && steps[j].next == states[i].running
    requires forall k: nat :: i < k < j ==> !(steps[k].SwitchTo? && steps[k].next == states[i].running)
    ensures states[j + 1].regs == states[i].regs && states[j + 1].esp == states[i].esp + 1
    ensures states[j + 1].eip == steps[i].ret && states[j + 1].running == states[i].running
  {
    assert RunStep(states[i], steps[i], states[i + 1]) && RunStep(states[j], steps[j], states[j + 1]);
    StepKeepsStacks(states[i], steps[i]);
    StaysParked(states, steps, i + 1, j, states[i].running);
    SwitchBack(states[i], steps[i].next, steps[i].ret, states[j], steps[j].ret);
  }

  /** Away from s, and back in a state b that has left the stack and the record alone. */
  lemma SwitchBack(s: State, next: nat, ret: nat, b: State, ret': nat)
    requires Enabled(s, SwitchTo(next, ret)) && next != s.running
    requires Enabled(b, SwitchTo(s.running, ret')) && b.running != s.running
    requires var a, p := Switch(s, next, ret), s.running;
             && |b.mem| == |a.mem| && b.bases[p] == a.bases[p] && b.saved[p] == a.saved[p]
             && (forall x: nat :: InStack(a, p, x) ==> b.mem[x] == a.mem[x])
    ensures var s' := Switch(b, s.running, ret');
            s'.regs == s.regs && s'.esp == s.esp + 1 && s'.eip == ret && s'.running == s.running
  {
    SwitchParks(s, next, ret);
    ResumeFrom(Switch(s, next, ret), b, s.running, ret');
  }

  /** A process parked in state a, and switched to in a state b that has left its stack and its record alone. */
  lemma ResumeFrom(a: State, b: State, p: nat, ret: nat)
    requires p < |a.bases| == |a.saved| && a.bases[p] + STACK <= |a.mem|
    requires a.bases[p] <= a.saved[p] && a.saved[p] + FRAME <= a.bases[p] + STACK
    requires Enabled(b, SwitchTo(p, ret)) && b.running != p
    requires |b.mem| == |a.mem| && b.bases[p] == a.bases[p] && b.saved[p] == a.saved[p]
    requires forall x: nat :: InStack(a, p, x) ==> b.mem[x] == a.mem[x]
    ensures var s', sp := Switch(b, p, ret), a.saved[p];
            && s'.regs == FrameAt(a.mem, sp) && s'.eip == a.mem[sp + 6] && s'.esp == sp + FRAME && s'.running == p
            && |s'.mem| == |a.mem| && (forall x: nat :: InStack(a, p, x) ==> s'.mem[x] == a.mem[x])
  {
    SameFrame(a, b, p, a.saved[p]);
    SwitchInto(b, p, ret);
  }

  lemma SameFrame(a: State, b: State, p: nat, sp: nat)
    requires p < |a.bases| && |a.mem| == |b.mem| && a.bases[p] + STACK <= |a.mem|
    requires a.bases[p] <= sp && sp + FRAME <= a.bases[p] + STACK
    requires forall x: nat :: InStack(a, p, x) ==> b.mem[x] == a.mem[x]
    ensures FrameAt(b.mem, sp) == FrameAt(a.mem, sp) && b.mem[sp + 6] == a.mem[sp + 6]
  {
    assert forall x: nat :: sp <= x < sp + FRAME ==> InStack(a, p, x);
  }

  /** A switch to another process reads its frame from below its own stack's words, which the pushes do not reach. */
  lemma SwitchInto(s: State, next: nat, ret: nat)
    requires Enabled(s, SwitchTo(next, ret)) && next != s.running
    requires s.bases[next] <= s.saved[next] && s.saved[next] + FRAME <= s.bases[next] + STACK
    ensures var s', sp := Switch(s, next, ret), s.saved[next];
            s'.regs == FrameAt(s.mem, sp) && s'.eip == s.mem[sp + 6] && s'.esp == sp + FRAME
            && forall x: nat :: InStack(s, next, x) ==> s'.mem[x] == s.mem[x]
  {
    assert next < s.running ==> Apart(s.bases[next], s.bases[s.running]);
    assert s.running < next ==> Apart(s.bases[s.running], s.bases[next]);
  }

  /**
   A forked child first resumes at firstret with the stack pointer on its interrupt frame, which is the parent's
   with eax zero and eflags 0x282.
   */
  lemma ChildStartsAtFirstret(states: seq<State>, steps: seq<Step>, i: nat, j: nat, parent: seq<nat>)
    requires IsRun(states, steps) && i < j < |steps| && |parent| == ISR_WORDS
    requires steps[i].Spawn? && steps[i].frame == ChildFrame(parent)
    requires var child := |states[i].bases|;
             && steps[j].SwitchTo? && steps[j].next == child
             && (forall k: nat :: i < k < j ==> !(steps[k].SwitchTo? && steps[k].next == child))
    ensures var s := states[j + 1];
            && s.eip == FIRSTRET && s.esp == steps[i].base + STACK - 1 - ISR_WORDS
            && s.esp + ISR_WORDS <= |s.mem|
            && s.mem[s.esp..s.esp + ISR_WORDS] == parent[EFLAGS := 0x282][EAX := 0]
  {
    var child, base := |states[i].bases|, steps[i].base;
    assert RunStep(states[i], steps[i], states[i + 1]) && RunStep(states[j], steps[j], states[j + 1]);
    StepKeepsStacks(states[i], steps[i]);
    StaysParked(states, steps, i + 1, j, child);
    InitialFrames(states[i].mem, base, steps[i].frame);
    ResumeFrom(states[i + 1], states[j], child, steps[j].ret);
    SameWords(states[i + 1], states[j + 1].mem, child, base + STACK - 1 - ISR_WORDS);
  }

  lemma InitialFrames(mem: seq<nat>, base: nat, frame: seq<nat>)
    requires base + STACK <= |mem| && |frame| == ISR_WORDS
    ensures var f, m := base + STACK - 1 - ISR_WORDS, InitKstack(mem, base, frame);
            m[f..f + ISR_WORDS] == frame && m[f - 1] == FIRSTRET
  {
  }

  lemma SameWords(a: State, mem: seq<nat>, p: nat, f: nat)
    requires p < |a.bases| && a.bases[p] <= f && f + ISR_WORDS <= a.bases[p] + STACK <= |a.mem| == |mem|
    requires forall x: nat :: InStack(a, p, x) ==> mem[x] == a.mem[x]
    ensures mem[f..f + ISR_WORDS] == a.mem[f..f + ISR_WORDS]
  {
    assert forall x: nat :: f <= x < f + ISR_WORDS ==> InStack(a, p, x);
  }

  /**
   A switch of a process to itself, which happens when idle is the only ready process: the argument still holds
   the stack pointer stored the last time, so the process carries on where it was if and only if it is at the
   same stack depth as then.
   */
  lemma SelfSwitchExactly(s: State, ret: nat)
    requires AtCall(s, s.running, ret)
    ensures Switch(s, s.running, ret).esp == s.esp + 1 <==> s.saved[s.running] == s.esp - 6
    ensures s.saved[s.running] == s.esp - 6 ==>
            Switch(s, s.running, ret).regs == s.regs && Switch(s, s.running, ret).eip == ret
  {
  }

  /** From one switch by process p to the next, its record holds the stack pointer of the first. */
  lemma {:induction false} SavedSince(states: seq<State>, steps: seq<Step>, j: nat, i: nat, p: nat)
    requires IsRun(states, steps) && j < i < |states| && p == states[j].running && steps[j].SwitchTo?
    requires forall k: nat :: j < k < i ==> !(steps[k].SwitchTo? && states[k].running == p)
    ensures p < |states[i].saved| && states[i].saved[p] == states[j].esp - 6
    decreases i
  {
    assert RunStep(states[i - 1], steps[i - 1], states[i - 1 + 1]);
    if j < i - 1 { SavedSince(states, steps, j, i - 1, p); }
  }

  /**
   In every run: a process that is switched to itself carries on where it was, with its registers, if and only if
   it called the switch at the stack depth it last called it at.
   */
  lemma SelfSwitchInRun(states: seq<State>, steps: seq<Step>, j: nat, i: nat)
    requires IsRun(states, steps) && j < i < |steps| && steps[j].SwitchTo? && states[j].running == states[i].running
    requires steps[i].SwitchTo? && steps[i].next == states[i].running
    requires forall k: nat :: j < k < i ==> !(steps[k].SwitchTo? && states[k].running == states[i].running)
    ensures states[i + 1].esp == states[i].esp + 1 <==> states[i].esp == states[j].esp
    ensures states[i].esp == states[j].esp ==> states[i + 1].regs == states[i].regs && states[i + 1].eip == steps[i].ret
  {
    SavedSince(states, steps, j, i, states[i].running);
    assert RunStep(states[i], steps[i], states[i + 1]);
    SelfSwitchExactly(states[i], steps[i].ret);
  }

  /** One process, alone with its stack, about to call the switch at word 100. */
  function AloneAtCall(): State {
    var mem := seq(STACK, _ => 0)[102 := 94];
    State(mem, Registers(0, 0, 0, 0, 0, 0), 100, 0, [94], [0], 0)
  }

  /** The process is switched to itself, moves its stack to word 200 and calls the switch again: it is back at 101. */
  lemma StraySelfSwitchIsReachable() returns (states: seq<State>, steps: seq<Step>)
    ensures IsRun(states, steps) && |steps| == 3 && steps[0] == steps[2] == SwitchTo(0, 0) && steps[1].Work?
    ensures states[0].running == states[2].running == 0
    ensures states[3].esp != states[2].esp + 1
  {
    var s0 := AloneAtCall();
    var s1 := Next(s0, SwitchTo(0, 0));
    var work := Work(s1.mem[202 := 94], s1.regs, 200, 0);
    var s2 := Next(s1, work);
    var s3 := Next(s2, SwitchTo(0, 0));
    states, steps := [s0, s1, s2, s3], [SwitchTo(0, 0), work, SwitchTo(0, 0)];
    assert RunStep(s0, steps[0], s1) && RunStep(s1, steps[1], s2) && RunStep(s2, steps[2], s3);
  }
}
