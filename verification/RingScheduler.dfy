/** The scheduler's linked ring and the terminal's pointer queue as the kernel updates them in place. */
module RingScheduler {
  import opened Scheduling

  class Process {
    var ready: bool
    var next: Process

    constructor ()
      ensures !ready && next == this
    {
      ready := false;
      next := this;
    }
  }

  /** The process after index i of a ring. */
  function Successor(ring: seq<Process>, i: nat): Process
    requires i < |ring|
  {
    if i + 1 < |ring| then ring[i + 1] else ring[0]
  }

  ghost predicate LinkOk(ring: seq<Process>, i: nat)
    requires i < |ring|
    reads ring
  {
    ring[i].next == Successor(ring, i)
  }

  /** The next links of the processes close the ring in order. */
  ghost predicate Linked(ring: seq<Process>)
    reads ring
  {
    |ring| > 0 && Distinct(ring) && forall i: nat :: i < |ring| ==> LinkOk(ring, i)
  }

  ghost function ReadyIn(ring: seq<Process>): set<Process>
    reads ring
  {
    set p | p in ring && p.ready
  }

  lemma RotateLinked(ring: seq<Process>, d: nat)
    requires Linked(ring) && d <= |ring|
    ensures Linked(Rotate(ring, d)) && ReadyIn(Rotate(ring, d)) == ReadyIn(ring)
  {
    RotateMembers(ring, d);
    var r := Rotate(ring, d);
    forall i: nat | i < |r| ensures LinkOk(r, i) {
      var a := if i < |ring| - d then i + d else i - (|ring| - d);
      assert r[i] == ring[a] && LinkOk(ring, a);
    }
  }

  /** Changing states leaves the links in place. */
  twostate lemma LinksKept(ring: seq<Process>)
    requires old(Linked(ring)) && forall p :: p in ring ==> p.next == old(p.next)
    ensures Linked(ring)
  {
    forall i: nat | i < |ring| ensures LinkOk(ring, i) { assert old(LinkOk(ring, i)); }
  }

  /** Turning the ring keeps its members and so the set of ready ones. */
  lemma RotateReady(ring: seq<Process>, d: nat)
    requires d <= |ring| && Distinct(ring)
    ensures forall p :: p in Rotate(ring, d) <==> p in ring
    ensures ReadyIn(Rotate(ring, d)) == ReadyIn(ring)
  {
    RotateMembers(ring, d);
  }

  lemma FirstReady(ring: seq<Process>, d: nat)
    requires 1 <= d <= |ring| && (forall i: nat :: 1 <= i < d ==> !ring[i].ready) && (d < |ring| ==> ring[d].ready)
    ensures NextReady(ring, ReadyIn(ring), 1) == d
  {
    var n := NextReady(ring, ReadyIn(ring), 1);
    assert !(n < d) && !(d < n);
  }

  class Scheduler {
    const idle: Process
    var active: Process
    ghost var ring: seq<Process>
    const queue: array<Process>
    var head: nat
    var tail: nat

    ghost predicate Shape()
      reads this, ring, queue
    {
      && Linked(ring) && ring[0] == active && idle in ring
      && queue.Length == QUEUE_SIZE && head <= tail <= QUEUE_SIZE
    }

    ghost function View(): System<Process>
      requires Shape()
      reads this, ring, queue
    {
      System(idle, ring, ReadyIn(ring), queue[..tail], head)
    }

    ghost predicate Valid()
      reads this, ring, queue
    {
      Shape() && Inv(View())
    }

    /** init_scheduler, init_proc and init_terminal: idle and the first process in the ring, nobody waiting. */
    constructor ()
      ensures Valid() && |ring| == 2 && ring[0] == idle && tail == 0
      ensures fresh(ring[0]) && fresh(ring[1]) && fresh(queue)
    {
      var i := new Process();
      var first := new Process();
      i.ready := true;
      first.ready := true;
      i.next := first;
      first.next := i;
      idle, active, ring := i, i, [i, first];
      queue := new Process[QUEUE_SIZE](_ => i);
      head, tail := 0, 0;
      new;
      assert ring[1] == first;
    }

    /** The do-while loop of scheduler(): it ends because idle is ready and in the ring. */
    method Search() returns (p: Process, ghost d: nat)
      requires Shape() && idle.ready
      ensures 1 <= d <= |ring| && p == (if d < |ring| then ring[d] else ring[0])
      ensures NextReady(ring, ReadyIn(ring), 1) == d
      ensures p == Scheduling.Schedule(View()).ring[0]
    {
      ghost var at: nat :| at < |ring| && ring[at] == idle;
      d := 1;
      assert LinkOk(ring, 0);
      p := active.next;
      while !p.ready
        invariant 1 <= d <= |ring| && p == (if d < |ring| then ring[d] else ring[0])
        invariant forall i: nat :: 1 <= i < d ==> !ring[i].ready
        decreases |ring| - d
      {
        assert d < |ring| && LinkOk(ring, d);
        p := p.next;
        d := d + 1;
      }
      FirstReady(ring, d);
    }

    /** scheduler(): the first ready process after the running one runs. */
    method Schedule()
      requires Shape() && idle.ready
      modifies this`active, this`ring
      ensures Shape() && View() == Scheduling.Schedule(old(View()))
    {
      ghost var s, d := View(), 0;
      active, d := Search();
      RotateLinked(ring, d);
      RotateReady(ring, d);
      ghost var r := Rotate(ring, d);
      assert r[0] == active && idle in r;
      ring := r;
      assert View() == s.(ring := r);
    }

    /** block(): the running process waits and another runs. */
    method Block()
      requires Shape() && idle.ready && active != idle
      modifies this`active, this`ring, active`ready
      ensures Shape()
      ensures View() == Scheduling.Schedule(old(View()).(ready := old(View()).ready - {old(active)}))
    {
      ghost var s := View();
      active.ready := false;
      LinksKept(ring);
      assert View() == s.(ready := s.ready - {active});
      Schedule();
    }

    method Unblock(p: Process)
      requires Shape() && p in ring
      modifies p`ready
      ensures Shape() && View() == old(View()).(ready := old(View()).ready + {p})
    {
      ghost var s := View();
      p.ready := true;
      LinksKept(ring);
      assert ReadyIn(ring) == s.ready + {p};
    }

    /** Adding the running process at the tail of the queue. */
    method Enqueue()
      requires Shape() && tail < QUEUE_SIZE
      modifies this`tail, queue
      ensures Shape() && View() == old(View()).(queue := old(View()).queue + [active])
    {
      ghost var entries := queue[..tail];
      queue[tail] := active;
      tail := tail + 1;
      assert queue[..tail] == entries + [active];
    }

    /** sendbuffer() up to the switch to another process. */
    method SendBuffer()
      requires Valid() && active != idle && tail < QUEUE_SIZE
      modifies this`active, this`ring, this`tail, active`ready, queue
      ensures Valid() && View() == Scheduling.Read(old(View()))
    {
      ghost var s := View();
      ReadKeeps(s);
      Enqueue();
      Block();
    }

    method CompleteBuffer()
      requires Valid()
      modifies this`head, ring`ready
      ensures Valid() && View() == Scheduling.Enter(old(View()))
    {
      ghost var s := View();
      EnterKeeps(s);
      if head == tail { return; }
      assert Waiting(s)[0] == queue[head];
      Unblock(queue[head]);
      head := head + 1;
    }

    /** fork()'s effect on the ring. */
    method Fork(child: Process)
      requires Valid() && child !in ring
      modifies this`ring, child, active`next
      ensures Valid() && View() == Scheduling.Fork(old(View()), child)
    {
      ghost var s := View();
      ForkKeeps(s, child);
      assert LinkOk(ring, 0);
      child.ready := active.ready;
      child.next := active.next;
      active.next := child;
      ring := [ring[0], child] + ring[1..];
      forall i: nat | i < |ring| ensures LinkOk(ring, i) {
        if i >= 2 { assert ring[i] == s.ring[i - 1] && old(LinkOk(s.ring, i - 1)); }
      }
    }

    /** The timer interrupt. */
    method Tick()
      requires Valid()
      modifies this`active, this`ring
      ensures Valid() && View() == Scheduling.Schedule(old(View()))
    {
      TickKeeps(View());
      Schedule();
    }
  }
}
