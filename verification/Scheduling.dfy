/**
 The scheduler's ring and the terminal's queue of waiting readers. The ring is written from the running process
 on, so a process at index d is d links away. Every gate is an interrupt gate, so each operation is one step.
 */
module Scheduling {

  /** A queue page holds this many process pointers; the tail never moves back. */
  const QUEUE_SIZE: nat := 1024

  datatype System<T> = System(idle: T, ring: seq<T>, ready: set<T>, queue: seq<T>, head: nat)

  // ---- The operations ----

  /** Links to follow from the running process to the first ready one after position d. */
  ghost function NextReady<T>(ring: seq<T>, ready: set<T>, d: nat): (r: nat)
    requires d <= |ring|
    ensures d <= r <= |ring|
    ensures r < |ring| ==> ring[r] in ready
    ensures forall i: nat :: d <= i < r ==> ring[i] !in ready
    decreases |ring| - d
  {
    if d == |ring| || ring[d] in ready then d else NextReady(ring, ready, d + 1)
  }

  function Rotate<T>(ring: seq<T>, d: nat): seq<T>
    requires d <= |ring|
  {
    ring[d..] + ring[..d]
  }

  /** scheduler(): the search starts after the running process and comes back to it last. */
  ghost function Schedule<T>(s: System<T>): System<T>
    requires |s.ring| > 0
  {
    s.(ring := Rotate(s.ring, NextReady(s.ring, s.ready, 1)))
  }

  /** sendbuffer() up to its block: the running process queues itself, waits, and another runs. */
  ghost function Read<T>(s: System<T>): System<T>
    requires |s.ring| > 0
  {
    Schedule(s.(queue := s.queue + [s.ring[0]], ready := s.ready - {s.ring[0]}))
  }

  /** complete_buffer(): Enter wakes the reader at the head of the queue, if there is one. */
  ghost function Enter<T>(s: System<T>): System<T>
    requires s.head <= |s.queue|
  {
    if s.head == |s.queue| then s else s.(ready := s.ready + {s.queue[s.head]}, head := s.head + 1)
  }

  /** fork(): the child takes the running process's state and the place just after it. */
  ghost function Fork<T>(s: System<T>, child: T): System<T>
    requires |s.ring| > 0
  {
    s.(ring := [s.ring[0], child] + s.ring[1..],
       ready := s.ready + if s.ring[0] in s.ready then {child} else {})
  }

  // ---- The invariant ----

  ghost predicate Distinct<T>(q: seq<T>) { forall i: nat, j: nat :: i < j < |q| ==> q[i] != q[j] }

  /** The readers still waiting: the queue entries between head and tail. */
  function Waiting<T>(s: System<T>): seq<T>
    requires s.head <= |s.queue|
  {
    s.queue[s.head..]
  }

  /**
   The ring holds each process once, idle among them; the running process is ready, idle always is; and the
   processes that are not ready are exactly the readers between head and tail, each there once.
   */
  ghost predicate Inv<T>(s: System<T>) {
    && |s.ring| > 0 && Distinct(s.ring)
    && s.idle in s.ring && s.idle in s.ready && s.ring[0] in s.ready
    && (forall p :: p in s.ready ==> p in s.ring)
    && s.head <= |s.queue| && Distinct(Waiting(s))
    && (forall p :: p in Waiting(s) ==> p in s.ring && p !in s.ready)
    && (forall p :: p in s.ring && p !in s.ready ==> p in Waiting(s))
  }

  lemma RotateMembers<T>(ring: seq<T>, d: nat)
    requires d <= |ring| && Distinct(ring)
    ensures Distinct(Rotate(ring, d))
    ensures forall p :: p in Rotate(ring, d) <==> p in ring
  {
    var r := Rotate(ring, d);
    forall p | p in ring ensures p in r {
      var i :| 0 <= i < |ring| && ring[i] == p;
      if i < d { assert r[i + |ring| - d] == p; } else { assert r[i - d] == p; }
    }
    forall p | p in r ensures p in ring {
      var i :| 0 <= i < |r| && r[i] == p;
      if i < |ring| - d { assert ring[i + d] == p; } else { assert ring[i - (|ring| - d)] == p; }
    }
    forall i: nat, j: nat | i < j < |r| ensures r[i] != r[j] {
      var a := if i < |ring| - d then i + d else i - (|ring| - d);
      var b := if j < |ring| - d then j + d else j - (|ring| - d);
      assert r[i] == ring[a] && r[j] == ring[b] && a != b;
      assert a < b || b < a;
    }
  }

  /** What scheduler() needs on entry: somebody is ready, as idle always is. */
  lemma ScheduleKeeps<T>(s: System<T>)
    requires |s.ring| > 0 && Distinct(s.ring) && s.idle in s.ring && s.idle in s.ready
    ensures var s' := Schedule(s);
            && |s'.ring| == |s.ring| && Distinct(s'.ring) && (forall p :: p in s'.ring <==> p in s.ring)
            && s'.ring[0] in s.ready
  {
    var d := NextReady(s.ring, s.ready, 1);
    RotateMembers(s.ring, d);
    if d == |s.ring| {
      var i :| 0 <= i < |s.ring| && s.ring[i] == s.idle;
      assert i == 0;
    }
  }

  lemma TickKeeps<T>(s: System<T>)
    requires Inv(s)
    ensures Inv(Schedule(s))
  {
    ScheduleKeeps(s);
  }

  lemma ReadKeeps<T>(s: System<T>)
    requires Inv(s) && s.ring[0] != s.idle
    ensures Inv(Read(s)) && Read(s).queue == s.queue + [s.ring[0]] && Read(s).head == s.head
  {
    var me := s.ring[0];
    var s1 := s.(queue := s.queue + [me], ready := s.ready - {me});
    ScheduleKeeps(s1);
    assert Waiting(s1) == Waiting(s) + [me];
  }

  lemma EnterKeeps<T>(s: System<T>)
    requires Inv(s)
    ensures Inv(Enter(s))
  {
    if s.head < |s.queue| {
      var s' := Enter(s);
      assert Waiting(s) == [s.queue[s.head]] + Waiting(s');
      assert Waiting(s)[0] == s.queue[s.head];
      forall p | p in Waiting(s') ensures p in Waiting(s) && p != s.queue[s.head] {
        var i :| 0 <= i < |Waiting(s')| && Waiting(s')[i] == p;
        assert Waiting(s)[i + 1] == p;
      }
      forall i: nat, j: nat | i < j < |Waiting(s')| ensures Waiting(s')[i] != Waiting(s')[j] {
        assert Waiting(s)[i + 1] != Waiting(s)[j + 1];
      }
    }
  }

  lemma ForkKeeps<T>(s: System<T>, child: T)
    requires Inv(s) && child !in s.ring
    ensures Inv(Fork(s, child))
  {
    var s' := Fork(s, child);
    forall p | p in s.ring ensures p in s'.ring {
      var i :| 0 <= i < |s.ring| && s.ring[i] == p;
      if i == 0 { assert s'.ring[0] == p; } else { assert s'.ring[i + 1] == p; }
    }
    assert s'.ring[1] == child;
    forall p | p in s'.ring ensures p in s.ring || p == child {
      var i :| 0 <= i < |s'.ring| && s'.ring[i] == p;
      if i > 1 { assert s.ring[i - 1] == p; }
    }
    forall i: nat, j: nat | i < j < |s'.ring| ensures s'.ring[i] != s'.ring[j] {
      var a := if i == 0 then 0 else i - 1;
      if i != 1 && j != 1 { assert s.ring[a] == s'.ring[i] && s.ring[j - 1] == s'.ring[j]; }
      if i == 1 { assert s.ring[j - 1] == s'.ring[j]; }
      if j == 1 { assert s.ring[0] == s'.ring[i]; }
    }
  }

  /** A forked child takes the parent's state and is the next to run. */
  lemma ChildRunsNext<T>(s: System<T>, child: T)
    requires Inv(s) && child !in s.ring
    ensures child in Fork(s, child).ready && Schedule(Fork(s, child)).ring[0] == child
  {
    var s' := Fork(s, child);
    assert s'.ring[1] == child;
    assert NextReady(s'.ring, s'.ready, 1) == 1;
  }

  // ---- Runs ----

  datatype Step<T> = Tick | ReadCall | EnterKey | ForkCall(child: T)

  /** Only a user process reads or forks; a new process record is new. */
  ghost predicate Enabled<T>(s: System<T>, step: Step<T>)
    requires Inv(s)
  {
    match step
    case Tick => true
    case ReadCall => s.ring[0] != s.idle
    case EnterKey => true
    case ForkCall(child) => s.ring[0] != s.idle && child !in s.ring
  }

  ghost function Next<T>(s: System<T>, step: Step<T>): System<T>
    requires Inv(s)
  {
    match step
    case Tick => Schedule(s)
    case ReadCall => Read(s)
    case EnterKey => Enter(s)
    case ForkCall(child) => Fork(s, child)
  }

  lemma StepKeepsInv<T>(s: System<T>, step: Step<T>)
    requires Inv(s) && Enabled(s, step)
    ensures Inv(Next(s, step))
  {
    match step {
      case Tick => TickKeeps(s);
      case ReadCall => ReadKeeps(s);
      case EnterKey => EnterKeeps(s);
      case ForkCall(child) => ForkKeeps(s, child);
    }
  }

  /** The states of a run, from s on. */
  ghost predicate IsRun<T>(s: System<T>, steps: seq<Step<T>>)
    requires Inv(s)
    decreases |steps|
  {
    steps != [] ==> Enabled(s, steps[0]) && (StepKeepsInv(s, steps[0]); IsRun(Next(s, steps[0]), steps[1..]))
  }

  /** The state after the first i steps of a run. */
  ghost function After<T>(s: System<T>, steps: seq<Step<T>>, i: nat): (r: System<T>)
    requires Inv(s) && IsRun(s, steps) && i <= |steps|
    ensures Inv(r)
    decreases i
  {
    if i == 0 then s else (StepKeepsInv(s, steps[0]); After(Next(s, steps[0]), steps[1..], i - 1))
  }

  function Reads<T>(steps: seq<Step<T>>): nat {
    if steps == [] then 0 else (if steps[0].ReadCall? then 1 else 0) + Reads(steps[1..])
  }

  function Forks<T>(steps: seq<Step<T>>): nat {
    if steps == [] then 0 else (if steps[0].ForkCall? then 1 else 0) + Forks(steps[1..])
  }

  /** Calls of scheduler(): one for each timer tick and one for each read that blocks. */
  function Calls<T>(steps: seq<Step<T>>): nat {
    if steps == [] then 0 else (if steps[0].Tick? || steps[0].ReadCall? then 1 else 0) + Calls(steps[1..])
  }

  // ---- First in, first out ----

  /** The process a step puts to wait, and the process it wakes, if any. */
  ghost function Reader<T>(s: System<T>, step: Step<T>): seq<T>
    requires Inv(s)
  {
    if step.ReadCall? then [s.ring[0]] else []
  }

  ghost function Wakes<T>(s: System<T>, step: Step<T>): seq<T>
    requires Inv(s)
  {
    if step.EnterKey? && s.head < |s.queue| then [s.queue[s.head]] else []
  }

  /** The processes that called read, in order. */
  ghost function Readers<T>(s: System<T>, steps: seq<Step<T>>): seq<T>
    requires Inv(s) && IsRun(s, steps)
    decreases |steps|
  {
    if steps == [] then [] else
    (StepKeepsInv(s, steps[0]); Reader(s, steps[0]) + Readers(Next(s, steps[0]), steps[1..]))
  }

  /** The processes woken by Enter, in order. */
  ghost function Woken<T>(s: System<T>, steps: seq<Step<T>>): seq<T>
    requires Inv(s) && IsRun(s, steps)
    decreases |steps|
  {
    if steps == [] then [] else
    (StepKeepsInv(s, steps[0]); Wakes(s, steps[0]) + Woken(Next(s, steps[0]), steps[1..]))
  }

  lemma StepWakeOrder<T>(s: System<T>, step: Step<T>)
    requires Inv(s) && Enabled(s, step)
    ensures Inv(Next(s, step))
    ensures Wakes(s, step) + Waiting(Next(s, step)) == Waiting(s) + Reader(s, step)
  {
    StepKeepsInv(s, step);
  }

  lemma Regroup<T>(a: seq<T>, w: seq<T>, rest: seq<T>, mid: seq<T>, start: seq<T>, c: seq<T>, readers: seq<T>)
    requires a + mid == start + c && w + rest == mid + readers
    ensures (a + w) + rest == start + (c + readers)
  {
    assert (a + w) + rest == a + (w + rest);
    assert a + (mid + readers) == (a + mid) + readers;
    assert (start + c) + readers == start + (c + readers);
  }

  /** Readers wake in the order they blocked: waiters at the start first, then those of the run. */
  lemma {:induction false} WakeOrder<T>(s: System<T>, steps: seq<Step<T>>)
    requires Inv(s) && IsRun(s, steps)
    ensures Woken(s, steps) + Waiting(After(s, steps, |steps|)) == Waiting(s) + Readers(s, steps)
    decreases |steps|
  {
    if steps != [] {
      StepWakeOrder(s, steps[0]);
      var s1 := Next(s, steps[0]);
      WakeOrder(s1, steps[1..]);
      Regroup(Wakes(s, steps[0]), Woken(s1, steps[1..]), Waiting(After(s1, steps[1..], |steps| - 1)),
              Waiting(s1), Waiting(s), Reader(s, steps[0]), Readers(s1, steps[1..]));
    }
  }

  lemma {:induction false} QueueGrows<T>(s: System<T>, steps: seq<Step<T>>)
    requires Inv(s) && IsRun(s, steps)
    ensures |After(s, steps, |steps|).queue| == |s.queue| + Reads(steps)
    decreases |steps|
  {
    if steps != [] {
      StepKeepsInv(s, steps[0]);
      QueueGrows(Next(s, steps[0]), steps[1..]);
    }
  }

  /** Every read of the run stores its process inside the queue page. */
  ghost predicate RoomForAll<T>(s: System<T>, steps: seq<Step<T>>)
    requires Inv(s) && IsRun(s, steps)
    decreases |steps|
  {
    steps != [] ==>
      && (steps[0].ReadCall? ==> |s.queue| < QUEUE_SIZE)
      && (StepKeepsInv(s, steps[0]); RoomForAll(Next(s, steps[0]), steps[1..]))
  }

  /**
   The queue page is written past its end in exactly the runs that read more often than it has room left: entries
   of readers long woken are never reused.
   */
  lemma {:induction false} QueueFits<T>(s: System<T>, steps: seq<Step<T>>)
    requires Inv(s) && IsRun(s, steps) && |s.queue| <= QUEUE_SIZE
    ensures RoomForAll(s, steps) <==> |s.queue| + Reads(steps) <= QUEUE_SIZE
    decreases |steps|
  {
    if steps != [] {
      StepKeepsInv(s, steps[0]);
      var s1 := Next(s, steps[0]);
      if |s1.queue| <= QUEUE_SIZE { QueueFits(s1, steps[1..]); }
    }
  }

  /** The first process reads, Enter wakes it, and the timer lets it run again; n times. */
  function ReadingRounds<T>(n: nat): seq<Step<T>> {
    if n == 0 then [] else [ReadCall, EnterKey, Tick] + ReadingRounds(n - 1)
  }

  /** Idle and one process that is running, and a queue of entries already woken. */
  ghost predicate Alone<T>(s: System<T>, p: T) {
    p != s.idle && s.ring == [p, s.idle] && s.ready == {p, s.idle} && s.head == |s.queue|
  }

  lemma OneRound<T>(s: System<T>, p: T)
    requires Alone(s, p)
    ensures Inv(s) && Enabled(s, ReadCall)
    ensures var s1 := Read(s);
            && Inv(s1) && Inv(Enter(s1)) && Inv(Schedule(Enter(s1)))
            && Alone(Schedule(Enter(s1)), p) && Schedule(Enter(s1)).queue == s.queue + [p]
  {
    assert s.idle in s.ring;
    assert Inv(s);
    var r := s.(queue := s.queue + [p], ready := s.ready - {p});
    assert NextReady(r.ring, r.ready, 1) == 1;
    var s1 := Read(s);
    assert s1.ring == [s.idle, p];
    ReadKeeps(s);
    EnterKeeps(s1);
    var s2 := Enter(s1);
    assert s2.ready == {p, s.idle};
    TickKeeps(s2);
    assert NextReady(s2.ring, s2.ready, 1) == 1;
    assert Schedule(s2).ring == [p, s.idle];
  }

  lemma {:induction false} RoundsRun<T>(s: System<T>, p: T, n: nat)
    requires Alone(s, p)
    ensures Inv(s) && IsRun(s, ReadingRounds(n)) && Reads(ReadingRounds<T>(n)) == n
    decreases n
  {
    OneRound(s, p);
    if n > 0 {
      var rest := ReadingRounds<T>(n - 1);
      RoundsRun(Schedule(Enter(Read(s))), p, n - 1);
      RoundFirst(s, p, rest);
    }
  }

  lemma RoundFirst<T>(s: System<T>, p: T, rest: seq<Step<T>>)
    requires Alone(s, p) && Inv(s) && Inv(Schedule(Enter(Read(s)))) && IsRun(Schedule(Enter(Read(s))), rest)
    ensures IsRun(s, [ReadCall, EnterKey, Tick] + rest)
    ensures Reads([ReadCall, EnterKey, Tick] + rest) == 1 + Reads(rest)
  {
    OneRound(s, p);
    StepFirst(Enter(Read(s)), Tick, rest);
    StepFirst(Read(s), EnterKey, [Tick] + rest);
    StepFirst(s, ReadCall, [EnterKey] + ([Tick] + rest));
    assert [ReadCall, EnterKey, Tick] + rest == [ReadCall] + ([EnterKey] + ([Tick] + rest));
  }

  lemma StepFirst<T>(s: System<T>, step: Step<T>, rest: seq<Step<T>>)
    requires Inv(s) && Enabled(s, step) && Inv(Next(s, step)) && IsRun(Next(s, step), rest)
    ensures IsRun(s, [step] + rest)
    ensures Reads([step] + rest) == (if step.ReadCall? then 1 else 0) + Reads(rest)
  {
    assert ([step] + rest)[1..] == rest;
  }

  /** One process that reads 1025 lines writes past the queue's page, though never more than one reader waits. */
  lemma QueueOverrunIsReachable<T>(s: System<T>, p: T)
    requires Alone(s, p) && s.queue == []
    ensures Inv(s) && IsRun(s, ReadingRounds(QUEUE_SIZE + 1)) && !RoomForAll(s, ReadingRounds(QUEUE_SIZE + 1))
  {
    RoundsRun(s, p, QUEUE_SIZE + 1);
    QueueFits(s, ReadingRounds(QUEUE_SIZE + 1));
  }

  // ---- Fairness ----

  /** A ready process d links away: each call of scheduler() brings it nearer, each fork puts it back by one. */
  lemma Nearer<T>(s: System<T>, step: Step<T>, d: nat) returns (d': nat)
    requires Inv(s) && Enabled(s, step) && 0 < d < |s.ring| && s.ring[d] in s.ready
    ensures var s' := Next(s, step);
            && d' < |s'.ring| && s'.ring[d'] == s.ring[d] && s.ring[d] in s'.ready
            && d' + (if step.Tick? || step.ReadCall? then 1 else 0) <= d + (if step.ForkCall? then 1 else 0)
  {
    match step {
      case Tick =>
        var n := NextReady(s.ring, s.ready, 1);
        assert n <= d;
        d' := d - n;
      case ReadCall =>
        var ready := s.ready - {s.ring[0]};
        var n := NextReady(s.ring, ready, 1);
        assert s.ring[d] in ready;
        assert n <= d;
        d' := d - n;
      case EnterKey => d' := d;
      case ForkCall(_) => d' := d + 1;
    }
  }

  /**
   No ready process is passed over: one that is d links away runs before d plus the number of forks calls of
   scheduler() have been made, in every run.
   */
  lemma {:induction false} RunsInTime<T>(s: System<T>, steps: seq<Step<T>>, d: nat)
    requires Inv(s) && IsRun(s, steps) && d < |s.ring| && s.ring[d] in s.ready
    requires Calls(steps) >= d + Forks(steps)
    ensures exists i: nat :: i <= |steps| && After(s, steps, i).ring[0] == s.ring[d]
    decreases |steps|
  {
    if d == 0 {
      assert After(s, steps, 0).ring[0] == s.ring[d];
    } else {
      assert steps != [];
      StepKeepsInv(s, steps[0]);
      var s1 := Next(s, steps[0]);
      var d1 := Nearer(s, steps[0], d);
      RunsInTime(s1, steps[1..], d1);
      var i: nat :| i <= |steps[1..]| && After(s1, steps[1..], i).ring[0] == s1.ring[d1];
      assert After(s, steps, i + 1) == After(s1, steps[1..], i);
    }
  }
}
