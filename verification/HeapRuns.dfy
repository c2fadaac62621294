/** Every run of malloc, free and writes to live payloads, as long as no split is too tight. */
module HeapRuns {
  import opened Limits
  import opened Least
  import opened LibcHeap

  datatype State = State(h: seq<nat>, starts: seq<nat>)

  datatype Step =
    | MallocCall(size: nat)
    | FreeCall(b: nat)              // the block whose header is at word b
    | PayloadWrite(x: nat, w: nat)  // word x of some live payload

  ghost predicate Inv(base: nat, st: State) {
    && Tiled(st.h, base, st.starts)
    && |st.h| == WORDS + SLACK
    && (forall k: nat :: k < |st.starts| ==> st.starts[k] < WORDS)
  }

  /** The used block from word b up to word e. */
  ghost predicate IsLive(st: State, b: nat, e: nat, k: nat) {
    k < |st.starts| && b == st.starts[k] && e == NextStart(st.starts, k) && b < |st.h| && Used(st.h[b])
  }

  ghost predicate Live(st: State, b: nat, e: nat) { exists k: nat :: IsLive(st, b, e, k) }

  /** malloc(size) does not split a block that has no room for the new header. */
  ghost predicate Safe(base: nat, st: State, size: nat)
    requires Inv(base, st) && size < TWO32
  {
    forall k: nat :: FirstFit(st.h, st.starts, k, Round(size)) ==> !TooTight(st.h[st.starts[k]], Round(size))
  }

  /** Any 32-bit request that is safe; those from 5 bytes to 2^32 - 4 always are. */
  ghost predicate Enabled(base: nat, st: State, step: Step)
    requires Inv(base, st)
  {
    match step
    case MallocCall(size) => size < TWO32 && Safe(base, st, size)
    case FreeCall(b) => exists e: nat :: Live(st, b, e)
    case PayloadWrite(x, w) => w < TWO32 && exists b: nat, e: nat :: Live(st, b, e) && b + HEADER <= x < e
  }

  /** A malloc that finds nothing never returns, so the heap stays as it is. */
  ghost function Next(base: nat, st: State, step: Step): State
    requires Inv(base, st) && Enabled(base, st, step)
  {
    match step
    case MallocCall(size) =>
      if k: nat :| FirstFit(st.h, st.starts, k, Round(size)) then
        assert BlockOk(st.h, base, st.starts, k);
        SplitIsInBounds(st.h, base, st.starts, k, Round(size));
        State(AfterMalloc(st.h, base, st.starts[k], Round(size)), StartsAfter(st.h, st.starts, k, Round(size)))
      else st
    case FreeCall(b) => assert b < |st.h|; State(AfterFree(st.h, b), st.starts)
    case PayloadWrite(x, w) => PayloadInHeap(base, st, x); State(st.h[x := w], st.starts)
  }

  lemma PayloadInHeap(base: nat, st: State, x: nat)
    requires Inv(base, st) && exists b: nat, e: nat :: Live(st, b, e) && b + HEADER <= x < e
    ensures x < WORDS
  {
    var b: nat, e: nat :| Live(st, b, e) && b + HEADER <= x < e;
    var k: nat :| IsLive(st, b, e, k);
    assert BlockOk(st.h, base, st.starts, k);
  }

  lemma NotInHeader(base: nat, st: State, x: nat, b: nat, e: nat, j: nat)
    requires Inv(base, st) && Live(st, b, e) && b + HEADER <= x < e && j < |st.starts|
    ensures e <= WORDS && !(st.starts[j] <= x < st.starts[j] + HEADER)
  {
    var k: nat :| IsLive(st, b, e, k);
    assert BlockOk(st.h, base, st.starts, k) && BlockOk(st.h, base, st.starts, j);
    if st.starts[j] <= x < st.starts[j] + HEADER { BlocksAreDisjoint(st.h, base, st.starts, j, k, x); }
  }

  /** No payload write alters the list of blocks. */
  lemma WriteKeeps(base: nat, st: State, x: nat, w: nat, b: nat, e: nat)
    requires Inv(base, st) && Live(st, b, e) && b + HEADER <= x < e
    ensures x < |st.h| && Inv(base, State(st.h[x := w], st.starts))
    ensures forall j: nat :: j < |st.starts| ==> !(st.starts[j] <= x < st.starts[j] + HEADER)
  {
    NotInHeader(base, st, x, b, e, 0);
    forall j: nat | j < |st.starts| ensures !(st.starts[j] <= x < st.starts[j] + HEADER) {
      NotInHeader(base, st, x, b, e, j);
    }
    SameHeaders(st.h, st.h[x := w], base, st.starts, x);
  }

  /** A word outside every header is no part of the list. */
  lemma SameHeaders(h: seq<nat>, h': seq<nat>, base: nat, starts: seq<nat>, x: nat)
    requires Tiled(h, base, starts) && |h'| == |h| && forall y: nat :: y < |h| && y != x ==> h'[y] == h[y]
    requires forall j: nat :: j < |starts| ==> !(starts[j] <= x < starts[j] + HEADER)
    ensures Tiled(h', base, starts)
  {
    forall j: nat | j < |starts| ensures BlockOk(h', base, starts, j) {
      assert BlockOk(h, base, starts, j);
      SameHeader(h, h', base, starts, j);
    }
  }

  lemma StepKeepsInv(base: nat, st: State, step: Step)
    requires Inv(base, st) && Enabled(base, st, step)
    ensures Inv(base, Next(base, st, step))
  {
    match step {
      case MallocCall(size) =>
        if k: nat :| FirstFit(st.h, st.starts, k, Round(size)) {
          forall k: nat | FirstFit(st.h, st.starts, k, Round(size))
            ensures var s := Round(size);
                    && SplitFits(st.h, st.starts[k], s)
                    && Inv(base, State(AfterMalloc(st.h, base, st.starts[k], s), StartsAfter(st.h, st.starts, k, s)))
          {
            SplitIsInBounds(st.h, base, st.starts, k, Round(size));
            MallocKeepsStarts(st.h, base, st.starts, k, Round(size));
          }
        }
      case FreeCall(b) =>
        var e: nat :| Live(st, b, e);
        var k: nat :| IsLive(st, b, e, k);
        FreeKeeps(st.h, base, st.starts, k);
      case PayloadWrite(x, w) =>
        var b: nat, e: nat :| Live(st, b, e) && b + HEADER <= x < e;
        WriteKeeps(base, st, x, w, b, e);
    }
  }

  /** A program that asks for 5 bytes or more, and less than 2^32 - 3, is always safe. */
  lemma LargeIsSafe(base: nat, st: State, size: nat)
    requires Inv(base, st) && 5 <= size <= TWO32 - 4
    ensures Safe(base, st, size)
  {
    forall k: nat | FirstFit(st.h, st.starts, k, Round(size)) ensures !TooTight(st.h[st.starts[k]], Round(size)) {
      LargeRequestsAreSafe(size, st.h[st.starts[k]]);
    }
  }

  /**
   malloc's choice, seen from outside: the first block that is unused and large enough, given at least the rounded
   request and at most twice it. The rounding of the three largest requests wraps to 0; every other request is
   rounded up.
   */
  lemma MallocGives(base: nat, st: State, k: nat, size: nat)
    requires Inv(base, st) && size < TWO32 && FirstFit(st.h, st.starts, k, Round(size))
    ensures !Used(st.h[st.starts[k]]) && SplitFits(st.h, st.starts[k], Round(size))
    ensures var h' := AfterMalloc(st.h, base, st.starts[k], Round(size));
            Used(h'[st.starts[k]]) && Round(size) <= Size(h'[st.starts[k]]) <= 2 * Round(size)
    ensures if size <= TWO32 - 4 then size <= Round(size) else Round(size) == 0
    ensures forall j: nat :: j < k ==> Used(st.h[st.starts[j]]) || Size(st.h[st.starts[j]]) < Round(size)
  {
    forall j: nat | j < k && !Used(st.h[st.starts[j]]) ensures Size(st.h[st.starts[j]]) < Round(size) {
      assert BlockOk(st.h, base, st.starts, j) && !Fits(st.h, st.starts, j, Round(size));
      FreeSize(st.h, base, st.starts, j);
    }
    assert BlockOk(st.h, base, st.starts, k);
    FreeSize(st.h, base, st.starts, k);
    SplitIsInBounds(st.h, base, st.starts, k, Round(size));
    var b, s := st.starts[k], Round(size);
    GivenSize(st.h[b], s);
    TakenSize(st.h, base, b, s);
    RoundsUp(size);
  }

  lemma TakenSize(h: seq<nat>, base: nat, b: nat, s: nat)
    requires s % 4 == 0 && SplitFits(h, b, s)
    ensures AfterMalloc(h, base, b, s)[b] == if s < h[b] / 2 then s + 1 else h[b] + 1
  {
  }

  lemma RoundsUp(size: nat)
    requires size < TWO32
    ensures if size <= TWO32 - 4 then size <= Round(size) else Round(size) == 0
  {
    if size > TWO32 - 4 { assert size == TWO32 - 3 || size == TWO32 - 2 || size == TWO32 - 1; }
  }

  lemma GivenSize(block: nat, s: nat)
    requires block % 4 == 0 && s % 4 == 0 && s <= block
    ensures var w := if s < block / 2 then s + 1 else block + 1; Used(w) && s <= Size(w) <= 2 * s
  {
    SizeWords(s);
    SizeWords(block);
    Parity(block);
  }

  /** malloc never removes a block boundary and adds at most one. */
  lemma BoundariesGrow(h: seq<nat>, starts: seq<nat>, k: nat, s: nat)
    requires k < |starts| && starts[k] < |h|
    ensures var starts' := StartsAfter(h, starts, k, s);
            && (forall i: nat :: i < |starts| ==> starts[i] in starts')
            && (forall i: nat :: i < |starts'| ==> starts'[i] in starts || starts'[i] == starts[k] + HEADER + s / 4)
  {
    var starts' := StartsAfter(h, starts, k, s);
    forall i: nat | i < |starts| ensures starts[i] in starts' {
      if s < h[starts[k]] / 2 && i > k { assert starts'[i + 1] == starts[i]; } else { assert starts'[i] == starts[i]; }
    }
    forall i: nat | i < |starts'| ensures starts'[i] in starts || starts'[i] == starts[k] + HEADER + s / 4 {
      if s < h[starts[k]] / 2 && i > k + 1 { assert starts'[i] == starts[i - 1]; }
    }
  }

  // ---- Payloads keep their contents ----

  lemma MallocSpares(base: nat, st: State, k: nat, s: nat, b: nat, e: nat)
    requires Inv(base, st) && Live(st, b, e) && FirstFit(st.h, st.starts, k, s) && s % 4 == 0
    requires !TooTight(st.h[st.starts[k]], s) && SplitFits(st.h, st.starts[k], s)
    ensures var st' := State(AfterMalloc(st.h, base, st.starts[k], s), StartsAfter(st.h, st.starts, k, s));
            && Live(st', b, e) && |st'.h| == |st.h| && e <= |st.h|
            && (forall x: nat :: b <= x < e ==> st'.h[x] == st.h[x])
  {
    var j: nat :| IsLive(st, b, e, j);
    assert j != k;
    assert BlockOk(st.h, base, st.starts, j) && BlockOk(st.h, base, st.starts, k);
    if j < k { Ordered(st.h, base, st.starts, j, k); } else { Ordered(st.h, base, st.starts, k, j); }
    FreeSize(st.h, base, st.starts, k);
    var h' := AfterMalloc(st.h, base, st.starts[k], s);
    if s < st.h[st.starts[k]] / 2 {
      SplitEnd(st.starts[k], NextStart(st.starts, k), st.h[st.starts[k]], s);
      TakeElsewhere(st.h, base, st.starts[k], s);
    }
    assert forall x: nat :: b <= x < e ==> h'[x] == st.h[x];
    StartsKeepOthers(st.h, st.starts, k, s, j);
    var i := if j < k || s >= st.h[st.starts[k]] / 2 then j else j + 1;
    assert IsLive(State(h', StartsAfter(st.h, st.starts, k, s)), b, e, i);
  }

  lemma StartsKeepOthers(h: seq<nat>, starts: seq<nat>, k: nat, s: nat, j: nat)
    requires k < |starts| && j < |starts| && j != k && starts[k] < |h|
    ensures var starts' := StartsAfter(h, starts, k, s);
            var i := if j < k || s >= h[starts[k]] / 2 then j else j + 1;
            i < |starts'| && starts'[i] == starts[j] && NextStart(starts', i) == NextStart(starts, j)
  {
  }

  /** A live block stays live with the same extent, and its words stay, until it is freed or they are written. */
  lemma StepSparesPayload(base: nat, st: State, step: Step, b: nat, e: nat)
    requires Inv(base, st) && Enabled(base, st, step) && Live(st, b, e) && step != FreeCall(b)
    ensures var st' := Next(base, st, step);
            && Live(st', b, e) && |st'.h| == |st.h| && e <= |st.h|
            && (forall x: nat :: b <= x < e && !(step.PayloadWrite? && step.x == x) ==> st'.h[x] == st.h[x])
  {
    var j: nat :| IsLive(st, b, e, j);
    assert BlockOk(st.h, base, st.starts, j);
    match step {
      case MallocCall(size) =>
        forall k: nat | FirstFit(st.h, st.starts, k, Round(size))
          ensures SplitFits(st.h, st.starts[k], Round(size))
          ensures var st' := State(AfterMalloc(st.h, base, st.starts[k], Round(size)),
                  StartsAfter(st.h, st.starts, k, Round(size)));
                  && Live(st', b, e) && |st'.h| == |st.h|
                  && (forall x: nat :: b <= x < e ==> st'.h[x] == st.h[x])
        {
          SplitIsInBounds(st.h, base, st.starts, k, Round(size));
          MallocSpares(base, st, k, Round(size), b, e);
        }
      case FreeCall(c) =>
        var f: nat :| Live(st, c, f);
        var k: nat :| IsLive(st, c, f, k);
        assert BlockOk(st.h, base, st.starts, k);
        if b <= c < e { BlocksAreDisjoint(st.h, base, st.starts, j, k, c); }
        assert IsLive(Next(base, st, step), b, e, j);
      case PayloadWrite(x, w) =>
        var c: nat, f: nat :| Live(st, c, f) && c + HEADER <= x < f;
        WriteKeeps(base, st, x, w, c, f);
        assert !(st.starts[j] <= x < st.starts[j] + HEADER);
        assert IsLive(Next(base, st, step), b, e, j);
    }
  }

  // ---- Runs ----

  ghost predicate IsRun(base: nat, states: seq<State>, steps: seq<Step>) {
    && |states| == |steps| + 1
    && (forall i: nat :: i < |steps| ==> RunStep(base, states[i], steps[i], states[i + 1]))
  }

  ghost predicate RunStep(base: nat, st: State, step: Step, st': State) {
    Inv(base, st) ==> Enabled(base, st, step) && st' == Next(base, st, step)
  }

  /** init_libc's heap, over words holding anything. */
  ghost predicate Fresh(st: State) {
    |st.h| == WORDS + SLACK && st.h[0] == HEAP_SIZE && st.h[1] == 0 && st.h[2] == 0 && st.starts == [0]
  }

  lemma FreshInv(base: nat, st: State)
    requires Fresh(st)
    ensures Inv(base, st)
  {
    assert BlockOk(st.h, base, st.starts, 0);
  }

  /** In every state of every run the blocks tile the heap in address order. */
  lemma {:induction false} EveryRunIsTiled(base: nat, states: seq<State>, steps: seq<Step>, i: nat)
    requires IsRun(base, states, steps) && Fresh(states[0]) && i < |states|
    ensures Inv(base, states[i])
    decreases i
  {
    if i == 0 {
      FreshInv(base, states[0]);
    } else {
      EveryRunIsTiled(base, states, steps, i - 1);
      assert RunStep(base, states[i - 1], steps[i - 1], states[i - 1 + 1]);
      StepKeepsInv(base, states[i - 1], steps[i - 1]);
    }
  }

  /**
   Over every stretch of a run, a word of a live payload keeps its value as long as the program neither frees
   the block nor writes the word.
   */
  lemma {:induction false} PayloadsKeepTheirContents(base: nat, states: seq<State>, steps: seq<Step>, i: nat, j: nat,
                                                     b: nat, e: nat, x: nat)
    requires IsRun(base, states, steps) && Fresh(states[0]) && i <= j < |states|
    requires Live(states[i], b, e) && b + HEADER <= x < e
    requires forall k: nat :: i <= k < j ==> steps[k] != FreeCall(b) && !(steps[k].PayloadWrite? && steps[k].x == x)
    ensures Live(states[j], b, e) && e <= |states[i].h| && e <= |states[j].h| && states[j].h[x] == states[i].h[x]
    decreases j
  {
    EveryRunIsTiled(base, states, steps, i);
    if i == j {
      var k: nat :| IsLive(states[i], b, e, k);
      assert BlockOk(states[i].h, base, states[i].starts, k);
    } else {
      PayloadsKeepTheirContents(base, states, steps, i, j - 1, b, e, x);
      EveryRunIsTiled(base, states, steps, j - 1);
      assert RunStep(base, states[j - 1], steps[j - 1], states[j - 1 + 1]);
      StepSparesPayload(base, states[j - 1], steps[j - 1], b, e);
    }
  }

  /** Two live payloads of one state have no word in common, and no word of a payload is in a header. */
  lemma PayloadsAreDisjoint(base: nat, st: State, b: nat, e: nat, c: nat, f: nat, x: nat)
    requires Inv(base, st) && Live(st, b, e) && Live(st, c, f) && b + HEADER <= x < e
    ensures b != c ==> !(c <= x < f)
    ensures forall j: nat :: j < |st.starts| ==> !(st.starts[j] <= x < st.starts[j] + HEADER)
  {
    var j: nat :| IsLive(st, b, e, j);
    var k: nat :| IsLive(st, c, f, k);
    if c <= x < f { BlocksAreDisjoint(st.h, base, st.starts, j, k, x); }
    WriteKeeps(base, st, x, 0, b, e);
  }

  /** Word x is among the HEAP_SIZE bytes mapped. */
  predicate IsMapped(x: nat) { x < HEAP_SIZE / 4 }

  /**
   The list covers three words more than mmap was asked for, so a live payload lies in mapped memory exactly when
   its block is not the last of the list.
   */
  lemma MappedExactly(base: nat, st: State, b: nat, e: nat)
    requires Inv(base, st) && Live(st, b, e) && b + HEADER < e
    ensures (forall x: nat :: b + HEADER <= x < e ==> IsMapped(x)) <==> e < WORDS
  {
    var k: nat :| IsLive(st, b, e, k);
    assert BlockOk(st.h, base, st.starts, k);
    if e < WORDS {
      assert BlockOk(st.h, base, st.starts, k + 1);
    } else {
      assert !IsMapped(e - 1);
    }
  }

  /** The header of a block is mapped as a whole exactly when the block is not the last, or has 12 bytes or more. */
  lemma HeaderMappedExactly(base: nat, st: State, k: nat)
    requires Inv(base, st) && k < |st.starts|
    ensures (forall x: nat :: st.starts[k] <= x < st.starts[k] + HEADER ==> IsMapped(x)) <==>
              k + 1 < |st.starts| || Size(st.h[st.starts[k]]) >= 12
  {
    assert BlockOk(st.h, base, st.starts, k);
    if k + 1 < |st.starts| {
      assert BlockOk(st.h, base, st.starts, k + 1);
    } else if Size(st.h[st.starts[k]]) < 12 {
      assert !IsMapped(st.starts[k] + HEADER - 1);
    }
  }

  // ---- Which blocks are live ----

  /** free makes its block unused, keeps its size, and changes nothing else: no other block and no other word. */
  lemma FreeIsExact(base: nat, st: State, b: nat, e: nat)
    requires Inv(base, st) && Live(st, b, e)
    ensures var st' := Next(base, st, FreeCall(b));
            && Inv(base, st') && st'.starts == st.starts && |st'.h| == |st.h| && b < |st.h|
            && !Used(st'.h[b]) && Size(st'.h[b]) == Size(st.h[b]) == 4 * (e - b - HEADER)
            && (forall x: nat :: x < |st.h| && x != b ==> st'.h[x] == st.h[x])
    ensures forall c: nat, f: nat :: Live(Next(base, st, FreeCall(b)), c, f) <==> Live(st, c, f) && c != b
  {
    var st' := Next(base, st, FreeCall(b));
    StepKeepsInv(base, st, FreeCall(b));
    var k: nat :| IsLive(st, b, e, k);
    assert BlockOk(st.h, base, st.starts, k);
    SizeWords(st.h[b]);
    Parity(st'.h[b]);
    forall c: nat, f: nat ensures Live(st', c, f) <==> Live(st, c, f) && c != b {
      if j: nat :| IsLive(st', c, f, j) { assert IsLive(st, c, f, j); }
      if j: nat :| IsLive(st, c, f, j) && c != b { assert IsLive(st', c, f, j); }
    }
  }

  lemma {:induction false} FirstFitExists(h: seq<nat>, starts: seq<nat>, k: nat, s: nat)
    requires (forall j: nat :: j < |starts| ==> starts[j] < |h|) && k < |starts| && Fits(h, starts, k, s)
    ensures exists j: nat :: FirstFit(h, starts, j, s)
  {
    if j: nat :| j < k && Fits(h, starts, j, s) {
      FirstFitExists(h, starts, j, s);
    } else {
      assert FirstFit(h, starts, k, s);
    }
  }

  /** A freed block serves every request up to its size. */
  lemma FreedIsReused(base: nat, st: State, b: nat, e: nat, size: nat)
    requires Inv(base, st) && Live(st, b, e) && size <= 4 * (e - b - HEADER)
    ensures var st' := Next(base, st, FreeCall(b));
            && Inv(base, st') && size < TWO32 && exists k: nat :: FirstFit(st'.h, st'.starts, k, Round(size))
  {
    FreeIsExact(base, st, b, e);
    var st' := Next(base, st, FreeCall(b));
    var k: nat :| IsLive(st, b, e, k);
    assert BlockOk(st.h, base, st.starts, k);
    RoundsWithin(size, e - b - HEADER);
    SizeWords(st.h[b]);
    Parity(st'.h[b]);
    assert Fits(st'.h, st'.starts, k, Round(size));
    FirstFitExists(st'.h, st'.starts, k, Round(size));
  }

  lemma RoundsWithin(size: nat, words: nat)
    requires size <= 4 * words && words <= WORDS
    ensures size < TWO32 && Round(size) <= 4 * words
  {
  }

  /** After malloc the live blocks are those live before and the one it returns. */
  lemma MallocLives(base: nat, st: State, k: nat, size: nat)
    requires Inv(base, st) && size < TWO32 && Safe(base, st, size) && FirstFit(st.h, st.starts, k, Round(size))
    requires SplitFits(st.h, st.starts[k], Round(size))
    ensures var s, b := Round(size), st.starts[k];
            var st' := State(AfterMalloc(st.h, base, b, s), StartsAfter(st.h, st.starts, k, s));
            && k < |st'.starts| && st'.starts[k] == b
            && (forall c: nat, f: nat ::
                  Live(st', c, f) <==> Live(st, c, f) || (c == b && f == NextStart(st'.starts, k)))
  {
    var s, b := Round(size), st.starts[k];
    var st' := State(AfterMalloc(st.h, base, b, s), StartsAfter(st.h, st.starts, k, s));
    MallocGives(base, st, k, size);
    assert IsLive(st', b, NextStart(st'.starts, k), k);
    forall c: nat, f: nat | Live(st, c, f) ensures Live(st', c, f) { MallocSpares(base, st, k, s, c, f); }
    forall c: nat, f: nat | Live(st', c, f) && c != b ensures Live(st, c, f) {
      var j: nat :| IsLive(st', c, f, j);
      OtherWasLive(base, st, k, s, c, f, j);
    }
    forall c: nat, f: nat | Live(st', c, f) && c == b ensures f == NextStart(st'.starts, k) {
      var j: nat :| IsLive(st', c, f, j);
      SameStart(base, st, k, s, j);
    }
  }

  /** The blocks after malloc start at different words. */
  lemma SameStart(base: nat, st: State, k: nat, s: nat, j: nat)
    requires Inv(base, st) && s % 4 == 0 && FirstFit(st.h, st.starts, k, s)
    requires SplitFits(st.h, st.starts[k], s) && !TooTight(st.h[st.starts[k]], s)
    requires var starts' := StartsAfter(st.h, st.starts, k, s); j < |starts'| && starts'[j] == st.starts[k]
    ensures j == k
  {
    MallocKeepsStarts(st.h, base, st.starts, k, s);
    var h', starts' := AfterMalloc(st.h, base, st.starts[k], s), StartsAfter(st.h, st.starts, k, s);
    if j < k { Ordered(h', base, starts', j, k); }
    if k < j { Ordered(h', base, starts', k, j); }
  }

  lemma OtherWasLive(base: nat, st: State, k: nat, s: nat, c: nat, f: nat, j: nat)
    requires Inv(base, st) && s % 4 == 0 && FirstFit(st.h, st.starts, k, s)
    requires SplitFits(st.h, st.starts[k], s) && !TooTight(st.h[st.starts[k]], s) && c != st.starts[k]
    requires IsLive(State(AfterMalloc(st.h, base, st.starts[k], s), StartsAfter(st.h, st.starts, k, s)), c, f, j)
    ensures Live(st, c, f)
  {
    if s < st.h[st.starts[k]] / 2 {
      OtherThanSplit(base, st, k, s, c, f, j);
    } else {
      assert IsLive(st, c, f, j);
    }
  }

  lemma OtherThanSplit(base: nat, st: State, k: nat, s: nat, c: nat, f: nat, j: nat)
    requires Inv(base, st) && s % 4 == 0 && FirstFit(st.h, st.starts, k, s) && s < st.h[st.starts[k]] / 2
    requires SplitFits(st.h, st.starts[k], s) && !TooTight(st.h[st.starts[k]], s) && c != st.starts[k]
    requires IsLive(State(Take(st.h, base, st.starts[k], s), StartsAfter(st.h, st.starts, k, s)), c, f, j)
    ensures Live(st, c, f)
  {
    var b := st.starts[k];
    TakeWordsFree(st.h, base, b, s);
    assert j != k && j != k + 1;
    var i := if j < k then j else j - 1;
    StartsKeepOthers(st.h, st.starts, k, s, i);
    SplitKeepsHeader(base, st, k, s, i);
    assert IsLive(st, c, f, i);
  }

  /** A split leaves the header word of every other block. */
  lemma SplitKeepsHeader(base: nat, st: State, k: nat, s: nat, i: nat)
    requires Inv(base, st) && s % 4 == 0 && FirstFit(st.h, st.starts, k, s) && s < st.h[st.starts[k]] / 2
    requires SplitFits(st.h, st.starts[k], s) && !TooTight(st.h[st.starts[k]], s) && i < |st.starts| && i != k
    ensures st.starts[i] < |st.h| && Take(st.h, base, st.starts[k], s)[st.starts[i]] == st.h[st.starts[i]]
  {
    var b := st.starts[k];
    assert BlockOk(st.h, base, st.starts, k);
    FreeSize(st.h, base, st.starts, k);
    SplitEnd(b, NextStart(st.starts, k), st.h[b], s);
    TakeElsewhere(st.h, base, b, s);
    if i < k { Ordered(st.h, base, st.starts, i, k); } else { Ordered(st.h, base, st.starts, k, i); }
  }

  lemma TakeWordsFree(h: seq<nat>, base: nat, b: nat, s: nat)
    requires s % 4 == 0 && b + HEADER + s / 4 + HEADER <= |h| && s < h[b] / 2
    ensures !Used(Take(h, base, b, s)[b + HEADER + s / 4])
  {
    var left := (h[b] - s - 12) % TWO32;
    assert left - left % 4 == 2 * (2 * (left / 4));
  }

  /** malloc(size) can be called, and makes a block live that was not, with room for size bytes. */
  ghost predicate Serves(base: nat, st: State, size: nat)
    requires Inv(base, st)
  {
    && Enabled(base, st, MallocCall(size))
    && var st' := Next(base, st, MallocCall(size));
    exists c: nat, f: nat :: Live(st', c, f) && !Live(st, c, f) && c + HEADER <= f && size <= 4 * (f - c - HEADER)
  }

  /** A malloc that finds a block makes one live that was not, of at least the size asked for. */
  lemma MallocServes(base: nat, st: State, size: nat)
    requires Inv(base, st) && size <= TWO32 - 4 && Safe(base, st, size)
    requires exists k: nat :: FirstFit(st.h, st.starts, k, Round(size))
    ensures Serves(base, st, size)
  {
    forall k: nat | FirstFit(st.h, st.starts, k, Round(size))
      ensures SplitFits(st.h, st.starts[k], Round(size))
      ensures var st' := State(AfterMalloc(st.h, base, st.starts[k], Round(size)),
                  StartsAfter(st.h, st.starts, k, Round(size)));
              exists c: nat, f: nat ::
                Live(st', c, f) && !Live(st, c, f) && c + HEADER <= f && size <= 4 * (f - c - HEADER)
    {
      SplitIsInBounds(st.h, base, st.starts, k, Round(size));
      GivenBlock(base, st, k, size);
    }
  }

  lemma GivenBlock(base: nat, st: State, k: nat, size: nat)
    requires Inv(base, st) && size <= TWO32 - 4 && Safe(base, st, size) && FirstFit(st.h, st.starts, k, Round(size))
    requires SplitFits(st.h, st.starts[k], Round(size))
    ensures var st' := State(AfterMalloc(st.h, base, st.starts[k], Round(size)),
                StartsAfter(st.h, st.starts, k, Round(size)));
            k < |st'.starts|
            && var c, f := st.starts[k], NextStart(st'.starts, k);
            Live(st', c, f) && !Live(st, c, f) && c + HEADER <= f && size <= 4 * (f - c - HEADER)
  {
    MallocLives(base, st, k, size);
    MallocGives(base, st, k, size);
    MallocKeepsStarts(st.h, base, st.starts, k, Round(size));
    var h', starts' := AfterMalloc(st.h, base, st.starts[k], Round(size)), StartsAfter(st.h, st.starts, k, Round(size));
    assert BlockOk(h', base, starts', k);
  }

  /** In every run, once a block has been freed every safe request up to its size is served. */
  lemma FreedBlocksServe(base: nat, states: seq<State>, steps: seq<Step>, i: nat, b: nat, e: nat, size: nat)
    requires IsRun(base, states, steps) && Fresh(states[0]) && i < |steps| && steps[i] == FreeCall(b)
    requires Live(states[i], b, e) && size <= 4 * (e - b - HEADER)
    ensures Inv(base, states[i + 1]) && size <= TWO32 - 4
    ensures var st := states[i + 1]; forall f: nat :: !Live(st, b, f)
    ensures Safe(base, states[i + 1], size) ==> Serves(base, states[i + 1], size)
  {
    EveryRunIsTiled(base, states, steps, i);
    assert RunStep(base, states[i], steps[i], states[i + 1]);
    FreeIsExact(base, states[i], b, e);
    FreedIsReused(base, states[i], b, e, size);
    var k: nat :| IsLive(states[i], b, e, k);
    assert BlockOk(states[i].h, base, states[i].starts, k);
    if Safe(base, states[i + 1], size) { MallocServes(base, states[i + 1], size); }
  }

  // ---- Runs that get there ----

  lemma FirstBlockFits(st: State, s: nat)
    requires |st.starts| > 0 && st.starts[0] == 0 && (forall j: nat :: j < |st.starts| ==> st.starts[j] < |st.h|)
    requires Fits(st.h, st.starts, 0, s)
    ensures forall k: nat :: FirstFit(st.h, st.starts, k, s) <==> k == 0
  {
  }

  /** malloc(12), free, and then malloc(4) meets a split that is too tight. */
  lemma TightSplitIsReachable(base: nat, st: State) returns (states: seq<State>, steps: seq<Step>)
    requires Fresh(st)
    ensures IsRun(base, states, steps) && states[0] == st && steps == [MallocCall(12), FreeCall(0)]
    ensures Inv(base, states[2]) && !Safe(base, states[2], 4)
  {
    FreshInv(base, st);
    FirstBlockFits(st, 12);
    LargeIsSafe(base, st, 12);
    assert FirstFit(st.h, st.starts, 0, Round(12));
    StepKeepsInv(base, st, MallocCall(12));
    var st1 := Next(base, st, MallocCall(12));
    assert st1.starts == [0, 6] && st1.h[0] == 13;
    assert IsLive(st1, 0, 6, 0);
    assert Live(st1, 0, 6);
    StepKeepsInv(base, st1, FreeCall(0));
    var st2 := Next(base, st1, FreeCall(0));
    states, steps := [st, st1, st2], [MallocCall(12), FreeCall(0)];
    assert RunStep(base, st, steps[0], st1) && RunStep(base, st1, steps[1], st2);
    assert FirstFit(st2.h, st2.starts, 0, Round(4));
  }

  /** malloc(HEAP_SIZE) takes the only block, which is the last, and its last words are not mapped. */
  lemma UnmappedIsReachable(base: nat, st: State) returns (states: seq<State>, steps: seq<Step>)
    requires Fresh(st)
    ensures IsRun(base, states, steps) && states[0] == st && steps == [MallocCall(HEAP_SIZE)]
    ensures Inv(base, states[1]) && Live(states[1], 0, WORDS) && !IsMapped(WORDS - 1)
  {
    FreshInv(base, st);
    FirstBlockFits(st, HEAP_SIZE);
    LargeIsSafe(base, st, HEAP_SIZE);
    assert FirstFit(st.h, st.starts, 0, Round(HEAP_SIZE));
    StepKeepsInv(base, st, MallocCall(HEAP_SIZE));
    var st1 := Next(base, st, MallocCall(HEAP_SIZE));
    states, steps := [st, st1], [MallocCall(HEAP_SIZE)];
    assert IsLive(st1, 0, WORDS, 0);
  }

  /** Only the last block is free, and it has the given size. */
  ghost predicate LastFree(base: nat, st: State, size: nat) {
    && Inv(base, st)
    && (forall k: nat :: k + 1 < |st.starts| ==> Used(st.h[st.starts[k]]))
    && st.h[st.starts[|st.starts| - 1]] == size && !Used(size)
  }

  /** A request that splits the last block. */
  predicate Splits(size: nat, s: nat) {
    8 <= s < size / 2 && s % 4 == 0 && s + 12 <= size && size % 4 == 0 && size < TWO32
  }

  lemma LastFits(base: nat, st: State, size: nat, s: nat)
    requires LastFree(base, st, size) && Splits(size, s)
    ensures Round(s) == s && s < TWO32 && Safe(base, st, s)
    ensures forall k: nat :: FirstFit(st.h, st.starts, k, s) <==> k == |st.starts| - 1
  {
    LargeIsSafe(base, st, s);
    var n := |st.starts| - 1;
    assert Fits(st.h, st.starts, n, s);
    assert forall k: nat :: k < n ==> !Fits(st.h, st.starts, k, s);
  }

  /** The state malloc leaves when it splits the last block. */
  lemma SplitState(base: nat, st: State, size: nat, s: nat)
    requires LastFree(base, st, size) && Splits(size, s)
    ensures Enabled(base, st, MallocCall(s))
    ensures var b := st.starts[|st.starts| - 1];
            && b + HEADER + s / 4 + HEADER <= |st.h|
            && Next(base, st, MallocCall(s)) == State(Take(st.h, base, b, s), st.starts + [b + HEADER + s / 4])
  {
    LastFits(base, st, size, s);
    var n := |st.starts| - 1;
    assert BlockOk(st.h, base, st.starts, n);
    SplitIsInBounds(st.h, base, st.starts, n, s);
    assert FirstFit(st.h, st.starts, n, s);
    assert st.starts[..n + 1] == st.starts && st.starts[n + 1..] == [];
  }

  lemma SplitSizesUse(size: nat, s: nat)
    requires Splits(size, s)
    ensures Used(s + 1) && !Used(size - s - 12)
  {
    NextWord(s);
    Parity(s + 1);
    Parity(size - s - 12);
  }

  lemma SplitLast(base: nat, st: State, size: nat, s: nat)
    requires LastFree(base, st, size) && Splits(size, s)
    ensures Enabled(base, st, MallocCall(s)) && LastFree(base, Next(base, st, MallocCall(s)), size - s - 12)
  {
    SplitState(base, st, size, s);
    StepKeepsInv(base, st, MallocCall(s));
    SplitSizesUse(size, s);
    OthersStayUsed(base, st, size, s);
  }

  lemma OthersStayUsed(base: nat, st: State, size: nat, s: nat)
    requires LastFree(base, st, size) && Splits(size, s)
    ensures var n := |st.starts| - 1;
            var b := st.starts[n];
            && b + HEADER + s / 4 + HEADER <= |st.h|
            && var h' := Take(st.h, base, b, s);
            && h'[b] == s + 1 && h'[b + HEADER + s / 4] == size - s - 12
            && forall k: nat :: k < n ==> Used(h'[st.starts[k]])
  {
    SplitState(base, st, size, s);
    var n := |st.starts| - 1;
    TakeWords(st.h, base, st.starts[n], s);
    forall k: nat | k < n ensures Used(Take(st.h, base, st.starts[n], s)[st.starts[k]]) {
      Ordered(st.h, base, st.starts, k, n);
      assert k + 1 < |st.starts|;
    }
  }

  /** What is left of a free last block after the requests from the i-th on, if each of them splits it. */
  function Left(size: nat, requests: seq<nat>, i: nat): Option<nat>
    requires i <= |requests|
    decreases |requests| - i
  {
    if i == |requests| then Some(size)
    else if Splits(size, requests[i]) then Left(size - requests[i] - 12, requests, i + 1) else None
  }

  function MallocCalls(requests: seq<nat>, i: nat): seq<Step>
    requires i <= |requests|
  {
    seq(|requests| - i, j requires 0 <= j < |requests| - i => MallocCall(requests[i + j]))
  }

  lemma FirstThenRest(base: nat, st: State, step: Step, rest: seq<State>, steps: seq<Step>)
    requires IsRun(base, rest, steps) && RunStep(base, st, step, rest[0])
    ensures IsRun(base, [st] + rest, [step] + steps)
  {
    var states, all := [st] + rest, [step] + steps;
    forall i: nat | i < |all| ensures RunStep(base, states[i], all[i], states[i + 1]) {
      if i > 0 { assert RunStep(base, rest[i - 1], steps[i - 1], rest[i - 1 + 1]); }
    }
  }

  /** The requests from the i-th on, made one after the other from state st, leave a free last block of a size. */
  ghost predicate Ran(base: nat, st: State, requests: seq<nat>, i: nat, states: seq<State>, size: nat)
    requires i <= |requests|
  {
    && IsRun(base, states, MallocCalls(requests, i)) && |states| == |requests| - i + 1 && states[0] == st
    && LastFree(base, states[|requests| - i], size)
  }

  lemma RanFromEarlier(base: nat, st: State, st1: State, requests: seq<nat>, i: nat, rest: seq<State>, size: nat)
    requires i < |requests| && RunStep(base, st, MallocCall(requests[i]), st1)
    requires Ran(base, st1, requests, i + 1, rest, size)
    ensures Ran(base, st, requests, i, [st] + rest, size)
  {
    FirstThenRest(base, st, MallocCall(requests[i]), rest, MallocCalls(requests, i + 1));
    MallocCallsStep(requests, i);
    assert ([st] + rest)[|requests| - i] == rest[|requests| - (i + 1)];
  }

  lemma {:induction false} SplittingRun(base: nat, st: State, size: nat, requests: seq<nat>, i: nat)
    returns (states: seq<State>)
    requires LastFree(base, st, size) && i <= |requests| && Left(size, requests, i).Some?
    ensures Ran(base, st, requests, i, states, Left(size, requests, i).value)
    decreases |requests| - i
  {
    if i == |requests| {
      states := [st];
    } else {
      var s := requests[i];
      var st1 := SplitStep(base, st, size, s);
      var rest := SplittingRun(base, st1, size - s - 12, requests, i + 1);
      RanFromEarlier(base, st, st1, requests, i, rest, Left(size, requests, i).value);
      states := [st] + rest;
    }
  }

  lemma SplitStep(base: nat, st: State, size: nat, s: nat) returns (st1: State)
    requires LastFree(base, st, size) && Splits(size, s)
    ensures RunStep(base, st, MallocCall(s), st1) && LastFree(base, st1, size - s - 12)
  {
    SplitLast(base, st, size, s);
    st1 := Next(base, st, MallocCall(s));
  }

  lemma MallocCallsStep(requests: seq<nat>, i: nat)
    requires i < |requests|
    ensures MallocCalls(requests, i) == [MallocCall(requests[i])] + MallocCalls(requests, i + 1)
  {
  }

  /** Requests that halve the heap until four bytes are left. */
  function Halving(): seq<nat> { [20476, 10232, 5112, 2548, 1268, 628, 308, 148, 68, 28, 8] }

  lemma HalvingEnd()
    ensures Left(624, Halving(), 6) == Some(4)
  {
    var r := Halving();
    assert Left(4, r, 11) == Some(4);
    assert Left(24, r, 10) == Some(4);
    assert Left(64, r, 9) == Some(4);
    assert Left(144, r, 8) == Some(4);
    assert Left(304, r, 7) == Some(4);
  }

  lemma HalvingLeavesFour()
    ensures Left(HEAP_SIZE, Halving(), 0) == Some(4)
  {
    var r := Halving();
    HalvingEnd();
    assert Left(1264, r, 5) == Some(4);
    assert Left(2544, r, 4) == Some(4);
    assert Left(5104, r, 3) == Some(4);
    assert Left(10228, r, 2) == Some(4);
    assert Left(20472, r, 1) == Some(4);
  }

  /**
   Eleven requests after which malloc has written a header, words 10239 to 10241, that is mapped in its first word
   only.
   */
  lemma UnmappedHeaderIsReachable(base: nat, st: State) returns (states: seq<State>)
    requires Fresh(st)
    ensures IsRun(base, states, MallocCalls(Halving(), 0)) && states[0] == st
    ensures var st' := states[|Halving()|];
            && Inv(base, st') && st'.starts[|st'.starts| - 1] == 10239
            && IsMapped(10239) && !IsMapped(10240) && !IsMapped(10241)
  {
    FreshInv(base, st);
    HalvingLeavesFour();
    states := SplittingRun(base, st, HEAP_SIZE, Halving(), 0);
    var st' := states[|Halving()|];
    assert BlockOk(st'.h, base, st'.starts, |st'.starts| - 1);
  }
}
