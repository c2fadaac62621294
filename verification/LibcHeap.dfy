/**
 The user-space heap of the C library: first fit with splitting, block headers kept in the heap itself. The heap is
 an array of 32-bit words; pointers are byte addresses, so word i of the heap is address base + 4 * i. A block is
 three words (size with the used mark in bit 0, next block, previous block) followed by its payload.
 */
module LibcHeap {
  import opened Limits
  import opened Least

  const HEADER: nat := 3
  const HEAP_SIZE: nat := 40960
  /** The first block's size leaves out its own header, so the blocks span three words more than were mapped. */
  const WORDS: nat := HEADER + HEAP_SIZE / 4
  /** Words after the heap that a split of a too small block can hit. */
  const SLACK: nat := 2

  predicate Used(w: nat) { w % 2 == 1 }
  function Size(w: nat): nat { w - w % 4 }

  function Address(base: nat, i: nat): nat { base + 4 * i }

  /** size rounded up to four bytes, in 32-bit arithmetic. */
  function Round(size: nat): (s: nat)
    requires size < TWO32
    ensures s % 4 == 0 && s < TWO32
    ensures size <= TWO32 - 4 ==> size <= s < size + 4
  {
    (size + if size % 4 == 0 then 0 else 4 - size % 4) % TWO32
  }

  // ---- The list of blocks ----

  function NextStart(starts: seq<nat>, k: nat): nat
    requires k < |starts|
  {
    if k + 1 < |starts| then starts[k + 1] else WORDS
  }

  /** The bk field names some earlier block, not always the one just before. */
  ghost predicate BackOk(h: seq<nat>, base: nat, starts: seq<nat>, k: nat)
    requires k < |starts| && starts[k] + 3 <= |h|
  {
    if k == 0 then h[starts[k] + 2] == 0
    else exists j: nat :: j < k && h[starts[k] + 2] == Address(base, starts[j])
  }

  ghost predicate BlockOk(h: seq<nat>, base: nat, starts: seq<nat>, k: nat)
    requires k < |starts| && WORDS <= |h|
  {
    var s, e := starts[k], NextStart(starts, k);
    && s + HEADER <= e <= WORDS
    && h[s] % 4 <= 1 && Size(h[s]) == 4 * (e - s - HEADER)
    && h[s + 1] == (if k + 1 < |starts| then Address(base, starts[k + 1]) else 0)
    && BackOk(h, base, starts, k)
  }

  /** The blocks linked by fd lie in address order and tile the heap exactly. */
  ghost predicate Tiled(h: seq<nat>, base: nat, starts: seq<nat>) {
    && |h| >= WORDS
    && |starts| > 0 && starts[0] == 0
    && (forall k: nat :: k < |starts| ==> BlockOk(h, base, starts, k))
  }

  lemma {:induction false} Ordered(h: seq<nat>, base: nat, starts: seq<nat>, j: nat, k: nat)
    requires Tiled(h, base, starts) && j < k < |starts|
    ensures NextStart(starts, j) <= starts[k] && starts[j] + HEADER <= starts[k] && starts[k] + HEADER <= WORDS
    decreases k
  {
    assert BlockOk(h, base, starts, j) && BlockOk(h, base, starts, k - 1) && BlockOk(h, base, starts, k);
    if j < k - 1 { Ordered(h, base, starts, j, k - 1); }
  }

  /** Headers and payloads of different blocks never meet. */
  lemma BlocksAreDisjoint(h: seq<nat>, base: nat, starts: seq<nat>, j: nat, k: nat, x: nat)
    requires Tiled(h, base, starts) && j < |starts| && k < |starts|
    requires starts[j] <= x < NextStart(starts, j) && starts[k] <= x < NextStart(starts, k)
    ensures j == k
  {
    if j < k { Ordered(h, base, starts, j, k); }
    if k < j { Ordered(h, base, starts, k, j); }
  }

  /** Every word of the heap belongs to a block. */
  lemma {:induction false} EveryWordHasABlock(h: seq<nat>, base: nat, starts: seq<nat>, x: nat, k: nat)
    requires Tiled(h, base, starts) && k < |starts| && x < NextStart(starts, k)
    ensures exists j: nat :: j <= k && starts[j] <= x < NextStart(starts, j)
    decreases k
  {
    if starts[k] > x { EveryWordHasABlock(h, base, starts, x, k - 1); }
  }

  // ---- malloc on the words ----

  /** Block k is free and large enough for s bytes. */
  predicate Fits(h: seq<nat>, starts: seq<nat>, k: nat, s: nat)
    requires k < |starts| && starts[k] < |h|
  {
    !Used(h[starts[k]]) && h[starts[k]] >= s
  }

  /** What malloc writes when it takes the free block at word b for s bytes. */
  function Take(h: seq<nat>, base: nat, b: nat, s: nat): seq<nat>
    requires s % 4 == 0 && b + HEADER + s / 4 + HEADER <= |h| && s < h[b] / 2
  {
    var c := b + HEADER + s / 4;
    var left := (h[b] - s - 12) % TWO32;
    h[c := left - left % 4][c + 2 := Address(base, b)][c + 1 := h[b + 1]][b + 1 := Address(base, c)][b := s + 1]
  }

  function AfterMalloc(h: seq<nat>, base: nat, b: nat, s: nat): seq<nat>
    requires s % 4 == 0 && b < |h| && (s < h[b] / 2 ==> b + HEADER + s / 4 + HEADER <= |h|)
  {
    if s < h[b] / 2 then Take(h, base, b, s) else h[b := h[b] + 1]
  }

  function StartsAfter(h: seq<nat>, starts: seq<nat>, k: nat, s: nat): seq<nat>
    requires k < |starts| && starts[k] < |h|
  {
    if s < h[starts[k]] / 2 then starts[..k + 1] + [starts[k] + HEADER + s / 4] + starts[k + 1..] else starts
  }

  /** The splits that leave no room for the new header: 4 or 8 bytes for a request of 0, 12 for a request of 4. */
  predicate TooTight(size: nat, s: nat) { (s == 0 && (size == 4 || size == 8)) || (s == 4 && size == 12) }

  lemma SplitHasRoom(size: nat, s: nat)
    requires size % 4 == 0 && s % 4 == 0 && s < size / 2
    ensures s + 12 <= size <==> !TooTight(size, s)
  {
    if s >= 8 {
      assert size >= 2 * s + 4;
    }
  }

  lemma SameHeader(h: seq<nat>, h': seq<nat>, base: nat, starts: seq<nat>, k: nat)
    requires k < |starts| && WORDS <= |h| && WORDS <= |h'| && BlockOk(h, base, starts, k)
    requires h'[starts[k]] == h[starts[k]] && h'[starts[k] + 1] == h[starts[k] + 1]
        && h'[starts[k] + 2] == h[starts[k] + 2]
    ensures BlockOk(h', base, starts, k)
  {
  }

  lemma SizeWords(w: nat)
    requires w % 4 <= 1
    ensures Used(w) <==> w % 4 == 1
    ensures !Used(w) ==> Size(w) == w && (w + 1) % 4 == 1 && Size(w + 1) == w && Used(w + 1)
    ensures (w - w % 2) % 4 == 0 && Size(w - w % 2) == Size(w)
  {
    Parity(w);
    if w % 4 == 0 { NextWord(w); Parity(w + 1); }
    assert w - w % 2 == Size(w);
    Multiple(w);
  }

  lemma Parity(w: nat)
    requires w % 4 <= 1
    ensures w % 2 == w % 4
  {
    var k := 2 * (w / 4) - w / 2;
    assert w % 2 - w % 4 == 2 * k;
    assert k < 1 && k > -1;
  }

  lemma NextWord(w: nat)
    requires w % 4 == 0
    ensures (w + 1) % 4 == 1
  {
  }

  lemma Multiple(w: nat)
    ensures (w - w % 4) % 4 == 0
  {
  }

  /** The size word of a free block is its payload in bytes. */
  lemma FreeSize(h: seq<nat>, base: nat, starts: seq<nat>, k: nat)
    requires k < |starts| && WORDS <= |h| && BlockOk(h, base, starts, k) && !Used(h[starts[k]])
    ensures h[starts[k]] == 4 * (NextStart(starts, k) - starts[k] - HEADER) && NextStart(starts, k) <= WORDS
  {
    SizeWords(h[starts[k]]);
  }

  lemma MallocKeeps(h: seq<nat>, base: nat, starts: seq<nat>, k: nat, s: nat)
    requires Tiled(h, base, starts) && k < |starts| && BlockOk(h, base, starts, k) && |h| >= WORDS + SLACK
    requires s % 4 == 0 && Fits(h, starts, k, s) && !(s < h[starts[k]] / 2 && TooTight(h[starts[k]], s))
    ensures s < h[starts[k]] / 2 ==> starts[k] + HEADER + s / 4 + HEADER <= WORDS
    ensures Tiled(AfterMalloc(h, base, starts[k], s), base, StartsAfter(h, starts, k, s))
  {
    var b := starts[k];
    FreeSize(h, base, starts, k);
    if s < h[b] / 2 {
      SplitHasRoom(h[b], s);
      SplitKeeps(h, base, starts, k, s);
    } else {
      MarkKeeps(h, base, starts, k);
    }
  }

  lemma MarkKeeps(h: seq<nat>, base: nat, starts: seq<nat>, k: nat)
    requires Tiled(h, base, starts) && k < |starts| && BlockOk(h, base, starts, k) && !Used(h[starts[k]])
    ensures Tiled(h[starts[k] := h[starts[k]] + 1], base, starts)
  {
    var h' := h[starts[k] := h[starts[k]] + 1];
    SizeWords(h[starts[k]]);
    forall j: nat | j < |starts| ensures BlockOk(h', base, starts, j) {
      assert BlockOk(h, base, starts, j);
      if j < k { Ordered(h, base, starts, j, k); }
      if k < j { Ordered(h, base, starts, k, j); }
      if j != k { SameHeader(h, h', base, starts, j); }
    }
  }

  /** A split with room writes two headers and nothing else. */
  lemma TakeWords(h: seq<nat>, base: nat, b: nat, s: nat)
    requires s % 4 == 0 && b + HEADER + s / 4 + HEADER <= |h| && s < h[b] / 2
    requires h[b] % 4 == 0 && s + 12 <= h[b] < TWO32
    ensures var h', c := Take(h, base, b, s), b + HEADER + s / 4;
            && |h'| == |h|
            && h'[b] == s + 1 && h'[b + 1] == Address(base, c) && h'[b + 2] == h[b + 2]
            && h'[c] == h[b] - s - 12 && h'[c + 1] == h[b + 1] && h'[c + 2] == Address(base, b)
            && (forall x: nat :: x < |h| && (x < b || b + 2 <= x < c || c + 3 <= x) ==> h'[x] == h[x])
  {
    LeftOver(h[b], s);
  }

  /** What the split leaves for the new block needs no rounding. */
  lemma LeftOver(size: nat, s: nat)
    requires size % 4 == 0 && s % 4 == 0 && s + 12 <= size < TWO32
    ensures var left := (size - s - 12) % TWO32; left - left % 4 == size - s - 12
  {
  }

  lemma SplitKeeps(h: seq<nat>, base: nat, starts: seq<nat>, k: nat, s: nat)
    requires Tiled(h, base, starts) && k < |starts| && BlockOk(h, base, starts, k)
    requires s % 4 == 0 && Fits(h, starts, k, s) && s < h[starts[k]] / 2 && s + 12 <= h[starts[k]]
    ensures starts[k] + HEADER + s / 4 + HEADER <= NextStart(starts, k)
    ensures Tiled(Take(h, base, starts[k], s), base, StartsAfter(h, starts, k, s))
  {
    var h', starts' := Take(h, base, starts[k], s), StartsAfter(h, starts, k, s);
    AtSplit(h, base, starts, k, s);
    forall j: nat | j < |starts'| ensures BlockOk(h', base, starts', j) {
      if j < k {
        BeforeSplit(h, base, starts, k, s, j);
      } else if j > k + 1 {
        AfterSplit(h, base, starts, k, s, j - 1);
      }
    }
  }

  lemma TakeElsewhere(h: seq<nat>, base: nat, b: nat, s: nat)
    requires s % 4 == 0 && b + HEADER + s / 4 + HEADER <= |h| && s < h[b] / 2
    ensures var h', c := Take(h, base, b, s), b + HEADER + s / 4;
            |h'| == |h| && forall x: nat :: x < |h| && (x < b || c + 3 <= x) ==> h'[x] == h[x]
  {
  }

  lemma BeforeSplit(h: seq<nat>, base: nat, starts: seq<nat>, k: nat, s: nat, j: nat)
    requires Tiled(h, base, starts) && j < k < |starts| && BlockOk(h, base, starts, k)
    requires s % 4 == 0 && s < h[starts[k]] / 2 && starts[k] + HEADER + s / 4 + HEADER <= |h|
    ensures var starts' := StartsAfter(h, starts, k, s);
            j < |starts'| && BlockOk(Take(h, base, starts[k], s), base, starts', j)
  {
    Ordered(h, base, starts, j, k);
    assert BlockOk(h, base, starts, j);
    TakeElsewhere(h, base, starts[k], s);
    var h', starts' := Take(h, base, starts[k], s), StartsAfter(h, starts, k, s);
    assert starts'[j] == starts[j] && NextStart(starts', j) == NextStart(starts, j);
    if j > 0 {
      var i: nat :| i < j && h[starts[j] + 2] == Address(base, starts[i]);
      assert i < j && h'[starts'[j] + 2] == Address(base, starts'[i]);
    }
  }

  lemma AtSplit(h: seq<nat>, base: nat, starts: seq<nat>, k: nat, s: nat)
    requires Tiled(h, base, starts) && k < |starts| && BlockOk(h, base, starts, k)
    requires s % 4 == 0 && Fits(h, starts, k, s) && s < h[starts[k]] / 2 && s + 12 <= h[starts[k]]
    ensures starts[k] + HEADER + s / 4 + HEADER <= NextStart(starts, k)
    ensures var h', starts' := Take(h, base, starts[k], s), StartsAfter(h, starts, k, s);
            BlockOk(h', base, starts', k) && BlockOk(h', base, starts', k + 1)
  {
    var b, c := starts[k], starts[k] + HEADER + s / 4;
    var starts' := StartsAfter(h, starts, k, s);
    FreeSize(h, base, starts, k);
    SplitHasRoom(h[b], s);
    SplitEnd(b, NextStart(starts, k), h[b], s);
    assert |starts'| == |starts| + 1 && starts'[k] == b && starts'[k + 1] == c;
    assert forall i: nat :: i < k ==> starts'[i] == starts[i];
    assert NextStart(starts', k + 1) == NextStart(starts, k);
    assert k + 2 < |starts'| <==> k + 1 < |starts|;
    TakeWords(h, base, b, s);
    TwoBlocks(h, Take(h, base, b, s), base, starts, starts', k, s, c);
  }

  /** The sizes written for the two halves of a block from b to e are the words they have. */
  lemma SplitSizes(size: nat, s: nat, b: nat, e: nat)
    requires b + HEADER <= e && size == 4 * (e - b - HEADER) && s % 4 == 0 && s + 12 <= size
    ensures var c := b + HEADER + s / 4;
            && (s + 1) % 4 == 1 && Size(s + 1) == 4 * (c - b - HEADER) && c + HEADER <= e
            && (size - s - 12) % 4 == 0 && Size(size - s - 12) == 4 * (e - c - HEADER)
  {
    NextWord(s);
  }

  lemma TwoBlocks(h: seq<nat>, h': seq<nat>, base: nat, starts: seq<nat>, starts': seq<nat>, k: nat, s: nat, c: nat)
    requires k < |starts| && |h'| == |h| && WORDS <= |h| && BlockOk(h, base, starts, k) && k + 1 < |starts'|
    requires var b := starts[k];
             && s % 4 == 0 && s + 12 <= h[b] && h[b] % 4 == 0 && c == b + HEADER + s / 4
             && h'[b] == s + 1 && h'[b + 1] == Address(base, c) && h'[b + 2] == h[b + 2]
             && c + 2 < |h| && h'[c] == h[b] - s - 12 && h'[c + 1] == h[b + 1] && h'[c + 2] == Address(base, b)
             && starts'[k] == b && starts'[k + 1] == c && (forall i: nat :: i < k ==> starts'[i] == starts[i])
    requires NextStart(starts', k + 1) == NextStart(starts, k)
    requires k + 2 < |starts'| <==> k + 1 < |starts|
    ensures BlockOk(h', base, starts', k) && BlockOk(h', base, starts', k + 1)
  {
    SizeWords(h[starts[k]]);
    SplitSizes(h[starts[k]], s, starts[k], NextStart(starts, k));
    if k > 0 {
      var i: nat :| i < k && h[starts[k] + 2] == Address(base, starts[i]);
      assert i < k && h'[starts'[k] + 2] == Address(base, starts'[i]);
    }
    assert BackOk(h', base, starts', k);
    assert h'[c + 2] == Address(base, starts'[k]);
    assert BackOk(h', base, starts', k + 1);
  }

  lemma AfterSplit(h: seq<nat>, base: nat, starts: seq<nat>, k: nat, s: nat, j: nat)
    requires Tiled(h, base, starts) && k < j < |starts| && BlockOk(h, base, starts, k)
    requires s % 4 == 0 && s < h[starts[k]] / 2 && starts[k] + HEADER + s / 4 + HEADER <= NextStart(starts, k) <= |h|
    ensures var starts' := StartsAfter(h, starts, k, s);
            j + 1 < |starts'| && BlockOk(Take(h, base, starts[k], s), base, starts', j + 1)
  {
    Ordered(h, base, starts, k, j);
    assert BlockOk(h, base, starts, j);
    TakeElsewhere(h, base, starts[k], s);
    var h', starts' := Take(h, base, starts[k], s), StartsAfter(h, starts, k, s);
    assert starts'[j + 1] == starts[j] && NextStart(starts', j + 1) == NextStart(starts, j);
    var i: nat :| i < j && h[starts[j] + 2] == Address(base, starts[i]);
    var i' := if i <= k then i else i + 1;
    assert i' < j + 1 && h'[starts'[j + 1] + 2] == Address(base, starts'[i']);
  }

  // ---- Exactly when malloc keeps the heap ----

  /** Two tilings that agree below a block agree on the blocks up to it. */
  lemma {:induction false} SamePrefix(h: seq<nat>, h': seq<nat>, base: nat, starts: seq<nat>, starts': seq<nat>, k: nat)
    requires Tiled(h, base, starts) && Tiled(h', base, starts') && k < |starts|
    requires forall x: nat :: x < starts[k] && x < |h| && x < |h'| ==> h'[x] == h[x]
    ensures k < |starts'| && starts'[k] == starts[k]
    decreases k
  {
    if k > 0 {
      Ordered(h, base, starts, k - 1, k);
      SamePrefix(h, h', base, starts, starts', k - 1);
      assert BlockOk(h, base, starts, k - 1) && BlockOk(h', base, starts', k - 1) && BlockOk(h, base, starts, k);
    }
  }

  lemma HugeBlock(h: seq<nat>, base: nat, starts: seq<nat>, k: nat)
    requires k < |starts| && WORDS <= |h| && starts[k] < WORDS && h[starts[k]] >= TWO32 - 8
    ensures !BlockOk(h, base, starts, k)
  {
  }

  lemma TightSplitBreaks(h: seq<nat>, base: nat, starts: seq<nat>, k: nat, s: nat, starts': seq<nat>)
    requires Tiled(h, base, starts) && k < |starts| && BlockOk(h, base, starts, k) && |h| >= WORDS + SLACK
    requires s % 4 == 0 && Fits(h, starts, k, s) && s < h[starts[k]] / 2 && TooTight(h[starts[k]], s)
    ensures !Tiled(AfterMalloc(h, base, starts[k], s), base, starts')
  {
    var b := starts[k];
    var c := b + HEADER + s / 4;
    var h' := AfterMalloc(h, base, b, s);
    assert (h[b] - s - 12) % TWO32 >= TWO32 - 8;
    assert h'[b] == s + 1 && h'[c] >= TWO32 - 8;
    if Tiled(h', base, starts') {
      SamePrefix(h, h', base, starts, starts', k);
      assert BlockOk(h', base, starts', k);
      assert c < WORDS && starts'[k + 1] == c;
      HugeBlock(h', base, starts', k + 1);
    }
  }

  /** malloc leaves a tiled heap exactly when it is not one of the three splits without room for a header. */
  lemma MallocKeepsExactly(h: seq<nat>, base: nat, starts: seq<nat>, k: nat, s: nat)
    requires Tiled(h, base, starts) && k < |starts| && BlockOk(h, base, starts, k) && |h| >= WORDS + SLACK
    requires s % 4 == 0 && Fits(h, starts, k, s)
    ensures (exists starts' :: Tiled(AfterMalloc(h, base, starts[k], s), base, starts')) <==> !TooTight(h[starts[k]], s)
  {
    if s < h[starts[k]] / 2 && TooTight(h[starts[k]], s) {
      forall starts' ensures !Tiled(AfterMalloc(h, base, starts[k], s), base, starts') {
        TightSplitBreaks(h, base, starts, k, s, starts');
      }
    } else {
      MallocKeeps(h, base, starts, k, s);
    }
  }

  /** Requests of 5 bytes up to 2^32 - 4 never meet the bad splits. */
  lemma LargeRequestsAreSafe(size: nat, block: nat)
    requires 5 <= size <= TWO32 - 4
    ensures !TooTight(block, Round(size)) && Round(size) >= 8
  {
  }

  // ---- The allocator as it runs ----

  ghost predicate FirstFit(h: seq<nat>, starts: seq<nat>, k: nat, s: nat)
    requires forall j: nat :: j < |starts| ==> starts[j] < |h|
  {
    k < |starts| && Fits(h, starts, k, s) && forall j: nat :: j < k ==> !Fits(h, starts, j, s)
  }

  predicate SplitFits(h: seq<nat>, b: nat, s: nat) {
    b < |h| && (s < h[b] / 2 ==> b + HEADER + s / 4 + HEADER <= |h|)
  }

  /** Block k was the first to fit s bytes, the words are what taking it leaves, and p points at its payload. */
  ghost predicate Allocated(h: seq<nat>, h': seq<nat>, base: nat, starts: seq<nat>, k: nat, s: nat, p: nat) {
    && (forall j: nat :: j < |starts| ==> starts[j] < |h|) && FirstFit(h, starts, k, s)
    && p == Address(base, starts[k] + HEADER)
    && s % 4 == 0 && SplitFits(h, starts[k], s) && h' == AfterMalloc(h, base, starts[k], s)
  }

  lemma SplitIsInBounds(h: seq<nat>, base: nat, starts: seq<nat>, k: nat, s: nat)
    requires Tiled(h, base, starts) && k < |starts| && |h| >= WORDS + SLACK && starts[k] < |h|
    requires s % 4 == 0 && Fits(h, starts, k, s)
    ensures SplitFits(h, starts[k], s)
  {
    assert BlockOk(h, base, starts, k);
    FreeSize(h, base, starts, k);
    if s < h[starts[k]] / 2 { SplitEnd(starts[k], NextStart(starts, k), h[starts[k]], s); }
  }

  lemma SplitEnd(b: nat, e: nat, size: nat, s: nat)
    requires b + HEADER <= e && size == 4 * (e - b - HEADER) && s % 4 == 0 && s < size / 2
    ensures b + HEADER + s / 4 + HEADER <= e + SLACK
    ensures !TooTight(size, s) ==> b + HEADER + s / 4 + HEADER <= e
  {
    SplitHasRoom(size, s);
  }

  lemma MallocKeepsStarts(h: seq<nat>, base: nat, starts: seq<nat>, k: nat, s: nat)
    requires Tiled(h, base, starts) && k < |starts| && starts[k] < |h| && |h| >= WORDS + SLACK
    requires s % 4 == 0 && Fits(h, starts, k, s) && !TooTight(h[starts[k]], s) && SplitFits(h, starts[k], s)
    ensures var starts' := StartsAfter(h, starts, k, s);
            && Tiled(AfterMalloc(h, base, starts[k], s), base, starts')
            && (forall j: nat :: j < |starts'| ==> starts'[j] < WORDS)
  {
    assert BlockOk(h, base, starts, k);
    MallocKeeps(h, base, starts, k, s);
    TiledStarts(AfterMalloc(h, base, starts[k], s), base, StartsAfter(h, starts, k, s));
  }

  lemma TiledStarts(h: seq<nat>, base: nat, starts: seq<nat>)
    requires Tiled(h, base, starts)
    ensures forall k: nat :: k < |starts| ==> starts[k] < WORDS
  {
    forall k: nat | k < |starts| ensures starts[k] < WORDS { assert BlockOk(h, base, starts, k); }
  }

  /** free clears the used mark. */
  function AfterFree(h: seq<nat>, b: nat): seq<nat>
    requires b < |h|
  {
    h[b := h[b] - h[b] % 2]
  }

  lemma FreeKeeps(h: seq<nat>, base: nat, starts: seq<nat>, k: nat)
    requires Tiled(h, base, starts) && k < |starts| && starts[k] < WORDS
    ensures Tiled(AfterFree(h, starts[k]), base, starts)
  {
    var h' := AfterFree(h, starts[k]);
    assert BlockOk(h, base, starts, k);
    SizeWords(h[starts[k]]);
    forall j: nat | j < |starts| ensures BlockOk(h', base, starts, j) {
      assert BlockOk(h, base, starts, j);
      if j < k { Ordered(h, base, starts, j, k); }
      if k < j { Ordered(h, base, starts, k, j); }
      if j != k { SameHeader(h, h', base, starts, j); }
    }
  }

  class Heap {
    const mem: array<nat>
    const base: nat
    ghost var starts: seq<nat>

    ghost predicate Valid()
      reads this, mem
    {
      && mem.Length == WORDS + SLACK
      && 0 < base && Address(base, mem.Length) <= TWO32
      && Tiled(mem[..], base, starts)
      && (forall k: nat :: k < |starts| ==> starts[k] < WORDS)
    }

    /** init_libc: one free block over the whole heap. */
    constructor (address: nat)
      requires 0 < address && Address(address, WORDS + SLACK) <= TWO32
      ensures Valid() && fresh(mem) && base == address && starts == [0] && mem[0] == HEAP_SIZE
    {
      base := address;
      mem := new nat[WORDS + SLACK];
      starts := [0];
      new;
      mem[0] := HEAP_SIZE;
      mem[1] := 0;
      mem[2] := 0;
      assert BlockOk(mem[..], base, starts, 0);
    }

    /** malloc's search along fd; None when the list ends, where the source loops for ever. */
    method Search(s: nat) returns (block: Option<nat>, ghost k: nat)
      requires Valid()
      ensures block.None? ==> forall j: nat :: j < |starts| ==> !Fits(mem[..], starts, j, s)
      ensures block.Some? ==> FirstFit(mem[..], starts, k, s) && block.value == Address(base, starts[k])
    {
      ghost var h := mem[..];
      var p := base;
      k := 0;
      assert BlockOk(h, base, starts, 0);
      while Used(mem[(p - base) / 4]) || mem[(p - base) / 4] < s
        invariant k < |starts| && p == Address(base, starts[k]) && BlockOk(h, base, starts, k)
        invariant forall j: nat :: j < k ==> !Fits(h, starts, j, s)
        decreases |starts| - k
      {
        assert !Fits(h, starts, k, s);
        p := mem[(p - base) / 4 + 1];
        if p == 0 { return None, k; }
        k := k + 1;
        assert BlockOk(h, base, starts, k);
      }
      assert Fits(h, starts, k, s);
      block := Some(p);
    }

    /** malloc's writes once a block is found. */
    method TakeBlock(block: nat, s: nat)
      requires base <= block && (block - base) % 4 == 0 && s % 4 == 0
      requires var b := (block - base) / 4;
               b + 2 < mem.Length && (s < mem[b] / 2 ==> b + HEADER + s / 4 + HEADER <= mem.Length)
      modifies mem
      ensures mem[..] == AfterMalloc(old(mem[..]), base, (block - base) / 4, s)
    {
      ghost var h := mem[..];
      var b := (block - base) / 4;
      if s < mem[b] / 2 {
        var c := b + HEADER + s / 4;
        var left := (mem[b] - s - 12) % TWO32;
        mem[c] := left - left % 4;
        mem[b] := s;
        mem[c + 2] := block;
        mem[c + 1] := mem[b + 1];
        mem[b + 1] := Address(base, c);
        assert mem[..] == h[c := left - left % 4][c + 2 := block][c + 1 := h[b + 1]][b + 1 := Address(base, c)][b := s];
      }
      ghost var h1 := mem[..];
      mem[b] := mem[b] + 1;
      assert mem[..] == h1[b := h1[b] + 1];
    }

    /** The returned k is the place of the chosen block in the list. */
    method Malloc(size: nat) returns (r: Option<nat>, ghost k: nat)
      requires Valid() && size < TWO32
      modifies this, mem
      ensures r.None? ==> mem[..] == old(mem[..]) && starts == old(starts)
      ensures r.None? ==> forall j: nat :: j < |starts| ==> !Fits(mem[..], starts, j, Round(size))
      ensures r.Some? ==> Allocated(old(mem[..]), mem[..], base, old(starts), k, Round(size), r.value)
      ensures r.Some? ==> starts == StartsAfter(old(mem[..]), old(starts), k, Round(size))
      ensures r.Some? && !TooTight(old(mem[..])[old(starts)[k]], Round(size)) ==> Valid()
    {
      ghost var h := mem[..];
      var s := (size + if size % 4 == 0 then 0 else 4 - size % 4) % TWO32;
      assert s == Round(size);
      var block;
      block, k := Search(s);
      if block.None? { return None, k; }
      SplitIsInBounds(h, base, starts, k, s);
      TakeBlock(block.value, s);
      r := Some(block.value + 12);
      assert Allocated(h, mem[..], base, starts, k, s, r.value);
      if !TooTight(h[starts[k]], s) { MallocKeepsStarts(h, base, starts, k, s); }
      starts := StartsAfter(h, starts, k, s);
    }

    method Free(ptr: nat, ghost k: nat)
      requires Valid() && k < |starts| && ptr == Address(base, starts[k] + HEADER)
      modifies mem
      ensures Valid() && mem[..] == AfterFree(old(mem[..]), starts[k])
    {
      ghost var h := mem[..];
      assert BlockOk(h, base, starts, k);
      var b := (ptr - 12 - base) / 4;
      mem[b] := mem[b] - mem[b] % 2;
      assert mem[..] == AfterFree(h, starts[k]);
      FreeKeeps(h, base, starts, k);
    }
  }
}
