/**
 The boot loader's memory map: the E820 list (section 15.1 of the ACPI specification) is merged, cut at 1 MiB,
 aligned to pages, compacted, and searched for a place for the kernel. Addresses and sizes are 64-bit and wrap.
 */
module MemoryMap {
  import opened Limits
  import opened Least

  const MIB: nat := 0x10_0000

  const USABLE: nat := 1
  const UNUSABLE: nat := 2

  type U64 = x: nat | x < 0x1_0000_0000_0000_0000

  datatype Entry = Entry(address: U64, size: U64, kind: nat, extended: nat)

  type Table = seq<Entry>

  predicate Usable(e: Entry) { e.kind == USABLE }

  /** The end of a region, before any wrap. */
  function End(e: Entry): nat { e.address + e.size }

  /** The end of the region fits 64 bits. */
  predicate NoWrap(e: Entry) { Usable(e) ==> End(e) < TWO64 }

  predicate NoneWraps(t: Table) { forall i :: 0 <= i < |t| ==> NoWrap(t[i]) }

  /** Byte x lies in a usable region at or after position k. */
  ghost predicate CoveredFrom(t: Table, k: nat, x: nat) {
    exists i: nat :: k <= i < |t| && Usable(t[i]) && t[i].address <= x < End(t[i])
  }

  ghost predicate Covered(t: Table, x: nat) { CoveredFrom(t, 0, x) }

  // ---- Merging ----

  datatype Range = Range(start: nat, end: nat)

  ghost predicate InRange(r: Range, x: nat) { r.start <= x < r.end }

  /** The three overlap tests, in the order the code makes them; None when the regions are apart. */
  function Join(r: Range, kstart: nat, kend: nat): Option<Range> {
    if r.start <= kstart <= r.end then Some(if kend > r.end then r.(end := kend) else r)
    else if r.start <= kend <= r.end then Some(if kstart < r.start then r.(start := kstart) else r)
    else if kstart <= r.start && kend >= r.end then Some(Range(kstart, kend))
    else None
  }

  function Unmark(e: Entry): Entry { e.(kind := UNUSABLE) }

  /** One turn of the inner loop: a usable entry that meets the range is swallowed and marked unusable. */
  function AbsorbOne(e: Entry, r: Range): (Entry, Range) {
    var j := if Usable(e) then Join(r, e.address, End(e) % TWO64) else None;
    if j.None? then (e, r) else (Unmark(e), j.value)
  }

  /** The inner loop from position k. */
  function Absorb(t: Table, k: nat, r: Range): (res: (Table, Range))
    requires k <= |t|
    ensures |res.0| == |t|
    decreases |t| - k
  {
    if k == |t| then (t, r) else
    var (e, r') := AbsorbOne(t[k], r);
    Absorb(t[k := e], k + 1, r')
  }

  /** Writing the merged range back, without its first MiB. */
  function Cut(e: Entry, r: Range): Entry {
    var start := if r.start < MIB then MIB else r.start;
    Entry(start % TWO64, (r.end - start) % TWO64, if r.end <= MIB then UNUSABLE else e.kind, e.extended)
  }

  function MergeAt(t: Table, i: nat): (t': Table)
    requires i < |t|
    ensures |t'| == |t|
  {
    if !Usable(t[i]) then t else
    var (t1, r) := Absorb(t, i + 1, Range(t[i].address, End(t[i]) % TWO64));
    t1[i := Cut(t1[i], r)]
  }

  function MergeFrom(t: Table, i: nat): (t': Table)
    requires i <= |t|
    ensures |t'| == |t|
    decreases |t| - i
  {
    if i == |t| then t else MergeFrom(MergeAt(t, i), i + 1)
  }

  function Merged(t: Table): Table { MergeFrom(t, 0) }

  lemma JoinIsUnion(r: Range, kstart: nat, kend: nat)
    requires r.start <= r.end && kstart <= kend && Join(r, kstart, kend).Some?
    ensures var j := Join(r, kstart, kend).value;
            && j.start <= j.end && (j.end == r.end || j.end == kend)
            && (forall x: nat :: InRange(j, x) <==> InRange(r, x) || kstart <= x < kend)
  {
  }

  /** What the inner loop leaves of each entry. */
  ghost predicate Thinned(t: Table, t': Table, k: nat) {
    && |t'| == |t|
    && (forall i: nat :: i < |t| && i < k ==> t'[i] == t[i])
    && (forall i: nat :: k <= i < |t| ==> t'[i] == t[i] || (Usable(t[i]) && t'[i] == Unmark(t[i])))
  }

  lemma {:induction false} AbsorbThins(t: Table, k: nat, r: Range)
    requires k <= |t|
    ensures Thinned(t, Absorb(t, k, r).0, k)
    decreases |t| - k
  {
    if k < |t| {
      var (e, r') := AbsorbOne(t[k], r);
      AbsorbThins(t[k := e], k + 1, r');
    }
  }

  lemma CoveredStep(t: Table, k: nat, x: nat)
    requires k < |t|
    ensures CoveredFrom(t, k, x) <==> Covers(t[k], x) || CoveredFrom(t, k + 1, x)
  {
  }

  lemma CoveredSame(t: Table, t': Table, k: nat, x: nat)
    requires |t'| == |t| && forall i: nat :: k <= i < |t| ==> t'[i] == t[i]
    ensures CoveredFrom(t', k, x) <==> CoveredFrom(t, k, x)
  {
    if i: nat :| k <= i < |t| && Usable(t[i]) && t[i].address <= x < End(t[i]) {
      assert k <= i < |t'| && Usable(t'[i]) && t'[i].address <= x < End(t'[i]);
    }
    if i: nat :| k <= i < |t'| && Usable(t'[i]) && t'[i].address <= x < End(t'[i]) {
      assert k <= i < |t| && Usable(t[i]) && t[i].address <= x < End(t[i]);
    }
  }

  ghost predicate Covers(e: Entry, x: nat) { Usable(e) && e.address <= x < End(e) }

  lemma AbsorbOneCovers(e: Entry, r: Range, x: nat)
    requires NoWrap(e) && r.start <= r.end < TWO64
    ensures var (e', r') := AbsorbOne(e, r);
            && NoWrap(e') && r'.start <= r'.end < TWO64
            && (InRange(r', x) || Covers(e', x) <==> InRange(r, x) || Covers(e, x))
  {
    if Usable(e) && Join(r, e.address, End(e)).Some? { JoinIsUnion(r, e.address, End(e)); }
  }

  /** The inner loop moves bytes from the list into the range and loses none, whatever the order of the list. */
  lemma {:induction false} AbsorbCovers(t: Table, k: nat, r: Range, x: nat)
    requires k <= |t| && NoneWraps(t) && r.start <= r.end < TWO64
    ensures var (t', r') := Absorb(t, k, r);
            && r'.start <= r'.end < TWO64
            && (InRange(r', x) || CoveredFrom(t', k, x) <==> InRange(r, x) || CoveredFrom(t, k, x))
    decreases |t| - k
  {
    if k < |t| {
      var (e, r1) := AbsorbOne(t[k], r);
      var t1 := t[k := e];
      assert NoWrap(t[k]);
      AbsorbOneCovers(t[k], r, x);
      AbsorbCovers(t1, k + 1, r1, x);
      AbsorbThins(t1, k + 1, r1);
      CoveredStep(t, k, x);
      CoveredStep(Absorb(t1, k + 1, r1).0, k, x);
      CoveredSame(t, t1, k + 1, x);
    }
  }

  lemma ThinnedNoneWraps(t: Table, t': Table, k: nat)
    requires NoneWraps(t) && Thinned(t, t', k)
    ensures NoneWraps(t')
  {
    forall i | 0 <= i < |t'| ensures NoWrap(t'[i]) { assert NoWrap(t[i]); }
  }

  lemma MergeAtCovers(t: Table, i: nat, x: nat)
    requires i < |t| && NoneWraps(t)
    ensures var t' := MergeAt(t, i);
            && NoneWraps(t')
            && (forall j: nat :: j < i ==> t'[j] == t[j])
            && (Usable(t'[i]) ==> t'[i].address >= MIB)
            && (x >= MIB ==> (CoveredFrom(t', i, x) <==> CoveredFrom(t, i, x)))
  {
    if Usable(t[i]) {
      assert NoWrap(t[i]);
      var r0 := Range(t[i].address, End(t[i]));
      var (t1, r) := Absorb(t, i + 1, r0);
      AbsorbCovers(t, i + 1, r0, x);
      AbsorbThins(t, i + 1, r0);
      ThinnedNoneWraps(t, t1, i + 1);
      var t' := MergeAt(t, i);
      assert t1[i] == t[i] && t' == t1[i := Cut(t[i], r)];
      CutEntry(t[i], r);
      forall j | 0 <= j < |t'| ensures NoWrap(t'[j]) { assert NoWrap(t1[j]); }
      CoveredStep(t, i, x);
      CoveredStep(t', i, x);
      CoveredSame(t1, t', i + 1, x);
    }
  }

  lemma CutEntry(e: Entry, r: Range)
    requires Usable(e) && r.start <= r.end < TWO64
    ensures var c := Cut(e, r);
            if r.end <= MIB then !Usable(c) && NoWrap(c)
            else Usable(c) && c.address == (if r.start < MIB then MIB else r.start) && End(c) == r.end
  {
  }

  /**
   Merging and cutting keep the usable bytes exactly, for entries in any order: afterwards the usable bytes are
   the usable bytes before, without the first MiB.
   */
  lemma {:induction false} MergeFromCovers(t: Table, i: nat, x: nat)
    requires i <= |t| && NoneWraps(t)
    requires forall j: nat :: j < i && Usable(t[j]) ==> t[j].address >= MIB
    ensures NoneWraps(MergeFrom(t, i))
    ensures Covered(MergeFrom(t, i), x) <==> Covered(t, x) && x >= MIB
    decreases |t| - i
  {
    if i < |t| {
      var t' := MergeAt(t, i);
      MergeAtCovers(t, i, x);
      MergeFromCovers(t', i + 1, x);
      if x >= MIB { CoveredPrefix(t, t', i, x); } else { CoveredBelow(t', i + 1, x); }
    } else {
      CoveredBelow(t, i, x);
    }
  }

  lemma CoveredPrefix(t: Table, t': Table, i: nat, x: nat)
    requires i <= |t| && |t'| == |t|
    requires forall j: nat :: j < i ==> t'[j] == t[j]
    requires CoveredFrom(t', i, x) <==> CoveredFrom(t, i, x)
    ensures Covered(t', x) <==> Covered(t, x)
  {
    if j: nat :| j < |t| && Usable(t[j]) && t[j].address <= x < End(t[j]) {
      if j < i { assert Usable(t'[j]); } else { assert CoveredFrom(t, i, x); }
    }
    if j: nat :| j < |t'| && Usable(t'[j]) && t'[j].address <= x < End(t'[j]) {
      if j < i { assert Usable(t[j]); } else { assert CoveredFrom(t', i, x); }
    }
  }

  /** Below 1 MiB only entries not yet cut can cover a byte. */
  lemma CoveredBelow(t: Table, i: nat, x: nat)
    requires i <= |t| && forall j: nat :: j < i && Usable(t[j]) ==> t[j].address >= MIB
    ensures x < MIB && i == |t| ==> !Covered(t, x)
  {
  }

  lemma MergeKeepsBytes(t: Table, x: nat)
    requires NoneWraps(t)
    ensures NoneWraps(Merged(t))
    ensures Covered(Merged(t), x) <==> Covered(t, x) && x >= MIB
  {
    MergeFromCovers(t, 0, x);
  }

  // ---- Address order ----

  /** Usable entries from position k on are in address order. */
  ghost predicate OrderedFrom(t: Table, k: nat) {
    forall i: nat, j: nat :: k <= i < j < |t| && Usable(t[i]) && Usable(t[j]) ==> t[i].address <= t[j].address
  }

  /** No usable entry from position k on starts at or before address a. */
  ghost predicate AllBeyond(t: Table, k: nat, a: nat) {
    forall i: nat :: k <= i < |t| && Usable(t[i]) ==> t[i].address > a
  }

  lemma {:induction false} AbsorbNothing(t: Table, k: nat, r: Range)
    requires k <= |t| && NoneWraps(t) && r.start <= r.end < TWO64 && AllBeyond(t, k, r.end)
    ensures Absorb(t, k, r) == (t, r)
    decreases |t| - k
  {
    if k < |t| {
      assert NoWrap(t[k]);
      assert AbsorbOne(t[k], r) == (t[k], r) && t[k := t[k]] == t;
      AbsorbNothing(t, k + 1, r);
    }
  }

  /** In address order the inner loop swallows everything that touches the range: the rest starts beyond it. */
  lemma {:induction false} AbsorbInOrder(t: Table, k: nat, r: Range)
    requires k <= |t| && NoneWraps(t) && r.start <= r.end < TWO64
    requires OrderedFrom(t, k) && forall i: nat :: k <= i < |t| && Usable(t[i]) ==> r.start <= t[i].address
    ensures var (t', r') := Absorb(t, k, r);
            r'.start == r.start && r'.end >= r.end && AllBeyond(t', k, r'.end)
    decreases |t| - k
  {
    if k < |t| {
      assert NoWrap(t[k]);
      if Usable(t[k]) && t[k].address > r.end {
        assert AllBeyond(t, k, r.end);
        AbsorbNothing(t, k, r);
      } else {
        var (e, r1) := AbsorbOne(t[k], r);
        assert !Usable(e) && r1.start == r.start && r.end <= r1.end < TWO64;
        AbsorbInOrder(t[k := e], k + 1, r1);
        AbsorbThins(t[k := e], k + 1, r1);
      }
    }
  }

  /** The first i entries are final: in order, with a gap after each. */
  ghost predicate SeparatedTo(t: Table, i: nat) {
    forall j: nat, k: nat :: j < i && j < k < |t| && Usable(t[j]) && Usable(t[k]) ==> End(t[j]) < t[k].address
  }

  lemma ThinnedOrdered(t: Table, t': Table, k: nat)
    requires OrderedFrom(t, k) && |t'| == |t|
    requires forall i: nat :: k <= i < |t| ==> t'[i] == t[i] || (Usable(t[i]) && t'[i] == Unmark(t[i]))
    ensures OrderedFrom(t', k)
  {
  }

  lemma SeparatedOneMore(t: Table, t': Table, i: nat, r: Range)
    requires i < |t| && |t'| == |t| && SeparatedTo(t, i) && Usable(t[i]) && r.start <= r.end < TWO64
    requires forall j: nat :: j < i ==> t'[j] == t[j]
    requires forall j: nat :: i < j < |t| ==> t'[j] == t[j] || (Usable(t[j]) && t'[j] == Unmark(t[j]))
    requires t'[i] == Cut(t[i], r) && r.start == t[i].address && AllBeyond(t', i + 1, r.end)
    ensures SeparatedTo(t', i + 1)
  {
    CutEntry(t[i], r);
    forall j: nat, k: nat | j < i + 1 && j < k < |t'| && Usable(t'[j]) && Usable(t'[k])
      ensures End(t'[j]) < t'[k].address
    {
      if j < i {
        assert Usable(t[j]) && Usable(t[k]) && End(t[j]) < t[k].address;
      }
    }
  }

  lemma MergeAtInOrder(t: Table, i: nat)
    requires i < |t| && NoneWraps(t) && OrderedFrom(t, i) && SeparatedTo(t, i)
    ensures var t' := MergeAt(t, i); NoneWraps(t') && OrderedFrom(t', i + 1) && SeparatedTo(t', i + 1)
  {
    MergeAtCovers(t, i, 0);
    if Usable(t[i]) {
      assert NoWrap(t[i]);
      var r0 := Range(t[i].address, End(t[i]));
      AbsorbInOrder(t, i + 1, r0);
      AbsorbCovers(t, i + 1, r0, 0);
      AbsorbThins(t, i + 1, r0);
      var (t1, r) := Absorb(t, i + 1, r0);
      var t' := MergeAt(t, i);
      assert t' == t1[i := Cut(t[i], r)];
      ThinnedOrdered(t, t', i + 1);
      SeparatedOneMore(t, t', i, r);
    }
  }

  lemma {:induction false} MergeFromInOrder(t: Table, i: nat)
    requires i <= |t| && NoneWraps(t) && OrderedFrom(t, i) && SeparatedTo(t, i)
    ensures SeparatedTo(MergeFrom(t, i), |t|)
    decreases |t| - i
  {
    if i < |t| {
      MergeAtInOrder(t, i);
      MergeFromInOrder(MergeAt(t, i), i + 1);
    }
  }

  // ---- Pages ----

  /** Page p lies inside region e. */
  predicate PageIn(e: Entry, p: nat) { e.address <= p * PAGE && (p + 1) * PAGE <= End(e) }

  ghost predicate WholePage(t: Table, p: nat) { forall x: nat :: p * PAGE <= x < (p + 1) * PAGE ==> Covered(t, x) }

  ghost predicate Listed(t: Table, p: nat) { exists i: nat :: i < |t| && Usable(t[i]) && PageIn(t[i], p) }

  /** The byte just after a region is not usable. */
  lemma GapAfter(t: Table, i: nat)
    requires SeparatedTo(t, |t|) && i < |t| && Usable(t[i])
    ensures !Covered(t, End(t[i]))
  {
    forall j: nat | j < |t| && Usable(t[j]) ensures !(t[j].address <= End(t[i]) < End(t[j])) {
      if j < i { assert End(t[j]) < t[i].address; }
      if i < j { assert End(t[i]) < t[j].address; }
    }
  }

  /** With gaps between regions, a page all of whose bytes are usable lies inside one region. */
  lemma WholePageIsListed(t: Table, p: nat)
    requires SeparatedTo(t, |t|)
    ensures WholePage(t, p) <==> Listed(t, p)
  {
    if WholePage(t, p) {
      assert Covered(t, p * PAGE);
      var i: nat :| i < |t| && Usable(t[i]) && t[i].address <= p * PAGE < End(t[i]);
      GapAfter(t, i);
      assert PageIn(t[i], p);
    }
    if i: nat :| i < |t| && Usable(t[i]) && PageIn(t[i], p) {
      forall x: nat | p * PAGE <= x < (p + 1) * PAGE ensures Covered(t, x) {
        assert Usable(t[i]) && t[i].address <= x < End(t[i]);
      }
    }
  }

  /** So after merging an ordered list the pages inside regions are the whole pages of the input above 1 MiB. */
  lemma MergedPages(t: Table, p: nat)
    requires NoneWraps(t) && OrderedFrom(t, 0)
    ensures Listed(Merged(t), p) <==> WholePage(t, p) && p * PAGE >= MIB
  {
    MergeFromInOrder(t, 0);
    WholePageIsListed(Merged(t), p);
    if WholePage(Merged(t), p) {
      assert Covered(Merged(t), p * PAGE);
      MergeKeepsBytes(t, p * PAGE);
    }
    forall x: nat | p * PAGE <= x < (p + 1) * PAGE ensures Covered(Merged(t), x) <==> Covered(t, x) && x >= MIB {
      MergeKeepsBytes(t, x);
    }
  }

  // ---- Alignment ----

  /** Moving the start up to a page boundary. */
  function AlignStart(e: Entry): Entry {
    var low := e.address % PAGE;
    if low == 0 then e else e.(address := (e.address + PAGE - low) % TWO64, size := (e.size - (PAGE - low)) % TWO64)
  }

  /** Moving the end down to a page boundary. */
  function AlignEnd(e: Entry): Entry {
    var high := End(e) % TWO64 % PAGE;
    if high == 0 then e else e.(size := (e.size - high) % TWO64)
  }

  /** The alignment pass on one entry, in 64-bit arithmetic. */
  function AlignEntry(e: Entry): Entry { AlignEnd(AlignStart(e)) }

  function RoundUp(a: nat): nat { if a % PAGE == 0 then a else a + PAGE - a % PAGE }

  /** The region reaches its first page boundary, so that aligning its start leaves a size that is not negative. */
  predicate Reaches(e: Entry) { Usable(e) ==> RoundUp(e.address) <= End(e) }

  lemma AlignGood(e: Entry)
    requires Usable(e) && NoWrap(e) && Reaches(e)
    ensures var a := AlignEntry(e);
            && a.kind == e.kind && a.address == RoundUp(e.address) && End(a) == End(e) - End(e) % PAGE
            && a.address % PAGE == 0 && End(a) % PAGE == 0
  {
    RoundUpAligned(e.address);
    AlignStartGood(e);
    AlignEndGood(AlignStart(e));
  }

  lemma AlignStartGood(e: Entry)
    requires Usable(e) && NoWrap(e) && Reaches(e)
    ensures AlignStart(e) == e.(address := RoundUp(e.address), size := End(e) - RoundUp(e.address))
  {
  }

  lemma AlignEndGood(e: Entry)
    requires e.address % PAGE == 0 && End(e) < TWO64
    ensures AlignEnd(e) == e.(size := e.size - End(e) % PAGE) && (End(e) - End(e) % PAGE) % PAGE == 0
  {
    BoundaryBefore(e.address, End(e));
    PageStart(End(e));
  }

  lemma PageStart(x: nat)
    ensures (x - x % PAGE) % PAGE == 0
  {
    assert x - x % PAGE == x / PAGE * PAGE;
  }

  lemma RoundUpAligned(a: nat)
    ensures RoundUp(a) % PAGE == 0 && a <= RoundUp(a) < a + PAGE
  {
  }

  lemma BoundaryBefore(a: nat, e: nat)
    requires a % PAGE == 0 && a <= e
    ensures a <= e - e % PAGE
  {
  }

  /**
   Page boundaries at or above a are those at or above RoundUp(a); at or below e, those at or below its page start.
   */
  lemma PageBounds(a: nat, e: nat, p: nat)
    ensures a <= p * PAGE <==> RoundUp(a) <= p * PAGE
    ensures (p + 1) * PAGE <= e <==> (p + 1) * PAGE <= e - e % PAGE
  {
  }

  lemma AlignKeepsPages(e: Entry, p: nat)
    requires Usable(e) && NoWrap(e) && Reaches(e)
    ensures PageIn(AlignEntry(e), p) <==> PageIn(e, p)
  {
    AlignGood(e);
    PageBounds(e.address, End(e), p);
  }

  const LAST_PAGE: nat := 0xF_FFFF_FFFF_FFFF

  /** A usable region too short to reach a boundary comes out with a size near 2^64. */
  lemma AlignBad(e: Entry)
    requires Usable(e) && NoWrap(e) && !Reaches(e)
    ensures Usable(AlignEntry(e)) && PageIn(AlignEntry(e), if RoundUp(e.address) < TWO64 then LAST_PAGE else 0)
  {
    var e1 := AlignStart(e);
    RoundUpAligned(e.address);
    assert e1.size == End(e) - RoundUp(e.address) + TWO64;
    if RoundUp(e.address) < TWO64 {
      assert e1.address == RoundUp(e.address) && End(e1) % TWO64 == End(e);
      LastBoundary(RoundUp(e.address));
    } else {
      LastBoundary64(RoundUp(e.address));
      assert e1.address == 0;
    }
  }

  lemma LastBoundary(a: nat)
    requires a % PAGE == 0 && a < TWO64
    ensures a <= LAST_PAGE * PAGE
  {
  }

  lemma LastBoundary64(a: nat)
    requires a % PAGE == 0 && TWO64 <= a < TWO64 + PAGE
    ensures a == TWO64
  {
  }

  function AlignAll(t: Table): (t': Table)
    ensures |t'| == |t|
  {
    seq(|t|, i requires 0 <= i < |t| => AlignEntry(t[i]))
  }

  predicate AllReach(t: Table) { forall i: nat :: i < |t| ==> Reaches(t[i]) }

  lemma AlignAllPages(t: Table, p: nat)
    requires NoneWraps(t) && AllReach(t)
    ensures Listed(AlignAll(t), p) <==> Listed(t, p)
  {
    forall i: nat | i < |t| && Usable(t[i]) ensures PageIn(AlignEntry(t[i]), p) <==> PageIn(t[i], p) {
      assert NoWrap(t[i]) && Reaches(t[i]);
      AlignKeepsPages(t[i], p);
    }
    forall i: nat | i < |t| ensures Usable(AlignAll(t)[i]) == Usable(t[i]) { }
    if i: nat :| i < |t| && Usable(t[i]) && PageIn(t[i], p) {
      assert Usable(AlignAll(t)[i]) && PageIn(AlignAll(t)[i], p);
    }
    if i: nat :| i < |t| && Usable(AlignAll(t)[i]) && PageIn(AlignAll(t)[i], p) {
      assert Usable(t[i]) && PageIn(t[i], p);
    }
  }

  // ---- Compaction ----

  function Compact(t: Table): (c: Table)
    ensures |c| <= |t|
  {
    if t == [] then [] else
    Compact(t[..|t| - 1]) + if Usable(t[|t| - 1]) then [t[|t| - 1]] else []
  }

  lemma {:induction false} CompactMembers(t: Table, k: nat)
    requires k < |Compact(t)|
    ensures exists i: nat :: i < |t| && t[i] == Compact(t)[k] && Usable(t[i])
  {
    var n := |t| - 1;
    if k < |Compact(t[..n])| {
      CompactMembers(t[..n], k);
      var i: nat :| i < n && t[..n][i] == Compact(t[..n])[k] && Usable(t[..n][i]);
      assert t[i] == Compact(t)[k];
    } else {
      assert t[n] == Compact(t)[k];
    }
  }

  lemma {:induction false} CompactHasAll(t: Table, i: nat)
    requires i < |t| && Usable(t[i])
    ensures t[i] in Compact(t)
  {
    if i < |t| - 1 { CompactHasAll(t[..|t| - 1], i); }
  }

  lemma CompactKeepsPages(t: Table, p: nat)
    ensures Listed(Compact(t), p) <==> Listed(t, p)
  {
    if i: nat :| i < |t| && Usable(t[i]) && PageIn(t[i], p) {
      CompactHasAll(t, i);
      var k: nat :| k < |Compact(t)| && Compact(t)[k] == t[i];
      assert Usable(Compact(t)[k]) && PageIn(Compact(t)[k], p);
    }
    if k: nat :| k < |Compact(t)| && Usable(Compact(t)[k]) && PageIn(Compact(t)[k], p) {
      CompactMembers(t, k);
      var i: nat :| i < |t| && t[i] == Compact(t)[k] && Usable(t[i]);
      assert PageIn(t[i], p);
    }
  }

  /** Regions in address order, none reaching into the next. */
  ghost predicate InOrder(t: Table) {
    forall i: nat, j: nat :: i < j < |t| && Usable(t[i]) && Usable(t[j]) ==> End(t[i]) <= t[j].address
  }

  lemma {:induction false} CompactKeepsOrder(t: Table)
    requires InOrder(t)
    ensures InOrder(Compact(t))
  {
    if t != [] {
      var n := |t| - 1;
      CompactKeepsOrder(t[..n]);
      var c := Compact(t[..n]);
      if Usable(t[n]) {
        forall k: nat | k < |c| ensures End(c[k]) <= t[n].address {
          CompactMembers(t[..n], k);
          var i: nat :| i < n && t[..n][i] == c[k] && Usable(t[..n][i]);
          assert Usable(t[i]) && t[i] == c[k];
        }
      }
    }
  }

  // ---- The whole map ----

  function FinalTable(t: Table): Table { Compact(AlignAll(Merged(t))) }

  lemma FinalPages(t: Table, p: nat)
    requires NoneWraps(t) && OrderedFrom(t, 0) && AllReach(Merged(t))
    ensures Listed(FinalTable(t), p) <==> WholePage(t, p) && p * PAGE >= MIB
  {
    MergeKeepsBytes(t, 0);
    MergedPages(t, p);
    AlignAllPages(Merged(t), p);
    CompactKeepsPages(AlignAll(Merged(t)), p);
  }

  lemma ShortRegionBreaks(t: Table, i: nat) returns (p: nat)
    requires NoneWraps(t) && i < |Merged(t)| && !Reaches(Merged(t)[i])
    ensures Listed(FinalTable(t), p) && !(WholePage(t, p) && p * PAGE >= MIB)
  {
    var m := Merged(t);
    MergeKeepsBytes(t, 0);
    assert NoWrap(m[i]);
    AlignBad(m[i]);
    p := if RoundUp(m[i].address) < TWO64 then LAST_PAGE else 0;
    assert Usable(AlignAll(m)[i]) && PageIn(AlignAll(m)[i], p);
    CompactKeepsPages(AlignAll(m), p);
    TopByteIsFree(t);
  }

  lemma TopByteIsFree(t: Table)
    requires NoneWraps(t)
    ensures !Covered(t, TWO64 - 1)
  {
    forall i: nat | i < |t| && Usable(t[i]) ensures End(t[i]) <= TWO64 - 1 { assert NoWrap(t[i]); }
  }

  /**
   For an address-ordered list without wrap-around, the final table lists exactly the pages all of whose bytes
   are usable and at or above 1 MiB, if and only if every merged region reaches its first page boundary.
   */
  lemma MapIsExact(t: Table)
    requires NoneWraps(t) && OrderedFrom(t, 0)
    ensures (forall p: nat :: Listed(FinalTable(t), p) <==> WholePage(t, p) && p * PAGE >= MIB) <==> AllReach(Merged(t))
  {
    if AllReach(Merged(t)) {
      forall p: nat ensures Listed(FinalTable(t), p) <==> WholePage(t, p) && p * PAGE >= MIB { FinalPages(t, p); }
    } else {
      var i: nat :| i < |Merged(t)| && !Reaches(Merged(t)[i]);
      var p := ShortRegionBreaks(t, i);
    }
  }

  // ---- The condition on the list as the firmware gives it ----

  function AboveMib(a: nat): nat { if a < MIB then MIB else a }

  /** Region m is usable and takes in what lies above 1 MiB of region e, its end included. */
  predicate Encloses(m: Entry, e: Entry) { Usable(m) && m.address <= AboveMib(e.address) && End(e) <= End(m) }

  /** The inner loop leaves a usable entry as it is or takes it into the range, even when the entry is empty. */
  lemma {:induction false} AbsorbEncloses(t: Table, k: nat, r: Range, j: nat)
    requires k <= |t| && NoneWraps(t) && r.start <= r.end < TWO64
    ensures var (t', r') := Absorb(t, k, r);
            && r'.start <= r.start && r.end <= r'.end
            && (k <= j < |t| && Usable(t[j]) ==> t'[j] == t[j] || (r'.start <= t[j].address && End(t[j]) <= r'.end))
    decreases |t| - k
  {
    if k < |t| {
      var (e, r1) := AbsorbOne(t[k], r);
      assert NoWrap(t[k]);
      AbsorbEncloses(t[k := e], k + 1, r1, j);
      AbsorbThins(t[k := e], k + 1, r1);
    }
  }

  lemma MergeAtEncloses(t: Table, i: nat, j: nat)
    requires i <= j < |t| && NoneWraps(t) && Usable(t[i]) && Usable(t[j]) && End(t[j]) > MIB
    ensures var t' := MergeAt(t, i); (j > i && t'[j] == t[j]) || Encloses(t'[i], t[j])
  {
    assert NoWrap(t[i]);
    var r0 := Range(t[i].address, End(t[i]));
    AbsorbEncloses(t, i + 1, r0, j);
    AbsorbCovers(t, i + 1, r0, 0);
    AbsorbThins(t, i + 1, r0);
    var (t1, r) := Absorb(t, i + 1, r0);
    CutEntry(t[i], r);
  }

  lemma {:induction false} MergeKeepsPrefix(t: Table, i: nat, j: nat)
    requires j < i <= |t|
    ensures MergeFrom(t, i)[j] == t[j]
    decreases |t| - i
  {
    if i < |t| {
      if Usable(t[i]) { AbsorbThins(t, i + 1, Range(t[i].address, End(t[i]) % TWO64)); }
      MergeKeepsPrefix(MergeAt(t, i), i + 1, j);
    }
  }

  /** What lies above 1 MiB of a usable region, empty or not, ends up inside one region, whatever the order. */
  lemma {:induction false} MergeEncloses(t: Table, i: nat, j: nat) returns (k: nat)
    requires i <= j < |t| && NoneWraps(t) && Usable(t[j]) && End(t[j]) > MIB
    ensures k < |t| && Encloses(MergeFrom(t, i)[k], t[j])
    decreases |t| - i
  {
    var t' := MergeAt(t, i);
    MergeAtCovers(t, i, 0);
    if Usable(t[i]) { MergeAtEncloses(t, i, j); }
    if j > i && t'[j] == t[j] {
      k := MergeEncloses(t', i + 1, j);
    } else {
      k := i;
      MergeKeepsPrefix(t', i + 1, i);
    }
  }

  /** In address order a merged region starts where the entry in its place does, or at 1 MiB. */
  lemma {:induction false} MergeStarts(t: Table, i: nat, j: nat)
    requires i <= j < |t| && NoneWraps(t) && OrderedFrom(t, i) && SeparatedTo(t, i) && Usable(MergeFrom(t, i)[j])
    ensures Usable(t[j]) && MergeFrom(t, i)[j].address == AboveMib(t[j].address)
    decreases |t| - i
  {
    var t' := MergeAt(t, i);
    MergeAtInOrder(t, i);
    if i < j {
      MergeStarts(t', i + 1, j);
      if Usable(t[i]) { AbsorbThins(t, i + 1, Range(t[i].address, End(t[i]) % TWO64)); }
    } else {
      MergeKeepsPrefix(t', i + 1, i);
      if Usable(t[i]) { MergedStart(t, i); }
    }
  }

  lemma MergedStart(t: Table, i: nat)
    requires i < |t| && NoneWraps(t) && OrderedFrom(t, i) && Usable(t[i])
    ensures MergeAt(t, i)[i].address == AboveMib(t[i].address)
  {
    assert NoWrap(t[i]);
    var r0 := Range(t[i].address, End(t[i]));
    AbsorbInOrder(t, i + 1, r0);
    AbsorbCovers(t, i + 1, r0, 0);
    AbsorbThins(t, i + 1, r0);
  }

  ghost predicate UsableAbove(t: Table, x: nat) { Covered(t, x) && x >= MIB }

  /** The page of address a is usable from its start up to a, or from a to its end. */
  ghost predicate GoodStart(t: Table, a: nat) {
    || (forall x: nat :: a - a % PAGE <= x < a ==> UsableAbove(t, x))
    || (forall x: nat :: a <= x < RoundUp(a) ==> UsableAbove(t, x))
  }

  /** Every usable entry that ends above 1 MiB starts well. */
  ghost predicate StartsAreGood(t: Table) {
    forall i: nat :: i < |t| && Usable(t[i]) && End(t[i]) > MIB ==> GoodStart(t, AboveMib(t[i].address))
  }

  lemma MibIsAligned(a: nat)
    requires a == MIB
    ensures a % PAGE == 0 && RoundUp(a) == a
  {
  }

  /** The byte before a merged region is not usable, and neither is the byte after. */
  lemma GapBefore(m: Table, i: nat)
    requires SeparatedTo(m, |m|) && i < |m| && Usable(m[i]) && m[i].address > 0
    ensures !Covered(m, m[i].address - 1)
  {
    forall j: nat | j < |m| && Usable(m[j]) ensures !(m[j].address <= m[i].address - 1 < End(m[j])) {
      if j < i { assert End(m[j]) < m[i].address; }
      if i < j { assert End(m[i]) < m[j].address; }
    }
  }

  /** A merged region of an ordered list that starts well reaches its first boundary. */
  lemma GoodStartReaches(t: Table, i: nat)
    requires NoneWraps(t) && OrderedFrom(t, 0) && StartsAreGood(t) && i < |t| && Usable(Merged(t)[i])
    ensures Reaches(Merged(t)[i])
  {
    var m := Merged(t);
    MergeFromInOrder(t, 0);
    MergeStarts(t, 0, i);
    var s, e := m[i].address, End(m[i]);
    if s > MIB && s % PAGE != 0 {
      assert End(t[i]) > MIB && GoodStart(t, s);
      GapBefore(m, i);
      MergeKeepsBytes(t, s - 1);
      assert s - s % PAGE <= s - 1 < s && !UsableAbove(t, s - 1);
      GapAfter(m, i);
      MergeKeepsBytes(t, e);
      assert !UsableAbove(t, e);
    } else if s == MIB {
      MibIsAligned(s);
    }
  }

  /** And if the region that encloses an entry reaches its first boundary, the entry starts well. */
  lemma ReachIsGoodStart(t: Table, m: Entry, a: nat)
    requires Usable(m) && Reaches(m) && m.address <= a <= End(m)
    requires forall x: nat :: m.address <= x < End(m) ==> UsableAbove(t, x)
    ensures GoodStart(t, a)
  {
    if m.address > a - a % PAGE { SamePage(m.address, a); }
  }

  lemma SamePage(s: nat, a: nat)
    requires a - a % PAGE < s <= a
    ensures RoundUp(s) == RoundUp(a)
  {
    var base := a - a % PAGE;
    MultipleOfPage(base, s);
  }

  lemma MultipleOfPage(base: nat, s: nat)
    requires base % PAGE == 0 && base < s < base + PAGE
    ensures s % PAGE == s - base
  {
  }

  /** So the condition of the exact map can be read off the list before the loader touches it. */
  lemma ReachExactly(t: Table)
    requires NoneWraps(t) && OrderedFrom(t, 0)
    ensures AllReach(Merged(t)) <==> StartsAreGood(t)
  {
    var m := Merged(t);
    if StartsAreGood(t) {
      forall i: nat | i < |m| ensures Reaches(m[i]) {
        if Usable(m[i]) { GoodStartReaches(t, i); }
      }
    }
    if AllReach(m) {
      forall i: nat | i < |t| && Usable(t[i]) && End(t[i]) > MIB ensures GoodStart(t, AboveMib(t[i].address)) {
        var k := MergeEncloses(t, 0, i);
        forall x: nat | m[k].address <= x < End(m[k]) ensures UsableAbove(t, x) {
          assert Covered(m, x);
          MergeKeepsBytes(t, x);
        }
        ReachIsGoodStart(t, m[k], AboveMib(t[i].address));
      }
    }
  }

  /**
   For an address-ordered list without wrap-around: the final table is exact if and only if the page in which a
   usable entry starts is usable from its start up to the entry, or from the entry's start to its end.
   */
  lemma MapIsExactForInput(t: Table)
    requires NoneWraps(t) && OrderedFrom(t, 0)
    ensures (forall p: nat :: Listed(FinalTable(t), p) <==> WholePage(t, p) && p * PAGE >= MIB) <==> StartsAreGood(t)
  {
    MapIsExact(t);
    ReachExactly(t);
  }

  /** In any order: exact if and only if, besides, no whole page is left divided between two merged regions. */
  lemma MapIsExactInAnyOrder(t: Table)
    requires NoneWraps(t)
    ensures (forall p: nat :: Listed(FinalTable(t), p) <==> WholePage(t, p) && p * PAGE >= MIB)
            <==> AllReach(Merged(t)) && (forall p: nat :: WholePage(t, p) && p * PAGE >= MIB ==> Listed(Merged(t), p))
  {
    MapIsSound(t);
    MergeKeepsBytes(t, 0);
    if AllReach(Merged(t)) {
      forall p: nat ensures Listed(FinalTable(t), p) <==> Listed(Merged(t), p) {
        AlignAllPages(Merged(t), p);
        CompactKeepsPages(AlignAll(Merged(t)), p);
      }
    }
  }

  /** A region of 256 bytes in the middle of a page. */
  function Sliver(): Table { [Entry(0x10_0800, 0x100, USABLE, 0)] }

  /** The loader takes it for a region up to the end of the address space. */
  lemma ShortRegionIsReachable()
    ensures NoneWraps(Sliver()) && OrderedFrom(Sliver(), 0) && Listed(FinalTable(Sliver()), LAST_PAGE)
  {
    var t := Sliver();
    assert Absorb(t, 1, Range(0x10_0800, 0x10_0900)) == (t, Range(0x10_0800, 0x10_0900));
    assert MergeAt(t, 0) == t[0 := t[0]] == t;
    assert Merged(t) == MergeFrom(t, 1) == t;
    AlignBad(t[0]);
    assert Usable(AlignAll(t)[0]) && PageIn(AlignAll(t)[0], LAST_PAGE);
    CompactKeepsPages(AlignAll(t), LAST_PAGE);
  }

  /** And then the regions are page aligned, in order and disjoint. */
  lemma MapIsOrdered(t: Table)
    requires NoneWraps(t) && OrderedFrom(t, 0) && AllReach(Merged(t))
    ensures InOrder(FinalTable(t))
    ensures forall k: nat :: k < |FinalTable(t)| ==>
              Usable(FinalTable(t)[k]) && FinalTable(t)[k].address % PAGE == 0 && End(FinalTable(t)[k]) % PAGE == 0
  {
    var m := Merged(t);
    MergeKeepsBytes(t, 0);
    MergeFromInOrder(t, 0);
    var a := AlignAll(m);
    forall i: nat | i < |m| && Usable(m[i])
      ensures a[i].address >= m[i].address && End(a[i]) <= End(m[i]) && a[i].address % PAGE == 0
              && End(a[i]) % PAGE == 0
    {
      assert NoWrap(m[i]) && Reaches(m[i]);
      AlignGood(m[i]);
      RoundUpAligned(m[i].address);
    }
    assert forall i: nat :: i < |m| ==> Usable(a[i]) == Usable(m[i]);
    assert InOrder(a);
    CompactKeepsOrder(a);
    forall k: nat | k < |Compact(a)|
      ensures Usable(Compact(a)[k]) && Compact(a)[k].address % PAGE == 0 && End(Compact(a)[k]) % PAGE == 0
    {
      CompactMembers(a, k);
    }
  }

  /** Every page inside a merged region is usable throughout and above 1 MiB, whatever the order of the list. */
  lemma ListedIsUsable(t: Table, p: nat)
    requires NoneWraps(t) && AllReach(Merged(t)) && Listed(FinalTable(t), p)
    ensures WholePage(t, p) && p * PAGE >= MIB
  {
    var m := Merged(t);
    MergeKeepsBytes(t, p * PAGE);
    CompactKeepsPages(AlignAll(m), p);
    AlignAllPages(m, p);
    var i: nat :| i < |m| && Usable(m[i]) && PageIn(m[i], p);
    forall x: nat | p * PAGE <= x < (p + 1) * PAGE ensures Covered(t, x) && x >= MIB {
      assert Covered(m, x);
      MergeKeepsBytes(t, x);
    }
    assert p * PAGE < (p + 1) * PAGE;
  }

  /**
   For a list in any order, without wrap-around: the loader hands over no page that is not usable throughout and
   above 1 MiB, if and only if every merged region reaches its first page boundary.
   */
  lemma MapIsSound(t: Table)
    requires NoneWraps(t)
    ensures (forall p: nat :: Listed(FinalTable(t), p) ==> WholePage(t, p) && p * PAGE >= MIB) <==> AllReach(Merged(t))
  {
    if AllReach(Merged(t)) {
      forall p: nat | Listed(FinalTable(t), p) ensures WholePage(t, p) && p * PAGE >= MIB { ListedIsUsable(t, p); }
    } else {
      var i: nat :| i < |Merged(t)| && !Reaches(Merged(t)[i]);
      var p := ShortRegionBreaks(t, i);
    }
  }

  /** Three regions that meet end to end, not in address order. */
  function Tangled(): Table {
    [Entry(0x50_0000, 0x10_0000, USABLE, 0), Entry(0x10_0000, 0x20_0000, USABLE, 0),
     Entry(0x20_0000, 0x30_0000, USABLE, 0)]
  }

  /** Three regions that meet end to end in the middle of pages, in the same order. */
  function Divided(): Table {
    [Entry(0x50_0800, 0x10_0000, USABLE, 0), Entry(0x10_0000, 0x10_0800, USABLE, 0),
     Entry(0x20_0800, 0x30_0000, USABLE, 0)]
  }

  /** Of three regions the third is taken into the first, after the second has been passed over. */
  lemma ThirdIntoFirst(t: Table, r: Range)
    requires |t| == 3 && NoneWraps(t) && (forall i: nat :: i < 3 ==> Usable(t[i]) && t[i].address >= MIB)
    requires AbsorbOne(t[1], Range(t[0].address, End(t[0]))) == (t[1], Range(t[0].address, End(t[0])))
    requires AbsorbOne(t[2], Range(t[0].address, End(t[0]))) == (Unmark(t[2]), r)
    requires MIB <= r.start <= r.end < TWO64 && End(t[1]) > MIB && r.end > MIB
    ensures Merged(t) == [Entry(r.start, r.end - r.start, USABLE, t[0].extended), t[1], Unmark(t[2])]
  {
    assert NoWrap(t[0]) && NoWrap(t[1]);
    var r0 := Range(t[0].address, End(t[0]));
    var t1 := t[2 := Unmark(t[2])];
    assert Absorb(t1, 3, r) == (t1, r);
    assert Absorb(t, 2, r0) == (t1, r);
    assert t[1 := t[1]] == t;
    assert Absorb(t, 1, r0) == (t1, r);
    var t' := MergeAt(t, 0);
    assert t' == [Entry(r.start, r.end - r.start, USABLE, t[0].extended), t[1], Unmark(t[2])];
    SecondAlone(t');
    assert Merged(t) == MergeFrom(t', 1);
  }

  /** A region above 1 MiB with no usable one after it stays as it is. */
  lemma MergeAtAlone(t: Table, i: nat)
    requires i < |t| && NoneWraps(t) && Usable(t[i]) && t[i].address >= MIB && End(t[i]) > MIB
    requires forall j: nat :: i < j < |t| ==> !Usable(t[j])
    ensures MergeAt(t, i) == t
  {
    assert NoWrap(t[i]);
    var r := Range(t[i].address, End(t[i]));
    AbsorbNothing(t, i + 1, r);
    CutEntry(t[i], r);
  }

  lemma SecondAlone(t: Table)
    requires |t| == 3 && NoneWraps(t) && Usable(t[1]) && !Usable(t[2]) && t[1].address >= MIB && End(t[1]) > MIB
    ensures MergeFrom(t, 1) == t
  {
    MergeAtAlone(t, 1);
    assert MergeAt(t, 2) == t;
    assert MergeFrom(t, 2) == MergeFrom(t, 3) == t;
  }

  /** Order matters: the second region is passed over before the first has grown to meet it, and they overlap. */
  lemma UnorderedListsOverlap()
    ensures var m := Merged(Tangled());
            NoneWraps(Tangled()) && Usable(m[0]) && Usable(m[1]) && PageIn(m[0], 0x200) && PageIn(m[1], 0x200)
  {
    ThirdIntoFirst(Tangled(), Range(0x20_0000, 0x60_0000));
  }

  /** Or they share a page that is usable throughout and that neither region has whole, so it is lost. */
  lemma UnorderedListsLosePages()
    ensures var t := Divided();
            NoneWraps(t) && AllReach(Merged(t)) && WholePage(t, 0x200) && !Listed(FinalTable(t), 0x200)
  {
    var t := Divided();
    ThirdIntoFirst(t, Range(0x20_0800, 0x60_0800));
    MergeKeepsBytes(t, 0);
    AlignAllPages(Merged(t), 0x200);
    CompactKeepsPages(AlignAll(Merged(t)), 0x200);
    forall x: nat | 0x20_0000 <= x < 0x20_1000 ensures Covered(t, x) {
      assert Covers(t[1], x) || Covers(t[2], x);
    }
  }

  // ---- The code ----

  /** The inner loop for entry i; it returns the merged range. */
  method AbsorbInto(table: array<Entry>, i: nat) returns (start: nat, end: nat)
    requires i < table.Length && Usable(table[i])
    modifies table
    ensures (table[..], Range(start, end)) ==
            Absorb(old(table[..]), i + 1, Range(old(table[i]).address, End(old(table[i])) % TWO64))
  {
    start, end := table[i].address, End(table[i]) % TWO64;
    var k := i + 1;
    while k < table.Length
      invariant i < k <= table.Length
      invariant Absorb(table[..], k, Range(start, end))
             == Absorb(old(table[..]), i + 1, Range(old(table[i]).address, End(old(table[i])) % TWO64))
    {
      ghost var t, r := table[..], Range(start, end);
      if Usable(table[k]) {
        var kstart, kend := table[k].address, End(table[k]) % TWO64;
        var meets := true;
        if start <= kstart <= end {
          if kend > end { end := kend; }
        } else if start <= kend <= end {
          if kstart < start { start := kstart; }
        } else if kstart <= start && kend >= end {
          start, end := kstart, kend;
        } else {
          meets := false;
        }
        if meets { table[k] := Unmark(table[k]); }
      }
      assert (table[k], Range(start, end)) == AbsorbOne(t[k], r) && table[..] == t[k := table[k]];
      k := k + 1;
    }
  }

  method Combine(table: array<Entry>)
    modifies table
    ensures table[..] == Merged(old(table[..]))
  {
    var i := 0;
    while i < table.Length
      invariant i <= table.Length
      invariant MergeFrom(table[..], i) == Merged(old(table[..]))
    {
      ghost var t := table[..];
      if Usable(table[i]) {
        var start, end := AbsorbInto(table, i);
        ghost var t1 := table[..];
        AbsorbBounds(t, i + 1, Range(t[i].address, End(t[i]) % TWO64));
        var kind := table[i].kind;
        if end <= MIB { kind := UNUSABLE; }
        if start < MIB { start := MIB; }
        table[i] := Entry(start, (end - start) % TWO64, kind, table[i].extended);
        assert table[..] == t1[i := table[i]];
      }
      assert table[..] == MergeAt(t, i);
      i := i + 1;
    }
  }

  /** The merged range stays within 64 bits. */
  lemma {:induction false} AbsorbBounds(t: Table, k: nat, r: Range)
    requires k <= |t| && r.start < TWO64 && r.end < TWO64
    ensures var r' := Absorb(t, k, r).1; r'.start < TWO64 && r'.end < TWO64
    decreases |t| - k
  {
    if k < |t| {
      var (e, r') := AbsorbOne(t[k], r);
      AbsorbBounds(t[k := e], k + 1, r');
    }
  }

  method Align(table: array<Entry>)
    modifies table
    ensures table[..] == AlignAll(old(table[..]))
  {
    ghost var t := table[..];
    var i := 0;
    while i < table.Length
      invariant i <= table.Length
      invariant table[..i] == AlignAll(t)[..i] && table[i..] == t[i..]
    {
      ghost var before := table[..];
      assert table[i] == t[i..][0] == t[i];
      table[i] := AlignOne(table[i]);
      assert table[..] == before[i := AlignAll(t)[i]];
      AlignedOneMore(before, table[..], AlignAll(t), t, i);
      i := i + 1;
    }
  }

  /** The body of the loop. */
  method AlignOne(entry: Entry) returns (e: Entry)
    ensures e == AlignEntry(entry)
  {
    e := entry;
    var misalignment := e.address % PAGE;
    if misalignment != 0 {
      e := e.(address := (e.address + PAGE - misalignment) % TWO64, size := (e.size - (PAGE - misalignment)) % TWO64);
    }
    assert e == AlignStart(entry);
    misalignment := End(e) % TWO64 % PAGE;
    if misalignment != 0 {
      e := e.(size := (e.size - misalignment) % TWO64);
    }
  }

  lemma AlignedOneMore(before: Table, after: Table, aligned: Table, t: Table, i: nat)
    requires |before| == |aligned| == |t| && i < |t| && after == before[i := aligned[i]]
    requires before[..i] == aligned[..i] && before[i..] == t[i..]
    ensures after[..i + 1] == aligned[..i + 1] && after[i + 1..] == t[i + 1..]
  {
    assert after[..i + 1] == before[..i] + [aligned[i]];
    assert after[i + 1..] == before[i..][1..];
  }

  method Truncate(table: array<Entry>) returns (j: nat)
    modifies table
    ensures j <= table.Length && table[..j] == Compact(old(table[..]))
  {
    ghost var t := table[..];
    j := 0;
    var i := 0;
    while i < table.Length
      invariant j <= i <= table.Length
      invariant table[..j] == Compact(t[..i]) && table[i..] == t[i..]
    {
      assert t[..i + 1][..i] == t[..i] && table[i] == t[i];
      if Usable(table[i]) {
        table[j] := table[i];
        j := j + 1;
      }
      i := i + 1;
    }
    assert t[..i] == t;
  }

  /** The first region large enough; None is the endless loop after "Can't load kernel". */
  method Place(table: array<Entry>, entries: nat, ksize: nat) returns (kaddr: Option<nat>, ghost i: nat)
    requires entries <= table.Length
    ensures kaddr.None? ==> forall k: nat :: k < entries ==> table[k].size < ksize
    ensures kaddr.Some? ==> i < entries && table[i].size >= ksize && forall k: nat :: k < i ==> table[k].size < ksize
    ensures kaddr.Some? ==> kaddr.value == table[i].address % TWO32
    ensures kaddr.Some? ==> (kaddr.value == table[i].address <==> table[i].address < TWO32)
  {
    var k := 0;
    i := 0;
    while k < entries
      invariant k <= entries
      invariant forall j: nat :: j < k ==> table[j].size < ksize
    {
      if table[k].size >= ksize {
        return Some(table[k].address % TWO32), k;
      }
      k := k + 1;
    }
    kaddr := None;
  }

  /** mmap of the boot loader, given the list the BIOS left in the table. */
  method BuildMap(table: array<Entry>, ksize: nat) returns (entries: nat, kaddr: Option<nat>, ghost i: nat)
    modifies table
    ensures entries <= table.Length && table[..entries] == FinalTable(old(table[..]))
    ensures kaddr.Some? ==> i < entries && table[i].size >= ksize && forall k: nat :: k < i ==> table[k].size < ksize
    ensures kaddr.Some? ==> kaddr.value == table[i].address % TWO32
    ensures kaddr.None? ==> forall k: nat :: k < entries ==> table[k].size < ksize
  {
    Combine(table);
    Align(table);
    entries := Truncate(table);
    kaddr, i := Place(table, entries, ksize);
  }

  /** The kernel is placed on usable memory above 1 MiB, whatever the order of the list. */
  lemma PlacedOnUsableMemory(t: Table, i: nat, ksize: nat, x: nat)
    requires NoneWraps(t) && AllReach(Merged(t)) && i < |FinalTable(t)|
    requires ksize <= FinalTable(t)[i].size && x < ksize
    ensures var a := FinalTable(t)[i].address + x; Covered(t, a) && a >= MIB
  {
    var m, a := Merged(t), FinalTable(t)[i].address + x;
    CompactMembers(AlignAll(m), i);
    var k: nat :| k < |m| && AlignAll(m)[k] == FinalTable(t)[i] && Usable(AlignAll(m)[k]);
    assert AlignEntry(m[k]).kind == m[k].kind;
    MergeKeepsBytes(t, a);
    assert NoWrap(m[k]) && Reaches(m[k]);
    AlignGood(m[k]);
    RoundUpAligned(m[k].address);
    assert m[k].address <= a < End(m[k]);
  }

  /** The kernel's address is page aligned whenever the map is exact. */
  lemma PlacementIsAligned(t: Table, i: nat)
    requires NoneWraps(t) && OrderedFrom(t, 0) && AllReach(Merged(t)) && i < |FinalTable(t)|
    ensures FinalTable(t)[i].address % TWO32 % PAGE == 0
  {
    MapIsOrdered(t);
    var a := FinalTable(t)[i].address;
    assert a % PAGE == 0;
    assert a % TWO32 == a - a / TWO32 * TWO32;
    TruncationAligned(a, a / TWO32);
  }

  lemma TruncationAligned(a: nat, q: nat)
    requires a % PAGE == 0 && q * TWO32 <= a
    ensures (a - q * TWO32) % PAGE == 0
  {
    assert q * TWO32 == q * 0x10_0000 * PAGE;
    assert a == a / PAGE * PAGE;
    assert a - q * TWO32 == (a / PAGE - q * 0x10_0000) * PAGE;
  }
}
