/** The physical frame allocator: 0x8000 words of 32 bits, one bit for each 4 KiB frame of the 4 GiB address space. */
module FrameBitmap {
  import opened Least
  import opened Words

  const WORDS: nat := 0x8000
  const FULL: nat := 0xFFFF_FFFF
  /** Frames below 0x800000 hold the kernel and are marked at start-up. */
  const KERNEL_FRAMES: nat := 0x800

  predicate IsBelow(f: nat, n: nat) { f < n }

  ghost function FirstFrames(n: nat): set<nat> { set f: nat | f < n && IsBelow(f, n) }

  ghost function MarkedAtBoot(): set<nat> { FirstFrames(KERNEL_FRAMES) }

  function Pow2(n: nat): nat { if n == 0 then 1 else 2 * Pow2(n - 1) }

  /** Bit k of w. */
  predicate Bit(w: nat, k: nat) { if k == 0 then w % 2 == 1 else Bit(w / 2, k - 1) }

  /** w | (1 << k) */
  function SetBit(w: nat, k: nat): nat {
    if k == 0 then w - w % 2 + 1 else 2 * SetBit(w / 2, k - 1) + w % 2
  }

  /** w & ~(1 << k) */
  function ClearBit(w: nat, k: nat): nat {
    if k == 0 then w - w % 2 else 2 * ClearBit(w / 2, k - 1) + w % 2
  }

  lemma {:induction false} SetBitBits(w: nat, k: nat, j: nat)
    ensures Bit(SetBit(w, k), j) == (Bit(w, j) || j == k)
    decreases k
  {
    if k == 0 {
      if j > 0 { assert SetBit(w, k) / 2 == w / 2; }
    } else if j > 0 {
      assert SetBit(w, k) / 2 == SetBit(w / 2, k - 1);
      SetBitBits(w / 2, k - 1, j - 1);
    }
  }

  lemma {:induction false} ClearBitBits(w: nat, k: nat, j: nat)
    ensures Bit(ClearBit(w, k), j) == (Bit(w, j) && j != k)
    decreases k
  {
    if k == 0 {
      if j > 0 { assert ClearBit(w, k) / 2 == w / 2; }
    } else if j > 0 {
      assert ClearBit(w, k) / 2 == ClearBit(w / 2, k - 1);
      ClearBitBits(w / 2, k - 1, j - 1);
    }
  }

  lemma {:induction false} BitsStayInWord(w: nat, k: nat, n: nat)
    requires k < n && w < Pow2(n)
    ensures SetBit(w, k) < Pow2(n) && ClearBit(w, k) < Pow2(n)
    decreases k
  {
    assert Pow2(n) == 2 * Pow2(n - 1);
    if k > 0 {
      assert w / 2 < Pow2(n - 1);
      BitsStayInWord(w / 2, k - 1, n - 1);
    }
  }

  ghost predicate AllSet(w: nat, n: nat) { forall k: nat :: k < n ==> Bit(w, k) }

  lemma AllSetHalves(w: nat, n: nat)
    requires n > 0
    ensures AllSet(w, n) == (w % 2 == 1 && AllSet(w / 2, n - 1))
  {
    if AllSet(w, n) {
      assert Bit(w, 0);
      forall k: nat | k < n - 1 ensures Bit(w / 2, k) { assert Bit(w, k + 1); }
    }
    if w % 2 == 1 && AllSet(w / 2, n - 1) {
      forall k: nat | k < n ensures Bit(w, k) {
        if k > 0 { assert Bit(w / 2, k - 1); }
      }
    }
  }

  /** A word differs from all-ones exactly when one of its bits is clear. */
  lemma {:induction false} AllOnes(w: nat, n: nat)
    requires w < Pow2(n)
    ensures w == Pow2(n) - 1 <==> AllSet(w, n)
    decreases n
  {
    if n > 0 {
      AllOnes(w / 2, n - 1);
      AllSetHalves(w, n);
    }
  }

  lemma Pow2At32()
    ensures Pow2(32) == FULL + 1
  {
    assert Pow2(8) == 256;
    assert Pow2(16) == 65536 by { assert Pow2(12) == 4096; }
    assert Pow2(20) == 0x10_0000;
    assert Pow2(24) == 0x100_0000;
    assert Pow2(28) == 0x1000_0000;
  }

  /** The frames a bitmap marks as used. */
  ghost function MarkedBy(words: seq<nat>): set<nat>
    requires |words| == WORDS
  {
    set f: nat | f < FRAMES && Bit(words[f / 32], f % 32)
  }

  ghost predicate WordsFit(words: seq<nat>) {
    |words| == WORDS && forall i :: 0 <= i < WORDS ==> words[i] <= FULL
  }

  lemma NoneMarked(words: seq<nat>)
    requires |words| == WORDS && forall i :: 0 <= i < WORDS ==> words[i] == 0
    ensures WordsFit(words) && MarkedBy(words) == {}
  {
    forall f: nat | f < FRAMES ensures !Bit(words[f / 32], f % 32) { NoBits(f % 32); }
  }

  lemma MarkOne(words: seq<nat>, f: Frame)
    requires WordsFit(words)
    ensures var words' := words[f / 32 := SetBit(words[f / 32], f % 32)];
            WordsFit(words') && MarkedBy(words') == MarkedBy(words) + {f}
  {
    var words' := words[f / 32 := SetBit(words[f / 32], f % 32)];
    Pow2At32();
    BitsStayInWord(words[f / 32], f % 32, 32);
    forall g: Frame ensures Bit(words'[g / 32], g % 32) == (Bit(words[g / 32], g % 32) || g == f) {
      if g / 32 == f / 32 { SetBitBits(words[f / 32], f % 32, g % 32); }
    }
  }

  lemma UnmarkOne(words: seq<nat>, f: Frame)
    requires WordsFit(words)
    ensures var words' := words[f / 32 := ClearBit(words[f / 32], f % 32)];
            WordsFit(words') && MarkedBy(words') == MarkedBy(words) - {f}
  {
    var words' := words[f / 32 := ClearBit(words[f / 32], f % 32)];
    Pow2At32();
    BitsStayInWord(words[f / 32], f % 32, 32);
    forall g: Frame ensures Bit(words'[g / 32], g % 32) == (Bit(words[g / 32], g % 32) && g != f) {
      if g / 32 == f / 32 { ClearBitBits(words[f / 32], f % 32, g % 32); }
    }
  }

  /** The inner search: the lowest clear bit of a word that is not all ones. */
  method ClearBitOf(w: nat) returns (shift: nat)
    requires w < FULL
    ensures shift < 32 && AllSet(w, shift) && !Bit(w, shift)
  {
    Pow2At32();
    AllOnes(w, 32);
    shift := 0;
    while Bit(w, shift)
      invariant shift < 32 && AllSet(w, shift)
      decreases 32 - shift
    {
      shift := shift + 1;
    }
  }

  class FrameAllocator {
    const bitmap: array<nat>

    ghost predicate Valid()
      reads bitmap
    {
      bitmap.Length == WORDS && WordsFit(bitmap[..])
    }

    ghost function Marked(): set<nat>
      requires Valid()
      reads bitmap
    {
      MarkedBy(bitmap[..])
    }

    /** init_pf_bitmap: everything clear, then the first 8 MiB marked. */
    constructor ()
      ensures Valid() && fresh(bitmap)
      ensures Marked() == MarkedAtBoot() && forall f: nat :: f in Marked() <==> f * 0x1000 < 0x80_0000
    {
      bitmap := new nat[WORDS](_ => 0);
      new;
      NoneMarked(bitmap[..]);
      var i := 0;
      while i < KERNEL_FRAMES
        invariant i <= KERNEL_FRAMES
        invariant Valid() && Marked() == FirstFrames(i)
      {
        Puse(i * 0x1000);
        i := i + 1;
      }
    }

    method Puse(paddr: nat)
      requires Valid() && paddr <= FULL
      modifies bitmap
      ensures Valid() && Marked() == old(Marked()) + {paddr / 0x1000}
    {
      var page := paddr / 0x1000;
      var shift, index := page % 32, page / 32;
      MarkOne(bitmap[..], page);
      ghost var before := bitmap[..];
      bitmap[index] := SetBit(bitmap[index], shift);
      assert bitmap[..] == before[index := SetBit(before[index], shift)];
    }

    method Pfree(paddr: nat)
      requires Valid() && paddr <= FULL
      modifies bitmap
      ensures Valid() && Marked() == old(Marked()) - {paddr / 0x1000}
    {
      var page := paddr / 0x1000;
      var shift, index := page % 32, page / 32;
      UnmarkOne(bitmap[..], page);
      ghost var before := bitmap[..];
      bitmap[index] := ClearBit(bitmap[index], shift);
      assert bitmap[..] == before[index := ClearBit(before[index], shift)];
    }

    /** None stands for the kernel panic when every frame is marked. */
    method Pmalloc() returns (r: Option<nat>)
      requires Valid()
      modifies bitmap
      ensures Valid()
      ensures r.None? <==> LeastOutside(old(Marked()), FRAMES).None?
      ensures r.None? ==> Marked() == old(Marked())
      ensures r.Some? ==> r.value <= FULL && r.value % 0x1000 == 0
      ensures r.Some? ==> LeastOutside(old(Marked()), FRAMES) == Some(r.value / 0x1000)
      ensures r.Some? ==> Marked() == old(Marked()) + {r.value / 0x1000}
    {
      ghost var words := bitmap[..];
      var i := 0;
      while i < WORDS && bitmap[i] == FULL
        invariant i <= WORDS && bitmap[..] == words
        invariant FullTo(words, i)
      {
        FullWord(words, i);
        i := i + 1;
      }
      if i == WORDS {
        AllFull(words);
        return None;
      }
      var shift := ClearBitOf(bitmap[i]);
      var page := i * 32 + shift;
      FirstClear(words, i, shift);
      Puse(page * 0x1000);
      return Some(page * 0x1000);
    }
  }

  /** The first i words of the bitmap are all ones. */
  ghost predicate FullTo(words: seq<nat>, i: nat)
    requires WordsFit(words)
  {
    forall f: nat :: f < i * 32 && f < FRAMES ==> f in MarkedBy(words)
  }

  lemma FullWord(words: seq<nat>, i: nat)
    requires WordsFit(words) && i < WORDS && words[i] == FULL && FullTo(words, i)
    ensures FullTo(words, i + 1)
  {
    Pow2At32();
    AllOnes(words[i], 32);
    forall f: nat | i * 32 <= f < i * 32 + 32 ensures f in MarkedBy(words) {
      assert f / 32 == i && Bit(words[i], f % 32);
    }
  }

  lemma AllFull(words: seq<nat>)
    requires WordsFit(words) && FullTo(words, WORDS)
    ensures LeastOutside(MarkedBy(words), FRAMES).None?
  {
  }

  lemma FirstClear(words: seq<nat>, i: nat, shift: nat)
    requires WordsFit(words) && i < WORDS && shift < 32
    requires FullTo(words, i) && AllSet(words[i], shift) && !Bit(words[i], shift)
    ensures LeastOutside(MarkedBy(words), FRAMES) == Some(i * 32 + shift)
  {
    var page := i * 32 + shift;
    assert page / 32 == i && page % 32 == shift;
    forall f: nat | f < page ensures f in MarkedBy(words) {
      if i * 32 <= f { assert f / 32 == i && Bit(words[i], f % 32); }
    }
    assert IsLeastOutside(MarkedBy(words), FRAMES, page);
    LeastIsUnique(MarkedBy(words), FRAMES, page);
  }

  lemma {:induction false} NoBits(k: nat)
    ensures !Bit(0, k)
  {
    if k > 0 { NoBits(k - 1); }
  }

  // ---- Whole runs of the allocator, on the set of marked frames ----

  datatype Op = Use(frame: Frame) | Free(frame: Frame) | Alloc

  /** The marked frames after one operation; an allocation with nothing left halts the kernel, so nothing changes. */
  ghost function After(marked: set<nat>, op: Op): set<nat> {
    match op
    case Use(f) => marked + {f}
    case Free(f) => marked - {f}
    case Alloc => var r := LeastOutside(marked, FRAMES); if r.Some? then marked + {r.value} else marked
  }

  ghost function AfterAll(marked: set<nat>, ops: seq<Op>): set<nat>
    decreases |ops|
  {
    if ops == [] then marked else After(AfterAll(marked, ops[..|ops| - 1]), ops[|ops| - 1])
  }

  /** What operation i of a run returns: a frame, or None when it is not an allocation or the kernel halts. */
  ghost function Returned(marked: set<nat>, ops: seq<Op>, i: nat): Option<nat>
    requires i < |ops|
  {
    if ops[i].Alloc? then LeastOutside(AfterAll(marked, ops[..i]), FRAMES) else None
  }

  lemma {:induction false} StaysMarked(marked: set<nat>, ops: seq<Op>, i: nat, j: nat, f: Frame)
    requires i <= j <= |ops|
    requires f in AfterAll(marked, ops[..i])
    requires forall k :: i <= k < j ==> ops[k] != Free(f)
    ensures f in AfterAll(marked, ops[..j])
    decreases j
  {
    if i < j {
      StaysMarked(marked, ops, i, j - 1, f);
      assert ops[..j][..j - 1] == ops[..j - 1];
    }
  }

  /** No frame is handed out twice unless it was freed in between. */
  lemma NeverTwice(marked: set<nat>, ops: seq<Op>, i: nat, j: nat)
    requires i < j < |ops|
    requires Returned(marked, ops, i).Some? && Returned(marked, ops, i) == Returned(marked, ops, j)
    ensures exists k :: i < k < j && ops[k] == Free(Returned(marked, ops, i).value)
  {
    var f := Returned(marked, ops, i).value;
    if forall k :: i + 1 <= k < j ==> ops[k] != Free(f) {
      assert ops[..i + 1][..i] == ops[..i];
      assert f in AfterAll(marked, ops[..i + 1]);
      StaysMarked(marked, ops, i + 1, j, f);
    }
  }

  /** Starting from the marks made at boot, a frame below 8 MiB is handed out only after somebody freed it. */
  lemma KernelFramesAreKept(ops: seq<Op>, j: nat)
    requires j < |ops|
    requires Returned(MarkedAtBoot(), ops, j).Some? && Returned(MarkedAtBoot(), ops, j).value < KERNEL_FRAMES
    ensures exists k :: 0 <= k < j && ops[k] == Free(Returned(MarkedAtBoot(), ops, j).value)
  {
    var boot := MarkedAtBoot();
    var f := Returned(boot, ops, j).value;
    if forall k :: 0 <= k < j ==> ops[k] != Free(f) {
      assert f in AfterAll(boot, ops[..0]);
      StaysMarked(boot, ops, 0, j, f);
    }
  }
}
