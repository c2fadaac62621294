/**
 A 32-bit word as the paging hardware reads it. The kernel manipulates page-table entries with masks; the
 rest of the model uses the fields the masks stand for. The lemmas below say, for every 32-bit value, which
 field update each mask expression of the kernel performs.
 */
module Words {

  const FRAMES: nat := 0x10_0000

  type Frame = f: nat | f < 0x10_0000

  /** Bits 31-12, 11, 10-3, 2, 1 and 0. Bit 11 is the kernel heap's own "slot in use" mark. */
  datatype Word = Word(frame: Frame, used: bool, rest: bv8, user: bool, write: bool, present: bool)

  const ZERO: Word := Word(0, false, 0, false, false, false)

  /** frame + 0b100000000011: a used, writable, supervisor entry. */
  function KernelEntry(f: Frame): Word { Word(f, true, 0, false, true, true) }

  /** frame + 0b100000000111: a used, writable, user entry. */
  function UserEntry(f: Frame): Word { Word(f, true, 0, true, true, true) }

  function FrameOf(frame: bv20): Frame { frame as nat }

  function FieldsOf(w: bv32): Word {
    Word(FrameOf((w >> 12) as bv20), w & 0x800 != 0, ((w >> 3) & 0xFF) as bv8, w & 4 != 0, w & 2 != 0, w & 1 != 0)
  }

  /** The physical address of a frame. */
  function AddressOf(frame: bv20): bv32 { (frame as bv32) << 12 }

  lemma ClearWriteMask(w: bv32)
    ensures FieldsOf(w & 0xFFFFFFFD) == FieldsOf(w).(write := false)
  {
    assert (w & 0xFFFFFFFD) >> 12 == w >> 12;
    assert ((w & 0xFFFFFFFD) >> 3) & 0xFF == (w >> 3) & 0xFF;
  }

  lemma UsedMasks(w: bv32)
    ensures FieldsOf(w | 0x800) == FieldsOf(w).(used := true)
    ensures FieldsOf(w & 0xFFFFF7FF) == FieldsOf(w).(used := false)
  {
    assert (w | 0x800) >> 12 == w >> 12;
    assert ((w | 0x800) >> 3) & 0xFF == (w >> 3) & 0xFF;
    assert (w & 0xFFFFF7FF) >> 12 == w >> 12;
    assert ((w & 0xFFFFF7FF) >> 3) & 0xFF == (w >> 3) & 0xFF;
  }

  /** The two statements of the copy-on-write handler that point an entry at a new frame. */
  lemma RetargetMasks(w: bv32, frame: bv20)
    ensures FieldsOf((w & 0x00000FFF) | (AddressOf(frame) | 2))
         == FieldsOf(w).(frame := FrameOf(frame), write := true)
  {
    RetargetBits(w, frame as bv32, frame);
  }

  lemma RetargetBits(w: bv32, wide: bv32, frame: bv20)
    requires wide == frame as bv32
    ensures ((((w & 0xFFF) | ((wide << 12) | 2)) >> 12) as bv20) == frame
    ensures (((w & 0xFFF) | ((wide << 12) | 2)) >> 3) & 0xFF == (w >> 3) & 0xFF
    ensures ((w & 0xFFF) | ((wide << 12) | 2)) & 0x807 == (w & 0x807) | 2
  {
  }

  /** pmalloc() + 0x803: a kernel entry for the new frame. */
  lemma KernelEntryMask(frame: bv20, address: bv32)
    requires address == AddressOf(frame)
    ensures FieldsOf(address + 0x803) == KernelEntry(FrameOf(frame))
  {
    AddressBits(frame);
    SumBits(address, 0x803);
    KernelFlags(address + 0x803);
  }

  /** pmalloc() + 0x807, which mmap writes with `|`: a user entry. */
  lemma UserEntryMask(frame: bv20, address: bv32)
    requires address == AddressOf(frame)
    ensures FieldsOf(address + 0x807) == UserEntry(FrameOf(frame))
  {
    AddressBits(frame);
    SumBits(address, 0x807);
    UserFlags(address + 0x807);
  }

  lemma AddressBits(frame: bv20)
    ensures (AddressOf(frame) >> 12) as bv20 == frame && AddressOf(frame) & 0xFFF == 0
  {
  }

  /** Flags added to an address, with `+` or with `|`. */
  lemma SumBits(address: bv32, flags: bv32)
    requires address & 0xFFF == 0 && flags & 0xFFFFF000 == 0
    ensures address + flags == address | flags
    ensures (address + flags) >> 12 == address >> 12 && (address + flags) & 0xFFF == flags
  {
  }

  lemma UserFlags(w: bv32)
    requires w & 0xFFF == 0x807
    ensures w & 0x800 != 0 && (w >> 3) & 0xFF == 0 && w & 4 != 0 && w & 2 != 0 && w & 1 != 0
  {
  }

  lemma KernelFlags(w: bv32)
    requires w & 0xFFF == 0x803
    ensures w & 0x800 != 0 && (w >> 3) & 0xFF == 0 && w & 4 == 0 && w & 2 != 0 && w & 1 != 0
  {
  }

  /** No two 32-bit values have the same fields, so nothing is lost by working with the fields. */
  lemma FieldsDetermineWord(v: bv32, w: bv32)
    requires FieldsOf(v) == FieldsOf(w)
    ensures v == w
  {
    FrameIsInjective((v >> 12) as bv20, (w >> 12) as bv20);
    SameBits(v, w);
  }

  lemma FrameIsInjective(f: bv20, g: bv20)
    requires FrameOf(f) == FrameOf(g)
    ensures f == g
  {
    assert f as nat as bv20 == f && g as nat as bv20 == g;
  }

  lemma SameBits(v: bv32, w: bv32)
    requires (v >> 12) as bv20 == (w >> 12) as bv20
    requires ((v >> 3) & 0xFF) as bv8 == ((w >> 3) & 0xFF) as bv8
    requires (v & 0x800 != 0) == (w & 0x800 != 0)
    requires (v & 4 != 0) == (w & 4 != 0) && (v & 2 != 0) == (w & 2 != 0) && (v & 1 != 0) == (w & 1 != 0)
    ensures v == w
  {
  }

  // ---- From fields to bits ----

  lemma TopBitClear(b: bv20)
    requires FrameOf(b) < 0x80000
    ensures b & 0x80000 == 0
  {
  }

  lemma ShiftDoubles(b: bv20)
    requires b & 0x80000 == 0
    ensures FrameOf(b << 1) == 2 * FrameOf(b)
  {
  }

  lemma ShiftDoublesPlusOne(b: bv20)
    requires b & 0x80000 == 0
    ensures FrameOf((b << 1) | 1) == 2 * FrameOf(b) + 1
  {
  }

  /** The bits of a frame number, highest first. */
  function FrameBits(f: Frame): (b: bv20)
    ensures FrameOf(b) == f
  {
    if f == 0 then 0 else
    var c := FrameBits(f / 2);
    TopBitClear(c); ShiftDoubles(c); ShiftDoublesPlusOne(c);
    if f % 2 == 1 then (c << 1) | 1 else c << 1
  }

  function Assemble(frame: bv20, used: bool, rest: bv8, user: bool, write: bool, present: bool): bv32 {
    AddressOf(frame) | (if used then 0x800 else 0) | ((rest as bv32) << 3)
    | (if user then 4 else 0) | (if write then 2 else 0) | (if present then 1 else 0)
  }

  lemma AssembledBits(frame: bv20, used: bool, rest: bv8, user: bool, write: bool, present: bool)
    ensures var w := Assemble(frame, used, rest, user, write, present);
            && (w >> 12) as bv20 == frame && ((w >> 3) & 0xFF) as bv8 == rest
            && (w & 0x800 != 0) == used && (w & 4 != 0) == user && (w & 2 != 0) == write && (w & 1 != 0) == present
  {
  }

  lemma AssembledFields(frame: bv20, used: bool, rest: bv8, user: bool, write: bool, present: bool)
    ensures FieldsOf(Assemble(frame, used, rest, user, write, present)) ==
            Word(FrameOf(frame), used, rest, user, write, present)
  {
    AssembledBits(frame, used, rest, user, write, present);
  }

  /** The 32-bit value with given fields. */
  function BitsOf(w: Word): bv32 { Assemble(FrameBits(w.frame), w.used, w.rest, w.user, w.write, w.present) }

  lemma FieldsOfBits(w: Word)
    ensures FieldsOf(BitsOf(w)) == w
  {
    AssembledFields(FrameBits(w.frame), w.used, w.rest, w.user, w.write, w.present);
  }

  // ---- The kernel's statements on entries, on the 32-bit values ----

  /** `*entry |= 0x800` */
  method SetUsedBit(w: Word) returns (r: Word)
    ensures r == w.(used := true)
  {
    FieldsOfBits(w);
    UsedMasks(BitsOf(w));
    r := FieldsOf(BitsOf(w) | 0x800);
  }

  /** `*entry &= 0xFFFFF7FF` */
  method ClearUsedBit(w: Word) returns (r: Word)
    ensures r == w.(used := false)
  {
    FieldsOfBits(w);
    UsedMasks(BitsOf(w));
    r := FieldsOf(BitsOf(w) & 0xFFFFF7FF);
  }

  /** `table[i] &= 0xFFFFFFFD` */
  method ClearWriteBit(w: Word) returns (r: Word)
    ensures r == w.(write := false)
  {
    FieldsOfBits(w);
    ClearWriteMask(BitsOf(w));
    r := FieldsOf(BitsOf(w) & 0xFFFFFFFD);
  }

  /** `*entry &= 0xFFF; *entry |= frame | 2` */
  method Retarget(w: Word, f: Frame) returns (r: Word)
    ensures r == w.(frame := f, write := true)
  {
    FieldsOfBits(w);
    RetargetMasks(BitsOf(w), FrameBits(f));
    r := FieldsOf((BitsOf(w) & 0x00000FFF) | (AddressOf(FrameBits(f)) | 2));
  }

  /** `pmalloc() + 0x803` */
  method NewKernelEntry(f: Frame) returns (r: Word)
    ensures r == KernelEntry(f)
  {
    KernelEntryMask(FrameBits(f), AddressOf(FrameBits(f)));
    r := FieldsOf(AddressOf(FrameBits(f)) + 0x803);
  }

  /** `pmalloc() + 0x807` */
  method NewUserEntry(f: Frame) returns (r: Word)
    ensures r == UserEntry(f)
  {
    UserEntryMask(FrameBits(f), AddressOf(FrameBits(f)));
    r := FieldsOf(AddressOf(FrameBits(f)) + 0x807);
  }
}
