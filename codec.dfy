/** The bit-level records of the simulated MMU of lab 3: virtual addresses, page table entries and
    frame descriptors. Each is a value; a setter returns the updated value, and the machine writes
    it back where the record lives in memory. */
module Codec {

  // ------------------------------------------------------------------------------------------
  // Virtual addresses

  /** A 16-bit virtual address: two L0 bits, three L1 bits, three L2 bits and an 8-bit offset in
      the frame. The null address is the one whose representation is zero. */
  datatype VirtualAddress = VirtualAddress(raw: bv16)

  /** The address of the page holding `va`: the offset bits cleared. */
  function PageOf(va: VirtualAddress): VirtualAddress
  {
    VirtualAddress(va.raw & !0xff)
  }

  /** `va` advanced by `offset`, wrapping around at 2^16. */
  function Advanced(va: VirtualAddress, offset: bv16): VirtualAddress
  {
    VirtualAddress(va.raw + offset)
  }

  /** `PageOf` clears exactly the eight offset bits, and applying it twice changes nothing. */
  lemma PageOfClearsOffset(va: VirtualAddress)
    ensures PageOf(va).raw & 0xff == 0
    ensures PageOf(va).raw | (va.raw & 0xff) == va.raw
    ensures PageOf(PageOf(va)) == PageOf(va)
  {
  }

  /** `Advanced` is addition modulo 2^16: the low 16 bits of the sum computed without wrapping. */
  lemma AdvancedAdds(va: VirtualAddress, offset: bv16)
    ensures Advanced(va, offset).raw as bv32 == (va.raw as bv32 + offset as bv32) & 0xffff
  {
  }

  // ------------------------------------------------------------------------------------------
  // Page table entries

  /** A 16-bit page table entry. Bit 0 says the entry is defined, bit 1 that its frame is in main
      memory, bits 2-4 are the read, write and execute flags, bit 5 is reserved and bits 6-15 hold
      the frame number. */
  datatype PageEntry = PageEntry(raw: bv16)

  /** Protection flags. */
  const Read: bv8 := 1
  const Write: bv8 := 2
  const Execute: bv8 := 4

  /** The entry denoting the absence of any page. */
  const NoEntry := PageEntry(0)

  predicate IsNone(e: PageEntry)
  {
    e.raw == 0
  }

  predicate IsPresent(e: PageEntry)
  {
    e.raw & 2 != 0
  }

  /** Marking an entry present also marks it defined; marking it absent clears only bit 1. */
  function SetPresent(e: PageEntry, v: bool): PageEntry
  {
    PageEntry(if v then e.raw | 3 else e.raw & !2)
  }

  /** The protection flags; only bits 2 and 3 are read, so the execute flag is never reported. */
  function Protection(e: PageEntry): bv8
  {
    ((e.raw >> 2) & 3) as bv8
  }

  /** Marks the entry defined, clears bits 2-4, and ors in `f` shifted to bit 2 (truncated to 16
      bits). */
  function SetProtection(e: PageEntry, f: bv8): PageEntry
  {
    PageEntry(1 | (e.raw & !0x1c) | ((f as bv16) << 2))
  }

  /** The frame number, truncated to its eight low bits. */
  function Frame(e: PageEntry): bv16
  {
    (e.raw >> 6) & 0xff
  }

  /** Marks the entry defined, keeps bits 1-5 and stores `value` from bit 6 up (truncated to 16
      bits). */
  function SetFrame(e: PageEntry, value: bv16): PageEntry
  {
    PageEntry(1 | (e.raw & 0x3f) | (value << 6))
  }

  /** The entry built from a frame number alone. */
  function FromFrame(frame: bv8): PageEntry
  {
    SetFrame(NoEntry, frame as bv16)
  }

  /** An entry is none exactly when its representation is zero. */
  lemma NoneIffZero(e: PageEntry)
    ensures IsNone(e) <==> e == NoEntry
  {
  }

  /** Setting the present flag sets bits 0 and 1 and keeps the others; clearing it clears bit 1
      only. */
  lemma SetPresentBits(e: PageEntry, v: bool)
    ensures IsPresent(SetPresent(e, v)) == v
    ensures v ==> SetPresent(e, v).raw & 3 == 3 && SetPresent(e, v).raw & !3 == e.raw & !3
    ensures !v ==> SetPresent(e, v).raw == e.raw & !2
  {
  }

  /** Either way the protection and the frame number are kept. */
  lemma SetPresentKeeps(e: PageEntry, v: bool)
    ensures Protection(SetPresent(e, v)) == Protection(e) && Frame(SetPresent(e, v)) == Frame(e)
  {
  }

  /** The frame number reads back exactly when it fits in eight bits; bits 1-5 are kept and bit 0
      is set. */
  lemma SetFrameRoundTrip(e: PageEntry, value: bv16)
    ensures Frame(SetFrame(e, value)) == value <==> value < 256
    ensures Frame(SetFrame(e, value)) == value & 0xff
    ensures SetFrame(e, value).raw & 0x3e == e.raw & 0x3e && SetFrame(e, value).raw & 1 == 1
    ensures Protection(SetFrame(e, value)) == Protection(e)
    ensures IsPresent(SetFrame(e, value)) == IsPresent(e)
  {
  }

  /** Only the read and write flags of a protection read back, and execute is never granted.
      A protection below 16 leaves the present flag and the frame number alone. */
  lemma SetProtectionRoundTrip(e: PageEntry, f: bv8)
    ensures Protection(SetProtection(e, f)) == f & 3
    ensures Protection(e) & Execute == 0
    ensures f < 16 ==> IsPresent(SetProtection(e, f)) == IsPresent(e)
    ensures f < 16 ==> Frame(SetProtection(e, f)) == Frame(e)
  {
  }

  // ------------------------------------------------------------------------------------------
  // Frame descriptors

  /** A four-byte frame descriptor. In `raw0`, bit 0 is the referenced flag, bit 1 the pinned
      flag, bits 2-3 the back-reference count and bits 6-7 the high bits of the permanent
      position; `raw1` holds the low bits of the permanent position; `raw2` and `raw3` are the
      back references, offsets of page table entries in main memory. */
  datatype FrameDescriptor = FrameDescriptor(raw0: bv8, raw1: bv8, raw2: bv8, raw3: bv8)

  /** The descriptor after `reset`: every byte zero. */
  const Cleared := FrameDescriptor(0, 0, 0, 0)

  predicate IsReferenced(d: FrameDescriptor)
  {
    d.raw0 & 1 != 0
  }

  function SetReferenced(d: FrameDescriptor, v: bool): FrameDescriptor
  {
    d.(raw0 := if v then d.raw0 | 1 else d.raw0 & !1)
  }

  predicate IsPinned(d: FrameDescriptor)
  {
    d.raw0 & 2 != 0
  }

  function SetPinned(d: FrameDescriptor, v: bool): FrameDescriptor
  {
    d.(raw0 := if v then d.raw0 | 2 else d.raw0 & !2)
  }

  predicate IsReadyForEviction(d: FrameDescriptor)
  {
    (d.raw0 & 3) ^ 1 == 1
  }

  /** The back-reference count: all of `raw0` above bit 1, the position bits 6-7 included. */
  function BackReferenceCount(d: FrameDescriptor): bv8
  {
    d.raw0 >> 2
  }

  /** Records `entry` in the next free back-reference slot while fewer than two are recorded, and
      counts it while the count is below three. */
  function AddBackReference(d: FrameDescriptor, entry: bv8): FrameDescriptor
  {
    var c := BackReferenceCount(d);
    var stored := if c == 0 then d.(raw2 := entry) else if c == 1 then d.(raw3 := entry) else d;
    if c < 3 then stored.(raw0 := (stored.raw0 & 0xc3) | ((c + 1) << 2)) else stored
  }

  /** Clears the count bits 2-5 and keeps bits 0, 1, 6 and 7. */
  function ClearBackReferences(d: FrameDescriptor): FrameDescriptor
  {
    d.(raw0 := d.raw0 & 0xc3)
  }

  /** The `i`-th back reference. */
  function BackReference(d: FrameDescriptor, i: nat): bv8
    requires i < 2
  {
    if i == 0 then d.raw2 else d.raw3
  }

  /** The permanent position as the getter reads it: `raw1`, with bits 6-7 of `raw0` moved to
      bits 14-15. */
  function PermanentPosition(d: FrameDescriptor): bv16
  {
    (d.raw1 as bv16) | (((d.raw0 & 0xc0) as bv16) << 8)
  }

  /** The permanent position as the setter writes it: the low byte into `raw1`, and the high byte
      or-ed into the low bits of `raw0`, over the flags and the count. */
  function SetPermanentPosition(d: FrameDescriptor, p: bv16): FrameDescriptor
  {
    d.(raw1 := (p & 0xff) as bv8, raw0 := (d.raw0 & 0x3f) | ((p >> 8) as bv8))
  }

  /** The permanent position written as the record layout documents it: a 10-bit value whose two
      high bits are bits 6-7 of `raw0`. */
  function CorrectedPermanentPosition(d: FrameDescriptor): bv16
  {
    (d.raw1 as bv16) | (((d.raw0 & 0xc0) as bv16) << 2)
  }

  function CorrectedSetPermanentPosition(d: FrameDescriptor, p: bv16): FrameDescriptor
  {
    d.(raw1 := (p & 0xff) as bv8, raw0 := (d.raw0 & 0x3f) | ((((p >> 8) & 3) as bv8) << 6))
  }

  /** A frame is ready for eviction exactly when it is neither referenced nor pinned. */
  lemma ReadyIffNeither(d: FrameDescriptor)
    ensures IsReadyForEviction(d) <==> !IsReferenced(d) && !IsPinned(d)
  {
  }

  /** The flag setters touch their own bit and nothing else. */
  lemma FlagSettersTouchOneBit(d: FrameDescriptor, v: bool)
    ensures IsReferenced(SetReferenced(d, v)) == v
    ensures SetReferenced(d, v).raw0 & !1 == d.raw0 & !1
    ensures IsPinned(SetPinned(d, v)) == v
    ensures SetPinned(d, v).raw0 & !2 == d.raw0 & !2
    ensures SetReferenced(d, v).(raw0 := d.raw0) == d && SetPinned(d, v).(raw0 := d.raw0) == d
  {
  }

  /** `add_back_reference` never touches bits 0, 1, 6, 7 or the permanent position byte. */
  lemma AddBackReferenceKeepsFlags(d: FrameDescriptor, entry: bv8)
    ensures AddBackReference(d, entry).raw1 == d.raw1
    ensures AddBackReference(d, entry).raw0 & 0xc3 == d.raw0 & 0xc3
  {
    var c := BackReferenceCount(d);
    if c < 3 {
      assert ((c + 1) << 2) & 0xc3 == 0;
    }
  }

  /** `add_back_reference` stores into slot `c` only while the count `c` is below two, and
      saturates the count at three. */
  lemma AddBackReferenceSlots(d: FrameDescriptor, entry: bv8)
    ensures var r := AddBackReference(d, entry);
      && (BackReferenceCount(d) == 0 ==> r.raw2 == entry && r.raw3 == d.raw3 && BackReferenceCount(r) == 1)
      && (BackReferenceCount(d) == 1 ==> r.raw2 == d.raw2 && r.raw3 == entry && BackReferenceCount(r) == 2)
      && (BackReferenceCount(d) == 2 ==> r.raw2 == d.raw2 && r.raw3 == d.raw3 && BackReferenceCount(r) == 3)
      && (BackReferenceCount(d) >= 3 ==> r == d)
  {
    var c := BackReferenceCount(d);
    if c < 3 {
      assert (d.raw0 & 0xc3) >> 2 == 0 by { assert c == d.raw0 >> 2; }
    }
  }

  /** Clearing the back references keeps bits 0, 1, 6 and 7; the count then reads zero exactly when
      the position bits 6-7 are clear. */
  lemma ClearBackReferencesBits(d: FrameDescriptor)
    ensures ClearBackReferences(d).raw0 & 0xc3 == d.raw0 & 0xc3
    ensures ClearBackReferences(d).raw0 & 0x3c == 0
    ensures BackReferenceCount(ClearBackReferences(d)) == 0 <==> d.raw0 & 0xc0 == 0
    ensures ClearBackReferences(d).(raw0 := d.raw0) == d
  {
  }

  /** The getter reads back what the setter wrote exactly when bits 8-13 of the position are
      clear; so every position from 256 to 1023 is lost. */
  lemma PermanentPositionRoundTrip(d: FrameDescriptor, p: bv16)
    ensures PermanentPosition(SetPermanentPosition(d, p)) == p <==> p & 0x3f00 == 0
  {
  }

  /** Position 256, a valid 10-bit position, reads back as 0 and sets the referenced flag. */
  lemma PermanentPositionLost()
    ensures PermanentPosition(SetPermanentPosition(Cleared, 256)) == 0
    ensures IsReferenced(SetPermanentPosition(Cleared, 256))
  {
  }

  /** With the documented layout every 10-bit position reads back, and the flags and the count
      are kept. */
  lemma CorrectedPermanentPositionRoundTrip(d: FrameDescriptor, p: bv16)
    requires p < 1024
    ensures CorrectedPermanentPosition(CorrectedSetPermanentPosition(d, p)) == p
    ensures CorrectedSetPermanentPosition(d, p).raw0 & 0x3f == d.raw0 & 0x3f
  {
  }
}
