/** The machine the constructor builds, and the translations the lab's own scenario performs on
    it: a page walk through the kernel's directory, a TLB hit on the same page, and a
    segmentation fault on an unmapped page. */
module BootProps {
  import opened Codec
  import Tlb
  import opened MachineSpec
  import MachineProps
  import SwapProps
  import TranslateProps

  /** The kernel's page entry: present and defined, readable and writable, on frame 0. */
  const KernelEntry: bv16 := 15

  /** The tables of a freshly built machine, as far as translation reads them: root slots 0 to 2
      empty and slot 3 (at 74) pointing at the directory at 80, whose slot 7 (at 94) holds the
      kernel's entry; the break at 96; every frame but the first free; the first frame pinned
      with one back reference; the free region `(1, 1023)`; an empty TLB. */
  predicate BootTables(m: Mach)
  {
    && Shaped(m)
    && Read16(m.mem, 68) == 0 && Read16(m.mem, 70) == 0 && Read16(m.mem, 72) == 0
    && Read16(m.mem, 74) == 80
    && Read16(m.mem, 94) == KernelEntry
    && Kbrk(m) == 96
    && FreeMap(m) == 0xfffe
    && IsPinned(Descriptor(m.mem, 0))
    && BackReferenceCount(Descriptor(m.mem, 0)) == 1
    && BackReference(Descriptor(m.mem, 0), 0) == 80
    && Read16(m.sec, 0) == 1 && Read16(m.sec, 2) == 1023
    && m.tlb == [0, 0, 0, 0]
  }

  /** The kernel's mappings over zeroed memory: the break, the root entry and the page entry are
      set, and the frame table, the free map and the other root entries are still zero. */
  lemma KernelMappingWords(mem: seq<bv8>)
    requires |mem| == MainSize && forall a :: 0 <= a < MainSize ==> mem[a] == 0
    ensures Read16(KernelMapping(mem), KbrkAt) == 96
    ensures Read16(KernelMapping(mem), 74) == 80
    ensures Read16(KernelMapping(mem), 94) == KernelEntry
    ensures forall a :: 0 <= a < 66 ==> KernelMapping(mem)[a] == 0
    ensures forall a :: 68 <= a < 74 ==> KernelMapping(mem)[a] == 0
  {
    var pte := SetFrame(SetProtection(SetPresent(NoEntry, true), Read | Write), 0);
    assert pte.raw == KernelEntry;
    var mem1 := Write16(mem, KbrkAt, 96);
    var mem2 := Write16(mem1, 74, 80);
    var mem3 := Write16(mem2, 94, KernelEntry);
    assert KernelMapping(mem) == mem3;
    MachineProps.WordRoundTrip(mem, KbrkAt, 96, KbrkAt);
    MachineProps.WordRoundTrip(mem1, 74, 80, KbrkAt);
    MachineProps.WordRoundTrip(mem2, 94, KernelEntry, KbrkAt);
    MachineProps.WordRoundTrip(mem1, 74, 80, 74);
    MachineProps.WordRoundTrip(mem2, 94, KernelEntry, 74);
    MachineProps.WordRoundTrip(mem2, 94, KernelEntry, 94);
  }

  /** The first frame's descriptor once pinned and given the back reference 80, from zero. */
  lemma KernelDescriptor(d: FrameDescriptor)
    requires d == FrameDescriptor(0, 0, 0, 0)
    ensures IsPinned(AddBackReference(SetPinned(d, true), 80))
    ensures BackReferenceCount(AddBackReference(SetPinned(d, true), 80)) == 1
    ensures BackReference(AddBackReference(SetPinned(d, true), 80), 0) == 80
  {
  }

  /** The kernel's frame over zeroed memory: the words translation reads, the free map and the
      first frame's descriptor are as a fresh machine has them. */
  lemma KernelFrameWords(mem: seq<bv8>)
    requires |mem| == MainSize && forall a :: 0 <= a < MainSize ==> mem[a] == 0
    ensures Read16(KernelFrame(mem), 68) == 0 && Read16(KernelFrame(mem), 70) == 0
    ensures Read16(KernelFrame(mem), 72) == 0 && Read16(KernelFrame(mem), 74) == 80
    ensures Read16(KernelFrame(mem), 94) == KernelEntry && Read16(KernelFrame(mem), KbrkAt) == 96
    ensures Read16(KernelFrame(mem), FreeMapAt) == 0xfffe
    ensures Descriptor(KernelFrame(mem), 0) == AddBackReference(SetPinned(FrameDescriptor(0, 0, 0, 0), true), 80)
  {
    KernelMappingWords(mem);
    var mem1 := KernelMapping(mem);
    assert Descriptor(mem1, 0) == FrameDescriptor(0, 0, 0, 0);
    var d1 := SetPinned(FrameDescriptor(0, 0, 0, 0), true);
    var mem2 := PutDescriptor(mem1, 0, d1);
    assert Descriptor(mem2, 0) == d1;
    var d2 := AddBackReference(d1, 80);
    var mem3 := PutDescriptor(mem2, 0, d2);
    assert Descriptor(mem3, 0) == d2;
    var mem4 := Write16(mem3, FreeMapAt, 0xfffe);
    assert KernelFrame(mem) == mem4;
    assert Descriptor(mem4, 0) == d2;
    MachineProps.WordRoundTrip(mem3, FreeMapAt, 0xfffe, FreeMapAt);
    forall at | at in {66, 68, 70, 72, 74, 94}
      ensures Read16(mem4, at) == Read16(mem1, at)
    {
      SwapProps.EntryOutsideTable(mem1, at, 0, d1);
      SwapProps.EntryOutsideTable(mem2, at, 0, d2);
      MachineProps.WordRoundTrip(mem3, FreeMapAt, 0xfffe, at);
    }
  }

  /** The free region over any secondary memory: offset 1 and length 1023. */
  lemma BootSecondaryWords(sec: seq<bv8>)
    requires |sec| == SecondarySize
    ensures Read16(BootSecondary(sec), 0) == 1 && Read16(BootSecondary(sec), 2) == 1023
  {
    var s1 := Write16(sec, 0, 1);
    var s2 := Write16(s1, 2, 1023);
    var s3 := Write16(s2, 4, 0);
    MachineProps.WordRoundTrip(sec, 0, 1, 0);
    MachineProps.WordRoundTrip(s1, 2, 1023, 0);
    MachineProps.WordRoundTrip(s1, 2, 1023, 2);
    MachineProps.WordRoundTrip(s2, 4, 0, 0);
    MachineProps.WordRoundTrip(s2, 4, 0, 2);
    MachineProps.WordRoundTrip(s3, 6, 0, 0);
    MachineProps.WordRoundTrip(s3, 6, 0, 2);
  }

  /** The constructor leaves the tables `BootTables` describes, whatever secondary memory held. */
  lemma BootSetsTables(sec0: seq<bv8>)
    requires |sec0| == SecondarySize
    ensures BootTables(Boot(sec0))
  {
    KernelFrameWords(seq(MainSize, _ => 0 as bv8));
    KernelDescriptor(FrameDescriptor(0, 0, 0, 0));
    BootSecondaryWords(sec0);
  }

  // ------------------------------------------------------------------------------------------
  // The page walk for 0xf824

  /** The root slot of `0xf824` is the fourth, at 74, and its L1 index is 7. */
  lemma KernelPageIndices()
    ensures RootSlot(VirtualAddress(0xf824)) == 74
    ensures 80 + 2 * DirectoryIndex(VirtualAddress(0xf824), Shift(0)) == 94
    ensures VirtualAddress(0xf824).raw & !Mask(1) == 0
    ensures PageOf(VirtualAddress(0xf824)) == VirtualAddress(0xf800)
  {
  }

  /** An empty TLB misses every address. */
  lemma EmptyTlbMisses(va: VirtualAddress)
    ensures Tlb.LookedUp([0, 0, 0, 0], va) == ([0, 0, 0, 0], NoEntry)
  {
    assert Tlb.Probe([0, 0, 0, 0], va, 0) == 0;
  }

  /** Slot 7 of the kernel directory holds a page entry at level 1, which `0xf824` may use. */
  lemma KernelLeaf(m: Mach, permissions: bv8)
    requires BootTables(m)
    ensures Walk(m, VirtualAddress(0xf824), permissions, Rethrow, 94, 1)
            == TranslateWithEntry(m, VirtualAddress(0xf824), permissions, 94)
  {
    KernelPageIndices();
    assert Follow(m, VirtualAddress(0xf824), permissions, Rethrow, 94, 1)
           == Leaf(m, VirtualAddress(0xf824), permissions, 94, 1);
  }

  /** The root slot at 74 leads to slot 7 of the kernel directory. */
  lemma KernelDirectory(m: Mach, permissions: bv8)
    requires BootTables(m)
    ensures Walk(m, VirtualAddress(0xf824), permissions, Rethrow, 74, 0)
            == Walk(m, VirtualAddress(0xf824), permissions, Rethrow, 94, 1)
  {
    KernelPageIndices();
    assert Follow(m, VirtualAddress(0xf824), permissions, Rethrow, 74, 0)
           == Walk(m, VirtualAddress(0xf824), permissions, Rethrow, 94, 1);
  }

  /** Reading `0xf824` on a fresh machine walks to the kernel's entry and answers `0x0024`,
      caching the entry for page `0xf800` in front of the TLB. */
  lemma WalkFindsKernelPage(m: Mach)
    requires BootTables(m)
    ensures Translate(m, VirtualAddress(0xf824), Read, Rethrow).result == Ok(0x0024)
    ensures Translate(m, VirtualAddress(0xf824), Read, Rethrow).after.tlb
            == [Tlb.Record(VirtualAddress(0xf800), PageEntry(KernelEntry)), 0, 0, 0]
    ensures Translate(m, VirtualAddress(0xf824), Read, Rethrow).after.mem
            == PutDescriptor(m.mem, 0, SetReferenced(Descriptor(m.mem, 0), true))
  {
    var va := VirtualAddress(0xf824);
    KernelPageIndices();
    EmptyTlbMisses(PageOf(va));
    assert Translate(m, va, Read, Rethrow) == Walk(m, va, Read, Rethrow, 74, 0);
    KernelDirectory(m, Read);
    KernelLeaf(m, Read);
    KernelEntryGrantsRead(m);
  }

  /** The kernel's entry is present and grants reading: the walk ends on frame 0. */
  lemma KernelEntryGrantsRead(m: Mach)
    requires BootTables(m)
    ensures TranslateWithEntry(m, VirtualAddress(0xf824), Read, 94).result == Ok(0x0024)
    ensures TranslateWithEntry(m, VirtualAddress(0xf824), Read, 94).after.tlb
            == [Tlb.Record(VirtualAddress(0xf800), PageEntry(KernelEntry)), 0, 0, 0]
    ensures TranslateWithEntry(m, VirtualAddress(0xf824), Read, 94).after.mem
            == PutDescriptor(m.mem, 0, SetReferenced(Descriptor(m.mem, 0), true))
  {
    var pte := PageEntry(Read16(m.mem, 94));
    assert pte == PageEntry(KernelEntry);
    assert Grants(Protection(pte), Read) && IsPresent(pte) && Frame(pte) == 0;
    KernelPageIndices();
  }

  // ------------------------------------------------------------------------------------------
  // The TLB hit for 0xf834

  /** Once page `0xf800` is cached in front, reading `0xf834` hits the TLB and answers `0x0034`
      without touching the TLB's order. */
  lemma HitFindsKernelPage(m: Mach)
    requires Shaped(m)
    requires m.tlb == [Tlb.Record(VirtualAddress(0xf800), PageEntry(KernelEntry)), 0, 0, 0]
    ensures Translate(m, VirtualAddress(0xf834), Read, Rethrow).result == Ok(0x0034)
    ensures Translate(m, VirtualAddress(0xf834), Read, Rethrow).after.tlb == m.tlb
    ensures Translate(m, VirtualAddress(0xf834), Read, Rethrow).after.mem
            == PutDescriptor(m.mem, 0, SetReferenced(Descriptor(m.mem, 0), true))
  {
    var va := VirtualAddress(0xf834);
    assert PageOf(va) == VirtualAddress(0xf800);
    Tlb.RecordFields(VirtualAddress(0xf800), PageEntry(KernelEntry));
    assert Tlb.Probe(m.tlb, PageOf(va), 0) == 0;
    assert Tlb.LookedUp(m.tlb, PageOf(va)) == (m.tlb, PageEntry(KernelEntry));
    assert Translate(m, va, Read, Rethrow) == TranslateCached(m, va, Read, PageEntry(KernelEntry));
  }

  // ------------------------------------------------------------------------------------------
  // The segmentation fault for 0x1000, and the whole scenario

  /** On a machine whose first root slot (at 68) is empty and whose TLB has no record for
      `0x1000`, that page is unmapped: translating it with the rethrowing handler is a
      segmentation fault, whatever is asked for. */
  lemma UnmappedSegfaults(m: Mach, permissions: bv8)
    requires Shaped(m) && Read16(m.mem, 68) == 0
    requires IsNone(Tlb.LookedUp(m.tlb, VirtualAddress(0x1000)).1)
    ensures Translate(m, VirtualAddress(0x1000), permissions, Rethrow).result == Fail(SegmentationFault)
  {
    var va := VirtualAddress(0x1000);
    assert RootSlot(va) == 68 && PageOf(va) == va;
    TranslateProps.ResolveMiss(m, va, permissions, Rethrow);
    TranslateProps.WalkSound(m.(tlb := Tlb.LookedUp(m.tlb, va).0), va, permissions, Rethrow, 68, 0);
  }

  /** A TLB holding only the kernel's record misses page `0x1000`. */
  lemma KernelRecordMisses()
    ensures IsNone(Tlb.LookedUp([Tlb.Record(VirtualAddress(0xf800), PageEntry(KernelEntry)), 0, 0, 0],
                                VirtualAddress(0x1000)).1)
  {
    var s := [Tlb.Record(VirtualAddress(0xf800), PageEntry(KernelEntry)), 0, 0, 0];
    Tlb.RecordFields(VirtualAddress(0xf800), PageEntry(KernelEntry));
    assert Tlb.Probe(s, VirtualAddress(0x1000), 1) == 1;
    assert Tlb.Probe(s, VirtualAddress(0x1000), 0) == 1;
  }

  /** The scenario of the lab's translation test: on a fresh machine, `0xf824` translates to
      `0x0024` by a page walk, then `0xf834` to `0x0034` by a TLB hit, and then `0x1000` is a
      segmentation fault. */
  lemma TranslationScenario(sec0: seq<bv8>)
    requires |sec0| == SecondarySize
    ensures Translate(Boot(sec0), VirtualAddress(0xf824), Read, Rethrow).result == Ok(0x0024)
    ensures Translate(Translate(Boot(sec0), VirtualAddress(0xf824), Read, Rethrow).after,
                      VirtualAddress(0xf834), Read, Rethrow).result == Ok(0x0034)
    ensures Translate(Translate(Translate(Boot(sec0), VirtualAddress(0xf824), Read, Rethrow).after,
                                VirtualAddress(0xf834), Read, Rethrow).after,
                      VirtualAddress(0x1000), Read, Rethrow).result == Fail(SegmentationFault)
  {
    var m0 := Boot(sec0);
    BootSetsTables(sec0);
    WalkFindsKernelPage(m0);
    var m1 := Translate(m0, VirtualAddress(0xf824), Read, Rethrow).after;
    HitFindsKernelPage(m1);
    var m2 := Translate(m1, VirtualAddress(0xf834), Read, Rethrow).after;
    SwapProps.EntryOutsideTable(m0.mem, 68, 0, SetReferenced(Descriptor(m0.mem, 0), true));
    SwapProps.EntryOutsideTable(m1.mem, 68, 0, SetReferenced(Descriptor(m1.mem, 0), true));
    KernelRecordMisses();
    UnmappedSegfaults(m2, Read);
  }

  /** `simple_mmap` with a null hint on a fresh machine starts its search at `0x1000`, which is
      free, so it never loops and any address it returns is `0x1000`. */
  lemma MmapOnFreshMachine(m: Mach, length: nat, protection: bv8)
    requires BootTables(m) && length + 256 < SizeModulus
    ensures SimpleMmap(m, VirtualAddress(0), length, protection).result != Fail(Diverges)
    ensures SimpleMmap(m, VirtualAddress(0), length, protection).result.Ok? ==>
              SimpleMmap(m, VirtualAddress(0), length, protection).result.value == VirtualAddress(0x1000)
  {
    var start := VirtualAddress(0x1000);
    assert PageOf(VirtualAddress(0x1000)) == start;
    TranslateProps.PageCounts(length);
    TranslateProps.SimpleMmapSteps(m, VirtualAddress(0), length, protection, start);
    EmptyTlbMisses(start);
    UnmappedSegfaults(m, 0);
    TranslateProps.SearchProbes(m, start, start);
    TranslateProps.MapFromSound(m, start, PageCount(length), protection);
  }
}
