/** What translation promises about the value-level model of the lab 3 machine: the faults it can
    raise and when, that a translated address keeps the offset of the virtual one, that execute
    is never granted, and that the search of `simple_mmap` never loops on the permission check. */
module TranslateProps {
  import opened Codec
  import Tlb
  import opened MachineSpec
  import MachineProps
  import SwapProps

  /** The failures of allocation: `std::bad_alloc` and `abort`. */
  predicate Mundane(f: Fault)
  {
    f == BadAlloc || f == Abort
  }

  /** What every translation of `va` for `permissions` promises of its outcome `r`: a physical
      address with the offset of `va`, granted only for read and write; a permission fault only
      when some permission was asked for; and never a silent loop. */
  predicate Sound(va: VirtualAddress, permissions: bv8, r: Result<bv16>)
  {
    && (r.Ok? ==> r.value & 0xff == va.raw & 0xff && permissions & 0xfc == 0)
    && (r == Fail(PermissionFault) ==> permissions != 0)
    && r != Fail(Diverges)
  }

  // ------------------------------------------------------------------------------------------
  // Allocation fails only with bad_alloc or abort

  /** `swap_victim` fails only with `std::bad_alloc` (every frame pinned) or `abort`. */
  lemma SwapVictimMundane(m: Mach, slot: bv16)
    requires Shaped(m)
    ensures SwapVictim(m, slot).result.Fail? ==> Mundane(SwapVictim(m, slot).result.fault)
  {
    MachineProps.FindVictimChooses(m);
    var f := FindVictim(m);
    if FreeMap(m) == 0 && f.result.Ok? && slot as nat * 256 + 256 <= SecondarySize {
      var v := f.result.value as nat;
      UpdateAfterSwapAborts(SwapFrames(f.after, v, slot as nat), v, slot);
    }
  }

  /** Rewriting the entries that referred to a swapped-out frame fails only by aborting. */
  lemma UpdateAfterSwapAborts(m: Mach, victim: nat, slot: bv16)
    requires Shaped(m) && victim < 16
    ensures UpdateAfterSwap(m, victim, slot).result.Fail? ==> UpdateAfterSwap(m, victim, slot).result.fault == Abort
  {
    var n := BackReferenceCount(Descriptor(m.mem, victim));
    if n <= 2 {
      SwapProps.UpdateFromKeeps(m, victim, slot, 0, n as nat);
    }
  }

  /** Claiming a frame fails only with `std::bad_alloc` or `abort`. */
  lemma ClaimFrameMundane(m: Mach)
    requires Shaped(m)
    ensures ClaimFrame(m).result.Fail? ==> Mundane(ClaimFrame(m).result.fault)
  {
    if CountTrailingZeros(FreeMap(m)) >= 16 && Read16(m.sec, 2) != 0 {
      SwapVictimMundane(m, Read16(m.sec, 0));
    }
  }

  /** `allocate_on_segfault` fails only with `std::bad_alloc` or `abort`. */
  lemma AllocateOnSegfaultMundane(m: Mach, va: VirtualAddress, ps: bv8, pda: nat, level: nat)
    requires Shaped(m) && pda + 1 < MainSize && Read16(m.mem, pda) == 0
    ensures AllocateOnSegfault(m, va, ps, pda, level).result.Fail? ==>
              Mundane(AllocateOnSegfault(m, va, ps, pda, level).result.fault)
  {
    var c := ClaimFrame(m);
    if c.result.Fail? {
      ClaimFrameMundane(m);
    } else {
      InstallMundane(c.after, va, ps, pda, level, c.result.value);
    }
  }

  /** Installing the entry for a claimed frame fails only as `kalloc` does, with
      `std::bad_alloc`. */
  lemma InstallMundane(m: Mach, va: VirtualAddress, ps: bv8, pda: nat, level: nat, slot: nat)
    requires Shaped(m) && pda + 1 < MainSize && slot < 16
    ensures Install(m, va, ps, pda, level, slot).result.Fail? ==>
              Install(m, va, ps, pda, level, slot).result.fault == BadAlloc
  {
  }

  /** The handler either rethrows the segmentation fault or allocates, which fails only with
      `std::bad_alloc` or `abort`. */
  lemma HandleFaultOutcome(m: Mach, h: Handler, va: VirtualAddress, ps: bv8, pda: nat, level: nat)
    requires Shaped(m) && pda + 1 < MainSize && Read16(m.mem, pda) == 0
    ensures h == Rethrow ==> HandleFault(m, h, va, ps, pda, level) == Run(Fail(SegmentationFault), m)
    ensures h == AllocateOnFault && HandleFault(m, h, va, ps, pda, level).result.Fail? ==>
              Mundane(HandleFault(m, h, va, ps, pda, level).result.fault)
  {
    if h == AllocateOnFault {
      AllocateOnSegfaultMundane(m, va, ps, pda, level);
    }
  }

  // ------------------------------------------------------------------------------------------
  // The end of a translation

  /** The physical address keeps the offset of the virtual one. */
  lemma PhysicalOffset(frame: bv16, va: VirtualAddress)
    ensures Physical(frame, va) & 0xff == va.raw & 0xff
  {
  }

  /** Granting anything but read and write is impossible: the protection has two bits. */
  lemma GrantsOnlyReadWrite(pte: PageEntry, permissions: bv8)
    requires Grants(Protection(pte), permissions)
    ensures permissions & 0xfc == 0
  {
  }

  /** Swapping a page in fails only with `std::bad_alloc` or `abort`, and otherwise ends on the
      offset of `va`. */
  lemma SwapInOutcome(m: Mach, va: VirtualAddress, at: nat, slot: bv16)
    requires Shaped(m) && at + 1 < MainSize
    ensures SwapIn(m, va, at, slot).result.Fail? ==> Mundane(SwapIn(m, va, at, slot).result.fault)
    ensures SwapIn(m, va, at, slot).result.Ok? ==> SwapIn(m, va, at, slot).result.value & 0xff == va.raw & 0xff
  {
    SwapVictimMundane(m, slot);
    var s := SwapVictim(m, slot);
    if s.result.Ok? {
      PhysicalOffset(s.result.value as bv16, va);
    }
  }

  /** A successful swap-in of the page whose entry lies at `at`, past the frame table: the
      frame the address lies in is the victim `swap_victim` returned, which is `find_victim`'s
      choice; the entry is now present on that frame; the frame is marked referenced and, when
      the cleared descriptor counts no back reference, records the entry's offset as its only
      one; and the TLB caches the new entry in front under the page of `va`. */
  lemma SwapInReinstates(m: Mach, va: VirtualAddress, at: nat, slot: bv16)
    requires Shaped(m) && FreeMapAt <= at && at + 1 < MainSize && SwapIn(m, va, at, slot).result.Ok?
    ensures SwapVictim(m, slot).result.Ok? && SwapVictim(m, slot).result == FindVictim(m).result
    ensures SwapVictim(m, slot).result.value < 16
    ensures SwapIn(m, va, at, slot).result.value >> 8 == SwapVictim(m, slot).result.value as bv16
    ensures IsPresent(PageEntry(Read16(SwapIn(m, va, at, slot).after.mem, at)))
    ensures Frame(PageEntry(Read16(SwapIn(m, va, at, slot).after.mem, at))) == SwapVictim(m, slot).result.value as bv16
    ensures IsReferenced(Descriptor(SwapIn(m, va, at, slot).after.mem, SwapVictim(m, slot).result.value as nat))
    ensures Descriptor(SwapVictim(m, slot).after.mem, SwapVictim(m, slot).result.value as nat).raw0 & 0xc0 == 0 ==>
              && BackReferenceCount(Descriptor(SwapIn(m, va, at, slot).after.mem, SwapVictim(m, slot).result.value as nat)) == 1
              && Descriptor(SwapIn(m, va, at, slot).after.mem, SwapVictim(m, slot).result.value as nat).raw2 == (at % 256) as bv8
    ensures SwapIn(m, va, at, slot).after.tlb == Cached(SwapVictim(m, slot).after.tlb, PageOf(va), PageEntry(Read16(SwapIn(m, va, at, slot).after.mem, at)))
  {
    SwapInVictim(m, va, at, slot);
    var f := SwapVictim(m, slot).result.value as bv16;
    ReinstateEffects(SwapVictim(m, slot).after, va, at, f);
    ShiftBackFrame(f, va);
  }

  /** After a successful swap-in of the page whose entry lies at `at`, past the frame table, the
      victim frame holds from byte 257 on what slot `slot` held, apart from the entry itself. */
  lemma SwapInFillsFrame(m: Mach, va: VirtualAddress, at: nat, slot: bv16, s: nat)
    requires Shaped(m) && FreeMapAt <= at && at + 1 < MainSize && SwapIn(m, va, at, slot).result.Ok? && s == slot as nat
    ensures SwapVictim(m, slot).result.Ok? && SwapVictim(m, slot).result.value < 16
    ensures forall j :: SwapVictim(m, slot).result.value as nat * 256 <= j < SwapVictim(m, slot).result.value as nat * 256 + 256
                        && 257 <= j && j != at && j != at + 1 ==>
              SwapIn(m, va, at, slot).after.mem[j] == m.sec[s * 256 + (j - SwapVictim(m, slot).result.value as nat * 256)]
  {
    SwapInVictim(m, va, at, slot);
    forall j | SwapVictim(m, slot).result.value as nat * 256 <= j < SwapVictim(m, slot).result.value as nat * 256 + 256
               && 257 <= j && j != at && j != at + 1
      ensures SwapIn(m, va, at, slot).after.mem[j] == m.sec[s * 256 + (j - SwapVictim(m, slot).result.value as nat * 256)]
    {
      SwapInByte(m, va, at, slot, s, j);
    }
  }

  /** One byte of the victim frame after a successful swap-in. */
  lemma SwapInByte(m: Mach, va: VirtualAddress, at: nat, slot: bv16, s: nat, j: nat)
    requires Shaped(m) && FreeMapAt <= at && at + 1 < MainSize && SwapIn(m, va, at, slot).result.Ok? && s == slot as nat
    requires SwapVictim(m, slot).result.Ok? && SwapVictim(m, slot).result.value < 16
    requires SwapVictim(m, slot).result.value as nat * 256 <= j < SwapVictim(m, slot).result.value as nat * 256 + 256
    requires 257 <= j && j != at && j != at + 1
    ensures SwapIn(m, va, at, slot).after.mem[j] == m.sec[s * 256 + (j - SwapVictim(m, slot).result.value as nat * 256)]
  {
    SwapInKeeps(m, va, at, slot);
    SwapProps.SwapVictimFillsFrame(m, slot, SwapVictim(m, slot).result.value as nat, s);
  }

  /** A successful swap-in changes no byte past the frame table that `swap_victim` left, apart
      from the entry at `at`. */
  lemma SwapInKeeps(m: Mach, va: VirtualAddress, at: nat, slot: bv16)
    requires Shaped(m) && FreeMapAt <= at && at + 1 < MainSize && SwapIn(m, va, at, slot).result.Ok?
    ensures SwapVictim(m, slot).result.Ok? && SwapVictim(m, slot).result == FindVictim(m).result
    ensures forall j :: FreeMapAt <= j < MainSize && j != at && j != at + 1 ==>
              SwapIn(m, va, at, slot).after.mem[j] == SwapVictim(m, slot).after.mem[j]
  {
    SwapInVictim(m, va, at, slot);
    ReinstateEntry(SwapVictim(m, slot).after, va, at, SwapVictim(m, slot).result.value as bv16);
  }

  /** A successful swap-in is `swap_victim`, which returned the frame `find_victim` chose,
      followed by `Reinstate` on that frame; the frame's descriptor then counts no back
      reference exactly when its bits 6-7 are clear. */
  lemma SwapInVictim(m: Mach, va: VirtualAddress, at: nat, slot: bv16)
    requires Shaped(m) && at + 1 < MainSize && SwapIn(m, va, at, slot).result.Ok?
    ensures SwapVictim(m, slot).result.Ok? && SwapVictim(m, slot).result == FindVictim(m).result
    ensures SwapIn(m, va, at, slot) == Reinstate(SwapVictim(m, slot).after, va, at, SwapVictim(m, slot).result.value as bv16)
    ensures (SwapVictim(m, slot).result.value as bv16) as nat == SwapVictim(m, slot).result.value as nat
    ensures BackReferenceCount(Descriptor(SwapVictim(m, slot).after.mem, SwapVictim(m, slot).result.value as nat)) == 0 <==>
              Descriptor(SwapVictim(m, slot).after.mem, SwapVictim(m, slot).result.value as nat).raw0 & 0xc0 == 0
  {
    SwapProps.SwapVictimExchanges(m, slot);
    SwapVictimCleared(m, slot);
    WidenFrame(SwapVictim(m, slot).result.value);
  }

  /** The victim of a successful `swap_victim` counts no back reference exactly when bits 6-7
      of its descriptor are clear. */
  lemma SwapVictimCleared(m: Mach, slot: bv16)
    requires Shaped(m) && SwapVictim(m, slot).result.Ok? && SwapVictim(m, slot).result == FindVictim(m).result
    ensures BackReferenceCount(Descriptor(SwapVictim(m, slot).after.mem, SwapVictim(m, slot).result.value as nat)) == 0 <==>
              Descriptor(SwapVictim(m, slot).after.mem, SwapVictim(m, slot).result.value as nat).raw0 & 0xc0 == 0
  {
    var v := SwapVictim(m, slot).result.value as nat;
    SwapProps.SwapVictimFillsFrame(m, slot, v, slot as nat);
    var d := Descriptor(SwapVictim(m, slot).after.mem, v);
    assert BackReferenceCount(d) == 0 <==> d.raw0 & 0xc0 == 0 by {
      assert d.raw0 & 0x3c == 0;
    }
  }

  /** Widening a frame number to 16 bits keeps its value. */
  lemma WidenFrame(b: bv8)
    ensures (b as bv16) as nat == b as nat
  {
  }

  /** `Reinstate` for an entry past the frame table, on frame `f`: the translation lies in `f`;
      the entry reads back present on `f`; `f` is referenced and records the entry's offset when
      it counted no back reference; every other byte past the frame table, and secondary
      memory, is as it was; the TLB caches the new entry in front. */
  lemma ReinstateEffects(m: Mach, va: VirtualAddress, at: nat, f: bv16)
    requires Shaped(m) && FreeMapAt <= at && at + 1 < MainSize && f < 16
    ensures Reinstate(m, va, at, f).result == Ok(Physical(f, va))
    ensures IsPresent(PageEntry(Read16(Reinstate(m, va, at, f).after.mem, at)))
    ensures Frame(PageEntry(Read16(Reinstate(m, va, at, f).after.mem, at))) == f
    ensures IsReferenced(Descriptor(Reinstate(m, va, at, f).after.mem, f as nat))
    ensures BackReferenceCount(Descriptor(m.mem, f as nat)) == 0 ==>
              && BackReferenceCount(Descriptor(Reinstate(m, va, at, f).after.mem, f as nat)) == 1
              && Descriptor(Reinstate(m, va, at, f).after.mem, f as nat).raw2 == (at % 256) as bv8
    ensures forall j :: FreeMapAt <= j < MainSize && j != at && j != at + 1 ==> Reinstate(m, va, at, f).after.mem[j] == m.mem[j]
    ensures Reinstate(m, va, at, f).after.sec == m.sec
    ensures Reinstate(m, va, at, f).after.tlb == Cached(m.tlb, PageOf(va), PageEntry(Read16(Reinstate(m, va, at, f).after.mem, at)))
  {
    ReinstateEntry(m, va, at, f);
    ReinstateDescriptor(m, va, at, f);
  }

  /** The entry `Reinstate` writes reads back present on `f` and is the one cached; the rest of
      the bytes past the frame table are kept. */
  lemma ReinstateEntry(m: Mach, va: VirtualAddress, at: nat, f: bv16)
    requires Shaped(m) && FreeMapAt <= at && at + 1 < MainSize && f < 16
    ensures IsPresent(PageEntry(Read16(Reinstate(m, va, at, f).after.mem, at)))
    ensures Frame(PageEntry(Read16(Reinstate(m, va, at, f).after.mem, at))) == f
    ensures forall j :: FreeMapAt <= j < MainSize && j != at && j != at + 1 ==> Reinstate(m, va, at, f).after.mem[j] == m.mem[j]
    ensures Reinstate(m, va, at, f).after.tlb == Cached(m.tlb, PageOf(va), PageEntry(Read16(Reinstate(m, va, at, f).after.mem, at)))
  {
    var fr := f as nat;
    var pte := SetPresent(SetFrame(PageEntry(Read16(m.mem, at)), f), true);
    var mem1 := Write16(m.mem, at, pte.raw);
    var d := AddBackReference(Descriptor(mem1, fr), (at % 256) as bv8);
    var mem2 := PutDescriptor(mem1, fr, d);
    var d2 := SetReferenced(Descriptor(mem2, fr), true);
    Rewritten(m.mem, at, pte.raw, fr, d, d2);
    assert Reinstate(m, va, at, f).after.mem == PutDescriptor(mem2, fr, d2);
    SetFrameRoundTrip(PageEntry(Read16(m.mem, at)), f);
    SetPresentBits(SetFrame(PageEntry(Read16(m.mem, at)), f), true);
    SetPresentKeeps(SetFrame(PageEntry(Read16(m.mem, at)), f), true);
  }

  /** `Reinstate` marks `f` referenced and, when `f` counted no back reference, records the
      entry's offset as its only one. */
  lemma ReinstateDescriptor(m: Mach, va: VirtualAddress, at: nat, f: bv16)
    requires Shaped(m) && FreeMapAt <= at && at + 1 < MainSize && f < 16
    ensures IsReferenced(Descriptor(Reinstate(m, va, at, f).after.mem, f as nat))
    ensures BackReferenceCount(Descriptor(m.mem, f as nat)) == 0 ==>
              && BackReferenceCount(Descriptor(Reinstate(m, va, at, f).after.mem, f as nat)) == 1
              && Descriptor(Reinstate(m, va, at, f).after.mem, f as nat).raw2 == (at % 256) as bv8
  {
    var fr := f as nat;
    var pte := SetPresent(SetFrame(PageEntry(Read16(m.mem, at)), f), true);
    var mem1 := Write16(m.mem, at, pte.raw);
    var d := AddBackReference(Descriptor(mem1, fr), (at % 256) as bv8);
    var mem2 := PutDescriptor(mem1, fr, d);
    var d2 := SetReferenced(Descriptor(mem2, fr), true);
    Rewritten(m.mem, at, pte.raw, fr, d, d2);
    assert Reinstate(m, va, at, f).after.mem == PutDescriptor(mem2, fr, d2);
    FlagSettersTouchOneBit(d, true);
    AddBackReferenceSlots(Descriptor(m.mem, fr), (at % 256) as bv8);
    assert BackReferenceCount(SetReferenced(d, true)) == BackReferenceCount(d) by {
      assert SetReferenced(d, true).raw0 >> 2 == d.raw0 >> 2;
    }
  }

  /** Writing the entry at `at`, past the frame table, and then descriptor `d` and `d2` of frame
      `f` in turn: the entry reads back, the descriptor is `d2`, `d` was computed from the
      descriptor as it was, and every other byte past the frame table is kept. */
  lemma Rewritten(mem: seq<bv8>, at: nat, w: bv16, f: nat, d: FrameDescriptor, d2: FrameDescriptor)
    requires |mem| == MainSize && FreeMapAt <= at && at + 1 < MainSize && f < 16
    ensures Descriptor(Write16(mem, at, w), f) == Descriptor(mem, f)
    ensures Descriptor(PutDescriptor(Write16(mem, at, w), f, d), f) == d
    ensures Descriptor(PutDescriptor(PutDescriptor(Write16(mem, at, w), f, d), f, d2), f) == d2
    ensures Read16(PutDescriptor(PutDescriptor(Write16(mem, at, w), f, d), f, d2), at) == w
    ensures forall j :: FreeMapAt <= j < MainSize && j != at && j != at + 1 ==>
              PutDescriptor(PutDescriptor(Write16(mem, at, w), f, d), f, d2)[j] == mem[j]
  {
    var mem1 := Write16(mem, at, w);
    MachineProps.WordRoundTrip(mem, at, w, at);
    SwapProps.EntryOutsideTable(mem1, at, f, d);
    SwapProps.EntryOutsideTable(PutDescriptor(mem1, f, d), at, f, d2);
    MachineProps.DescriptorFrame(mem1, f, d);
    MachineProps.DescriptorFrame(PutDescriptor(mem1, f, d), f, d2);
  }

  /** The frame of a physical address in frame `f` below 256 is `f`. */
  lemma ShiftBackFrame(f: bv16, va: VirtualAddress)
    requires f < 256
    ensures Physical(f, va) >> 8 == f
  {
  }

  /** `translate_with_entry` for the entry at `at`: a permission fault exactly when its
      protection does not grant `permissions`, and any other failure is an allocation's. */
  lemma TranslateWithEntryOutcome(m: Mach, va: VirtualAddress, permissions: bv8, at: nat)
    requires Shaped(m) && at + 1 < MainSize
    ensures TranslateWithEntry(m, va, permissions, at).result == Fail(PermissionFault) <==>
              !Grants(Protection(PageEntry(Read16(m.mem, at))), permissions)
    ensures TranslateWithEntry(m, va, permissions, at).result.Ok? ==>
              Grants(Protection(PageEntry(Read16(m.mem, at))), permissions)
    ensures Sound(va, permissions, TranslateWithEntry(m, va, permissions, at).result)
  {
    var pte := PageEntry(Read16(m.mem, at));
    if Grants(Protection(pte), permissions) {
      GrantsOnlyReadWrite(pte, permissions);
      if IsPresent(pte) {
        PresentEntryTranslates(m, va, permissions, at, Frame(pte) as nat);
      } else {
        SwapInOutcome(m, va, at, Frame(pte));
      }
    }
  }

  /** A present entry at `at`, on frame `f`, that grants `permissions`: the translation is the
      address in `f` at the offset of `va`, `f` is marked referenced, and the entry is cached in
      front of the TLB under the page of `va`. */
  lemma PresentEntryTranslates(m: Mach, va: VirtualAddress, permissions: bv8, at: nat, f: nat)
    requires Shaped(m) && at + 1 < MainSize && f == Frame(PageEntry(Read16(m.mem, at))) as nat
    requires Grants(Protection(PageEntry(Read16(m.mem, at))), permissions) && IsPresent(PageEntry(Read16(m.mem, at)))
    ensures TranslateWithEntry(m, va, permissions, at).result == Ok(Physical(Frame(PageEntry(Read16(m.mem, at))), va))
    ensures Physical(Frame(PageEntry(Read16(m.mem, at))), va) & 0xff == va.raw & 0xff
    ensures TranslateWithEntry(m, va, permissions, at).after.tlb[0] == Tlb.Record(PageOf(va), PageEntry(Read16(m.mem, at)))
    ensures IsReferenced(Descriptor(TranslateWithEntry(m, va, permissions, at).after.mem, f))
  {
    PhysicalOffset(Frame(PageEntry(Read16(m.mem, at))), va);
  }

  /** `translate_with_entry` for an entry found in the TLB: `abort` when it is not present, a
      permission fault exactly when a present entry does not grant `permissions`; the TLB is
      left as the lookup left it. */
  lemma TranslateCachedOutcome(m: Mach, va: VirtualAddress, permissions: bv8, pte: PageEntry)
    requires Shaped(m)
    ensures !IsPresent(pte) ==> TranslateCached(m, va, permissions, pte).result == Fail(Abort)
    ensures TranslateCached(m, va, permissions, pte).result == Fail(PermissionFault) <==>
              IsPresent(pte) && !Grants(Protection(pte), permissions)
    ensures TranslateCached(m, va, permissions, pte).after.tlb == m.tlb
    ensures Sound(va, permissions, TranslateCached(m, va, permissions, pte).result)
  {
    if IsPresent(pte) && Grants(Protection(pte), permissions) {
      GrantsOnlyReadWrite(pte, permissions);
      PhysicalOffset(Frame(pte), va);
    }
  }

  // ------------------------------------------------------------------------------------------
  // The page walk

  /** The walk from slot `pda` at level `i` is sound; with the rethrowing handler an empty slot
      is a segmentation fault. */
  lemma {:induction false} WalkSound(m: Mach, va: VirtualAddress, permissions: bv8, h: Handler, pda: nat, i: nat)
    requires Shaped(m) && pda + 1 < MainSize && i <= 2
    ensures Sound(va, permissions, Walk(m, va, permissions, h, pda, i).result)
    ensures h == Rethrow && Read16(m.mem, pda) == 0 ==> Walk(m, va, permissions, h, pda, i).result == Fail(SegmentationFault)
    decreases 2 - i, 2
  {
    if Read16(m.mem, pda) == 0 {
      HandleFaultOutcome(m, h, va, permissions, pda, i);
    }
    var f := Filled(m, h, va, permissions, pda, i);
    if f.result.Ok? {
      FollowSound(f.after, va, permissions, h, pda, i);
    }
  }

  /** The walk once slot `pda` of level `i` is filled is sound. */
  lemma {:induction false} FollowSound(m: Mach, va: VirtualAddress, permissions: bv8, h: Handler, pda: nat, i: nat)
    requires Shaped(m) && pda + 1 < MainSize && i <= 2
    ensures Sound(va, permissions, Follow(m, va, permissions, h, pda, i).result)
    decreases 2 - i, 1
  {
    var e := Read16(m.mem, pda);
    if e != 0 && i == 2 {
      FollowLast(m, va, permissions, h, pda, i);
    } else if e != 0 && e & 1 == 1 {
      FollowLeaf(m, va, permissions, h, pda, i);
    } else if e != 0 && e < 4096 {
      DescendSound(m, va, permissions, h, pda, i, e as nat + 2 * DirectoryIndex(va, Shift(i)));
    } else {
      FollowAborts(m, va, permissions, h, pda, i);
    }
  }

  lemma FollowLast(m: Mach, va: VirtualAddress, permissions: bv8, h: Handler, pda: nat, i: nat)
    requires Shaped(m) && pda + 1 < MainSize && i == 2 && Read16(m.mem, pda) != 0
    ensures Follow(m, va, permissions, h, pda, i) == TranslateWithEntry(m, va, permissions, pda)
    ensures Sound(va, permissions, Follow(m, va, permissions, h, pda, i).result)
  {
    TranslateWithEntryOutcome(m, va, permissions, pda);
  }

  lemma FollowLeaf(m: Mach, va: VirtualAddress, permissions: bv8, h: Handler, pda: nat, i: nat)
    requires Shaped(m) && pda + 1 < MainSize && i < 2 && Read16(m.mem, pda) != 0 && Read16(m.mem, pda) & 1 == 1
    ensures Follow(m, va, permissions, h, pda, i) == Leaf(m, va, permissions, pda, i)
    ensures Sound(va, permissions, Follow(m, va, permissions, h, pda, i).result)
  {
    LeafOutcome(m, va, permissions, pda, i);
  }

  lemma FollowAborts(m: Mach, va: VirtualAddress, permissions: bv8, h: Handler, pda: nat, i: nat)
    requires Shaped(m) && pda + 1 < MainSize && i <= 2
    requires Read16(m.mem, pda) == 0 || (i < 2 && Read16(m.mem, pda) & 1 == 0 && Read16(m.mem, pda) >= 4096)
    ensures Follow(m, va, permissions, h, pda, i) == Run(Fail(Abort), m)
  {
  }

  /** The walk going down from the directory slot `pda` of level `i` to slot `next` of the next
      level is sound. */
  lemma {:induction false} DescendSound(m: Mach, va: VirtualAddress, permissions: bv8, h: Handler, pda: nat, i: nat, next: nat)
    requires Shaped(m) && pda + 1 < MainSize && i < 2
    requires Read16(m.mem, pda) != 0 && Read16(m.mem, pda) & 1 == 0 && Read16(m.mem, pda) < 4096
    requires next == Read16(m.mem, pda) as nat + 2 * DirectoryIndex(va, Shift(i))
    ensures Sound(va, permissions, Follow(m, va, permissions, h, pda, i).result)
    decreases 2 - i, 0
  {
    if next + 1 < MainSize {
      FollowDescends(m, va, permissions, h, pda, i, next);
      WalkSound(m, va, permissions, h, next, i + 1);
    } else {
      FollowBeyond(m, va, permissions, h, pda, i, next);
    }
  }

  lemma FollowDescends(m: Mach, va: VirtualAddress, permissions: bv8, h: Handler, pda: nat, i: nat, next: nat)
    requires Shaped(m) && pda + 1 < MainSize && i < 2
    requires Read16(m.mem, pda) != 0 && Read16(m.mem, pda) & 1 == 0 && Read16(m.mem, pda) < 4096
    requires next == Read16(m.mem, pda) as nat + 2 * DirectoryIndex(va, Shift(i)) && next + 1 < MainSize
    ensures Follow(m, va, permissions, h, pda, i) == Walk(m, va, permissions, h, next, i + 1)
  {
  }

  lemma FollowBeyond(m: Mach, va: VirtualAddress, permissions: bv8, h: Handler, pda: nat, i: nat, next: nat)
    requires Shaped(m) && pda + 1 < MainSize && i < 2
    requires Read16(m.mem, pda) != 0 && Read16(m.mem, pda) & 1 == 0 && Read16(m.mem, pda) < 4096
    requires next == Read16(m.mem, pda) as nat + 2 * DirectoryIndex(va, Shift(i)) && next + 1 >= MainSize
    ensures Follow(m, va, permissions, h, pda, i) == Run(Fail(Abort), m)
  {
  }

  /** A page entry met above the last level segfaults unless the lower directory bits of `va`
      are zero, and is otherwise translated as at the last level. */
  lemma LeafOutcome(m: Mach, va: VirtualAddress, permissions: bv8, pda: nat, i: nat)
    requires Shaped(m) && pda + 1 < MainSize
    ensures va.raw & !Mask(i) != 0 ==> Leaf(m, va, permissions, pda, i) == Run(Fail(SegmentationFault), m)
    ensures Sound(va, permissions, Leaf(m, va, permissions, pda, i).result)
  {
    if va.raw & !Mask(i) == 0 {
      LeafTranslates(m, va, permissions, pda, i);
    }
  }

  /** A page entry met above the last level, with the lower directory bits of `va` zero, is
      translated as at the last level. */
  lemma LeafTranslates(m: Mach, va: VirtualAddress, permissions: bv8, pda: nat, i: nat)
    requires Shaped(m) && pda + 1 < MainSize && va.raw & !Mask(i) == 0
    ensures Leaf(m, va, permissions, pda, i) == TranslateWithEntry(m, va, permissions, pda)
    ensures Sound(va, permissions, Leaf(m, va, permissions, pda, i).result)
  {
    TranslateWithEntryOutcome(m, va, permissions, pda);
  }

  // ------------------------------------------------------------------------------------------
  // translate

  /** `translate`: the null address is a segmentation fault before the TLB is consulted; every
      outcome is sound, so a physical address keeps the offset of `va` and an execute request
      never succeeds. */
  lemma TranslateSound(m: Mach, va: VirtualAddress, permissions: bv8, h: Handler)
    requires Shaped(m)
    ensures va.raw == 0 ==> Translate(m, va, permissions, h) == Run(Fail(SegmentationFault), m)
    ensures Sound(va, permissions, Translate(m, va, permissions, h).result)
    ensures permissions & Execute != 0 ==> Translate(m, va, permissions, h).result.Fail?
  {
    if va.raw != 0 {
      if !IsNone(Tlb.LookedUp(m.tlb, PageOf(va)).1) {
        ResolveHit(m, va, permissions, h);
      } else {
        ResolveMiss(m, va, permissions, h);
      }
    }
    ExecuteNeverSound(va, permissions, Translate(m, va, permissions, h).result);
  }

  /** A TLB hit finishes the translation through the cached entry. */
  lemma ResolveHit(m: Mach, va: VirtualAddress, permissions: bv8, h: Handler)
    requires Shaped(m) && va.raw != 0 && !IsNone(Tlb.LookedUp(m.tlb, PageOf(va)).1)
    ensures Translate(m, va, permissions, h)
            == TranslateCached(m.(tlb := Tlb.LookedUp(m.tlb, PageOf(va)).0), va, permissions, Tlb.LookedUp(m.tlb, PageOf(va)).1)
    ensures Sound(va, permissions, Translate(m, va, permissions, h).result)
  {
    var l := Tlb.LookedUp(m.tlb, PageOf(va));
    TranslateCachedOutcome(m.(tlb := l.0), va, permissions, l.1);
  }

  /** A TLB miss walks the page table from the root slot of `va`. */
  lemma ResolveMiss(m: Mach, va: VirtualAddress, permissions: bv8, h: Handler)
    requires Shaped(m) && va.raw != 0 && IsNone(Tlb.LookedUp(m.tlb, PageOf(va)).1)
    ensures Translate(m, va, permissions, h)
            == Walk(m.(tlb := Tlb.LookedUp(m.tlb, PageOf(va)).0), va, permissions, h, RootSlot(va), 0)
    ensures Sound(va, permissions, Translate(m, va, permissions, h).result)
  {
    var l := Tlb.LookedUp(m.tlb, PageOf(va));
    var root := RootSlot(va);
    RootSlotInside(va, root);
    WalkSound(m.(tlb := l.0), va, permissions, h, root, 0);
  }

  /** The root slot of any address lies in the page map. */
  lemma RootSlotInside(va: VirtualAddress, root: nat)
    requires root == RootSlot(va)
    ensures PageMapAt <= root && root + 1 < MainSize
  {
  }

  /** A sound outcome of a request that includes execution is a failure. */
  lemma ExecuteNeverSound(va: VirtualAddress, permissions: bv8, r: Result<bv16>)
    requires Sound(va, permissions, r)
    ensures permissions & Execute != 0 ==> r.Fail?
  {
  }

  /** A TLB hit translates through the cached entry without inserting anything: the TLB is left
      as the lookup left it. */
  lemma HitInsertsNothing(m: Mach, va: VirtualAddress, permissions: bv8, h: Handler)
    requires Shaped(m) && va.raw != 0 && !IsNone(Tlb.LookedUp(m.tlb, PageOf(va)).1)
    ensures Translate(m, va, permissions, h).after.tlb == Tlb.LookedUp(m.tlb, PageOf(va)).0
    ensures Translate(m, va, permissions, h).after.sec == m.sec
  {
    var l := Tlb.LookedUp(m.tlb, PageOf(va));
    TranslateCachedOutcome(m.(tlb := l.0), va, permissions, l.1);
  }

  /** With no permission asked for, translation never raises a permission fault. */
  lemma NoPermissionNoFault(m: Mach, va: VirtualAddress, h: Handler)
    requires Shaped(m)
    ensures Translate(m, va, 0, h).result != Fail(PermissionFault)
    ensures Translate(m, va, 0, h).result != Fail(Diverges)
  {
    TranslateSound(m, va, 0, h);
  }

  // ------------------------------------------------------------------------------------------
  // simple_mmap

  /** What the search from page `va` may answer: never a loop, and only a page at or after `va`,
      page-aligned when `va` is. */
  predicate Landed(va: VirtualAddress, r: Result<VirtualAddress>)
  {
    && r != Fail(Diverges)
    && (r.Ok? ==> va.raw as nat <= r.value.raw as nat)
    && (r.Ok? && va.raw & 0xff == 0 ==> r.value.raw & 0xff == 0)
  }

  /** The search from page `va` never loops on a permission fault, and stops on a page at or
      after `va`, which is page-aligned when `va` is. */
  lemma {:induction false} SearchSound(m: Mach, va: VirtualAddress, start: VirtualAddress)
    requires Shaped(m)
    ensures Landed(va, Search(m, va, start).result)
    decreases 0xffff - va.raw
  {
    if va.raw >= 0xf800 {
      SearchAtTop(m, va, start);
    } else if Translate(m, va, 0, Rethrow).result.Fail? {
      SearchProbes(m, va, start);
    } else {
      var t := Translate(m, va, 0, Rethrow);
      SearchPasses(m, va, start);
      if Advanced(va, 256) != start {
        SearchSound(t.after, Advanced(va, 256), start);
        NextPageGrows(va);
        LandedEarlier(va, Advanced(va, 256), Search(t.after, Advanced(va, 256), start).result);
      }
    }
  }

  /** At or above `0xf800` the search stops where it is. */
  lemma SearchAtTop(m: Mach, va: VirtualAddress, start: VirtualAddress)
    requires Shaped(m) && va.raw >= 0xf800
    ensures Search(m, va, start) == Run(Ok(va), m)
    ensures Landed(va, Search(m, va, start).result)
  {
  }

  /** A page whose probe fails ends the search: a segfault takes the page, and the probe never
      raises a permission fault. */
  lemma SearchProbes(m: Mach, va: VirtualAddress, start: VirtualAddress)
    requires Shaped(m) && va.raw < 0xf800 && Translate(m, va, 0, Rethrow).result.Fail?
    ensures Search(m, va, start).result == Probed(Translate(m, va, 0, Rethrow).result.fault, va)
    ensures Landed(va, Search(m, va, start).result)
  {
    NoPermissionNoFault(m, va, Rethrow);
  }

  /** A page that translates is passed over: coming back to `start` is `std::bad_alloc`, and
      otherwise the search goes on from the next page. */
  lemma SearchPasses(m: Mach, va: VirtualAddress, start: VirtualAddress)
    requires Shaped(m) && va.raw < 0xf800 && Translate(m, va, 0, Rethrow).result.Ok?
    ensures Advanced(va, 256) == start ==> Search(m, va, start).result == Fail(BadAlloc)
    ensures Advanced(va, 256) != start ==>
              Search(m, va, start) == Search(Translate(m, va, 0, Rethrow).after, Advanced(va, 256), start)
  {
  }

  /** An answer landed after a later page `w` also landed after `va`. */
  lemma LandedEarlier(va: VirtualAddress, w: VirtualAddress, r: Result<VirtualAddress>)
    requires va.raw as nat <= w.raw as nat && (va.raw & 0xff == 0 ==> w.raw & 0xff == 0) && Landed(w, r)
    ensures Landed(va, r)
  {
  }

  /** Below `0xf800`, the next page is 256 higher, and aligned when `va` is. */
  lemma NextPageGrows(va: VirtualAddress)
    requires va.raw < 0xf800
    ensures Advanced(va, 256).raw as nat == va.raw as nat + 256
    ensures va.raw & 0xff == 0 ==> Advanced(va, 256).raw & 0xff == 0
  {
    PlusPage(va.raw);
  }

  lemma PlusPage(a: bv16)
    requires a < 0xf800
    ensures (a + 256) as nat == a as nat + 256
    ensures a & 0xff == 0 ==> (a + 256) & 0xff == 0
  {
  }

  /** Allocating pages never loops. */
  lemma {:induction false} AllocatePagesSound(m: Mach, va: VirtualAddress, ps: bv8, i: nat, count: nat)
    requires Shaped(m) && i <= count
    ensures AllocatePages(m, va, ps, i, count).result != Fail(Diverges)
    decreases count - i
  {
    if i < count {
      var a := AllocatePage(m, Advanced(va, ((i * 256) % 0x1_0000) as bv16), ps);
      TranslateSound(m, Advanced(va, ((i * 256) % 0x1_0000) as bv16), ps, AllocateOnFault);
      if a.result.Ok? {
        AllocatePagesSound(a.after, va, ps, i + 1, count);
      }
    }
  }

  /** The page count: one page for 128 bytes, 33 for 8192; `length + 256` pages' worth of bytes
      rounded down, so a length one page short of 2^64 or more wraps to none. */
  lemma PageCounts(length: nat)
    requires length < SizeModulus
    ensures PageCount(128) == 1 && PageCount(8192) == 33
    ensures length + 256 < SizeModulus ==> PageCount(length) == length / 256 + 1
    ensures PageCount(length) == 0 <==> length + 256 >= SizeModulus
  {
    if length + 256 >= SizeModulus {
      assert (length + 256) % SizeModulus == length + 256 - SizeModulus;
    }
  }

  /** `simple_mmap(hint, length, protection)`: it loops forever exactly when the page count wraps
      to 0 below the kernel's page; otherwise any address it returns is page-aligned and no lower
      than the page of the hint (of `0x1000` for a null hint). */
  lemma SimpleMmapOutcome(m: Mach, hint: VirtualAddress, length: nat, protection: bv8)
    requires Shaped(m) && length < SizeModulus
    ensures SimpleMmap(m, hint, length, protection).result == Fail(Diverges) <==>
              PageCount(length) == 0 && PageOf(if hint.raw == 0 then VirtualAddress(0x1000) else hint).raw < 0xf800
    ensures SimpleMmap(m, hint, length, protection).result.Ok? ==>
              && SimpleMmap(m, hint, length, protection).result.value.raw & 0xff == 0
              && PageOf(if hint.raw == 0 then VirtualAddress(0x1000) else hint).raw as nat
                 <= SimpleMmap(m, hint, length, protection).result.value.raw as nat
  {
    var start := PageOf(if hint.raw == 0 then VirtualAddress(0x1000) else hint);
    PageOfClearsOffset(if hint.raw == 0 then VirtualAddress(0x1000) else hint);
    SimpleMmapSteps(m, hint, length, protection, start);
    if !(PageCount(length) == 0 && start.raw < 0xf800) {
      MapFromSound(m, start, PageCount(length), protection);
    }
  }

  /** `simple_mmap` loops at once when the page count wraps to 0 below `0xf800`, and otherwise
      maps from the page of its hint. */
  lemma SimpleMmapSteps(m: Mach, hint: VirtualAddress, length: nat, protection: bv8, start: VirtualAddress)
    requires Shaped(m) && length < SizeModulus
    requires start == PageOf(if hint.raw == 0 then VirtualAddress(0x1000) else hint)
    ensures PageCount(length) == 0 && start.raw < 0xf800 ==> SimpleMmap(m, hint, length, protection) == Run(Fail(Diverges), m)
    ensures !(PageCount(length) == 0 && start.raw < 0xf800) ==>
              SimpleMmap(m, hint, length, protection) == MapFrom(m, start, PageCount(length), protection)
  {
  }

  /** Mapping `count` pages from the page `start` never loops, and returns the page the search
      landed on. */
  lemma MapFromSound(m: Mach, start: VirtualAddress, count: nat, ps: bv8)
    requires Shaped(m)
    ensures Landed(start, MapFrom(m, start, count, ps).result)
    ensures MapFrom(m, start, count, ps).result.Ok? ==>
              MapFrom(m, start, count, ps).result == Search(m, start, start).result
  {
    SearchSound(m, start, start);
    var s := Search(m, start, start);
    if s.result.Ok? {
      AllocatePagesSound(s.after, s.result.value, ps, 0, count);
    }
  }
}
