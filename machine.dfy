/** The lab 3 machine as an object: main and secondary memory are byte arrays updated in place,
    and the TLB is a `Tlb` object. Every operation is proved to have the effect, and give the
    result, that `MachineSpec` describes for the state before it. */
module Machines {
  import opened Codec
  import Tlb
  import opened MachineSpec

  class Machine {
    /** The 4096 bytes of main memory. */
    const mem: array<bv8>

    /** The 262144 bytes of secondary memory. */
    const sec: array<bv8>

    /** The translation lookaside buffer. */
    const tlb: Tlb.Tlb

    ghost predicate Valid()
      reads this, tlb
    {
      mem.Length == MainSize && sec.Length == SecondarySize && tlb.Valid()
    }

    /** The machine as a value. */
    ghost function State(): (m: Mach)
      requires Valid()
      reads this, mem, sec, tlb, tlb.elements
      ensures Shaped(m)
    {
      Mach(mem[..], sec[..], Tlb.Entries(tlb.Contents()))
    }

    /** Builds the machine over secondary memory whose initial contents are `sec0`: the free
        region is set to `(1, 1023)`, main memory is zeroed, and the kernel's first frame is
        set up and mapped at `0xf800`. */
    constructor (sec0: seq<bv8>)
      requires |sec0| == SecondarySize
      ensures Valid() && State() == Boot(sec0)
      ensures fresh(mem) && fresh(sec) && fresh(tlb) && fresh(tlb.elements)
    {
      sec := new bv8[SecondarySize](i requires 0 <= i < SecondarySize => sec0[i]);
      mem := new bv8[MainSize];
      tlb := new Tlb.Tlb();
      new;
      assert sec[..] == sec0;
      FormatSecondary();
      ZeroMain();
      SetUpKernel();
    }

    /** Sets the free region of secondary memory. */
    method FormatSecondary()
      requires Valid()
      modifies sec
      ensures sec[..] == BootSecondary(old(sec[..]))
    {
      StoreSecondary16(0, 1);
      StoreSecondary16(2, 1023);
      StoreSecondary16(4, 0);
      StoreSecondary16(6, 0);
    }

    /** Zeroes main memory. */
    method ZeroMain()
      requires Valid()
      modifies mem
      ensures mem[..] == seq(MainSize, _ => 0 as bv8)
    {
      var i := 0;
      while i < MainSize
        invariant i <= MainSize && forall k :: 0 <= k < i ==> mem[k] == 0
      {
        mem[i] := 0;
        i := i + 1;
      }
    }

    /** Sets up the kernel's frame, its page table entry and the frame table. */
    method SetUpKernel()
      requires Valid()
      modifies mem
      ensures mem[..] == KernelFrame(old(mem[..]))
    {
      var brk := KernelBreak();
      MapKernelFrame(brk);
      ghost var m3 := mem[..];
      var d := GetDescriptor(0);
      SetDescriptor(0, SetPinned(d, true));
      ghost var m4 := mem[..];
      d := GetDescriptor(0);
      SetDescriptor(0, AddBackReference(d, brk as bv8));
      assert mem[..] == PutDescriptor(m4, 0, AddBackReference(Descriptor(m4, 0), brk as bv8));
      assert m4 == PutDescriptor(m3, 0, SetPinned(Descriptor(m3, 0), true));
      Store16(FreeMapAt, 0xfffe);
    }

    /** Sets the break past the kernel's directory at `brk`, links that directory from the
        page map and maps `0xf800` to frame 0 in it. */
    method MapKernelFrame(brk: nat)
      requires Valid() && brk == KernelBreak()
      modifies mem
      ensures mem[..] == KernelMapping(old(mem[..]))
    {
      Store16(KbrkAt, (brk + 16) as bv16);
      Store16(PageMapAt + 2 * 3, brk as bv16);
      var pte := SetFrame(SetProtection(SetPresent(NoEntry, true), Read | Write), 0);
      Store16(brk + 2 * 7, pte.raw);
    }

    /** Reads the little-endian 16-bit word at `a` in main memory. */
    method Load16(a: nat) returns (v: bv16)
      requires Valid() && a + 1 < MainSize
      ensures v == Read16(mem[..], a) && v == Read16(State().mem, a)
    {
      v := (mem[a] as bv16) | ((mem[a + 1] as bv16) << 8);
    }

    /** Stores the little-endian 16-bit word `v` at `a` in main memory. */
    method Store16(a: nat, v: bv16)
      requires Valid() && a + 1 < MainSize
      modifies mem
      ensures mem[..] == Write16(old(mem[..]), a, v)
      ensures State() == old(State()).(mem := Write16(old(State()).mem, a, v))
    {
      mem[a] := (v & 0xff) as bv8;
      mem[a + 1] := (v >> 8) as bv8;
    }

    /** Reads the little-endian 16-bit word at `a` in secondary memory. */
    method LoadSecondary16(a: nat) returns (v: bv16)
      requires Valid() && a + 1 < SecondarySize
      ensures v == Read16(sec[..], a)
    {
      v := (sec[a] as bv16) | ((sec[a + 1] as bv16) << 8);
    }

    /** Stores the little-endian 16-bit word `v` at `a` in secondary memory. */
    method StoreSecondary16(a: nat, v: bv16)
      requires Valid() && a + 1 < SecondarySize
      modifies sec
      ensures sec[..] == Write16(old(sec[..]), a, v)
    {
      sec[a] := (v & 0xff) as bv8;
      sec[a + 1] := (v >> 8) as bv8;
    }

    /** The descriptor of frame `f` in the frame table. */
    method GetDescriptor(f: nat) returns (d: FrameDescriptor)
      requires Valid() && 4 * f + 3 < MainSize
      ensures d == Descriptor(mem[..], f) && d == Descriptor(State().mem, f)
    {
      d := FrameDescriptor(mem[4 * f], mem[4 * f + 1], mem[4 * f + 2], mem[4 * f + 3]);
    }

    /** Stores `d` as the descriptor of frame `f`. */
    method SetDescriptor(f: nat, d: FrameDescriptor)
      requires Valid() && 4 * f + 3 < MainSize
      modifies mem
      ensures mem[..] == PutDescriptor(old(mem[..]), f, d)
      ensures State() == old(State()).(mem := PutDescriptor(old(State()).mem, f, d))
    {
      mem[4 * f] := d.raw0;
      mem[4 * f + 1] := d.raw1;
      mem[4 * f + 2] := d.raw2;
      mem[4 * f + 3] := d.raw3;
    }

    /** `kalloc(n)`. */
    method Kalloc(n: nat) returns (r: Result<bv16>)
      requires Valid() && n < SizeModulus
      modifies mem
      ensures Valid() && Run(r, State()) == MachineSpec.Kalloc(old(State()), n)
    {
      var a := Load16(KbrkAt);
      var c := BreakAfter(a, n);
      r := Fail(BadAlloc);
      if c < 0x200 {
        Store16(KbrkAt, c as bv16);
        r := Ok(a);
      }
    }

    /** `find_victim`: one pass over the frame table. */
    method FindVictim() returns (r: Result<bv8>)
      requires Valid()
      modifies mem
      ensures Valid() && Run(r, State()) == MachineSpec.FindVictim(old(State()))
    {
      ghost var goal := MachineSpec.FindVictim(State());
      var victim: bv8 := 0xff;
      var s: nat := 0;
      while s < 16
        invariant Valid() && Searching(State(), s, victim, goal)
        decreases 16 - s
      {
        var found;
        found, victim := Examine(s, victim, goal);
        if found {
          return Ok(s as bv8);
        }
        s := s + 1;
      }
      if victim < 0x80 {
        return Ok(victim);
      } else if victim != 0xff {
        return Ok(victim & 15);
      } else {
        return Fail(BadAlloc);
      }
    }

    /** One iteration of `find_victim`'s loop, at frame `s` with candidate `victim`. */
    method Examine(s: nat, victim: bv8, ghost goal: Run<bv8>) returns (found: bool, next: bv8)
      requires Valid() && s < 16 && Searching(State(), s, victim, goal)
      modifies mem
      ensures Valid()
      ensures found ==> Run(Ok(s as bv8), State()) == goal
      ensures !found ==> Searching(State(), s + 1, next, goal)
    {
      var d := GetDescriptor(s);
      if IsReadyForEviction(d) {
        found, next := Compare(s, victim, d, goal);
      } else {
        found := false;
        next := Skip(s, victim, d, goal);
      }
    }

    /** A frame ready for eviction: taken at once with no back reference, otherwise the
        candidate when it has fewer back references than the one so far. */
    method Compare(s: nat, victim: bv8, d: FrameDescriptor, ghost goal: Run<bv8>)
      returns (found: bool, next: bv8)
      requires Valid() && s < 16 && Searching(State(), s, victim, goal)
      requires d == Descriptor(mem[..], s) && IsReadyForEviction(d)
      ensures found ==> Run(Ok(s as bv8), State()) == goal
      ensures !found ==> Searching(State(), s + 1, next, goal)
    {
      var n := BackReferenceCount(d);
      if n == 0 {
        return true, victim;
      }
      if victim >= 0x80 {
        FrameCandidate(s);
        return false, s as bv8;
      }
      next := Contest(s, victim, d, goal);
      return false, next;
    }

    /** A ready frame `s` with back references against an unreferenced candidate `victim`:
        the one with fewer back references wins, the earlier one on ties. */
    method Contest(s: nat, victim: bv8, d: FrameDescriptor, ghost goal: Run<bv8>) returns (next: bv8)
      requires Valid() && s < 16 && Searching(State(), s, victim, goal) && victim < 0x80
      requires d == Descriptor(mem[..], s) && IsReadyForEviction(d) && BackReferenceCount(d) != 0
      ensures Searching(State(), s + 1, next, goal)
    {
      var v := GetDescriptor(victim as nat);
      if BackReferenceCount(d) < BackReferenceCount(v) {
        FrameCandidate(s);
        return s as bv8;
      }
      return victim;
    }

    /** A frame not ready for eviction: its referenced flag is cleared, and it becomes the
        tagged candidate when there is none yet and it is not pinned. */
    method Skip(s: nat, victim: bv8, d: FrameDescriptor, ghost goal: Run<bv8>) returns (next: bv8)
      requires Valid() && s < 16 && Searching(State(), s, victim, goal)
      requires d == Descriptor(mem[..], s) && !IsReadyForEviction(d)
      modifies mem
      ensures Valid() && Searching(State(), s + 1, next, goal)
    {
      next := victim;
      SetDescriptor(s, SetReferenced(d, false));
      var e := GetDescriptor(s);
      if victim == 0xff && !IsPinned(e) {
        next := 0x80 | s as bv8;
      }
    }

    /** The exchange loop of `swap_victim`: the 256 bytes of frame `v` and of secondary slot
        `slot`, swapped as 64 four-byte words. */
    method SwapFrames(v: nat, slot: nat)
      requires Valid() && v < 16 && slot * 256 + 256 <= SecondarySize
      modifies mem, sec
      ensures Valid() && unchanged(tlb, tlb.elements)
      ensures State() == MachineSpec.SwapFrames(old(State()), v, slot)
    {
      ghost var m0 := mem[..];
      ghost var s0 := sec[..];
      var i: nat := 0;
      while i < 64
        invariant i <= 64
        invariant mem[..] == MovedIn(m0, s0, v * 256, slot * 256, 4 * i)
        invariant sec[..] == MovedIn(s0, m0, slot * 256, v * 256, 4 * i)
      {
        SwapWord(v * 256 + 4 * i, slot * 256 + 4 * i, m0, s0, v * 256, slot * 256, 4 * i);
        i := i + 1;
      }
      MovedInDone(m0, s0, v * 256, slot * 256);
      MovedInDone(s0, m0, slot * 256, v * 256);
    }

    /** `std::swap` of the four bytes at `p` in main memory and at `q` in secondary memory,
        the next word of the exchange of `m0`'s bytes from `at` with `s0`'s from `from`. */
    method SwapWord(p: nat, q: nat, ghost m0: seq<bv8>, ghost s0: seq<bv8>, ghost at: nat,
                    ghost from: nat, ghost k: nat)
      requires Valid() && p == at + k && q == from + k && at + k + 4 <= MainSize && at + 256 <= MainSize
      requires from + 256 <= SecondarySize && k + 4 <= 256 && |m0| == MainSize && |s0| == SecondarySize
      requires mem[..] == MovedIn(m0, s0, at, from, k) && sec[..] == MovedIn(s0, m0, from, at, k)
      modifies mem, sec
      ensures mem[..] == MovedIn(m0, s0, at, from, k + 4) && sec[..] == MovedIn(s0, m0, from, at, k + 4)
    {
      var j: nat := 0;
      while j < 4
        invariant j <= 4
        invariant mem[..] == MovedIn(m0, s0, at, from, k + j) && sec[..] == MovedIn(s0, m0, from, at, k + j)
      {
        MovedInStep(m0, s0, at, from, k + j);
        MovedInStep(s0, m0, from, at, k + j);
        mem[p + j], sec[q + j] := sec[q + j], mem[p + j];
        j := j + 1;
      }
    }

    /** The `std::fill_n` that zeroes frame `f`. */
    method ZeroFrame(f: nat)
      requires Valid() && f < 16
      modifies mem
      ensures mem[..] == MachineSpec.ZeroFrame(old(mem[..]), f)
    {
      ghost var m0 := mem[..];
      ghost var zeros := seq(256, _ => 0 as bv8);
      var i: nat := 0;
      while i < 256
        invariant i <= 256 && mem[..] == MovedIn(m0, zeros, f * 256, 0, i)
      {
        MovedInStep(m0, zeros, f * 256, 0, i);
        mem[f * 256 + i] := 0;
        i := i + 1;
      }
      MovedInDone(m0, zeros, f * 256, 0);
    }

    /** `update_page_entries_after_swap(victim, slot)`. */
    method UpdatePageEntriesAfterSwap(victim: nat, slot: bv16) returns (r: Result<()>)
      requires Valid() && victim < 16
      modifies mem, tlb.elements
      ensures Valid() && Run(r, State()) == UpdateAfterSwap(old(State()), victim, slot)
    {
      var d := GetDescriptor(victim);
      var n := BackReferenceCount(d);
      if n > 2 {
        return Fail(Abort);
      }
      var count := n as nat;
      ghost var goal := UpdateFrom(State(), victim, slot, 0, count);
      var i: nat := 0;
      while i < count
        invariant Valid() && i <= count <= 2 && UpdateFrom(State(), victim, slot, i, count) == goal
      {
        var present := UpdateEntry(victim, slot, i, count, goal);
        if !present {
          return Fail(Abort);
        }
        i := i + 1;
      }
      d := GetDescriptor(victim);
      SetDescriptor(victim, ClearBackReferences(d));
      return Ok(());
    }

    /** One iteration of `update_page_entries_after_swap`'s loop: the entry back reference `i`
        points to must be present; it is invalidated in the TLB and marked swapped out. */
    method UpdateEntry(victim: nat, slot: bv16, i: nat, n: nat, ghost goal: Run<()>) returns (present: bool)
      requires Valid() && victim < 16 && i < n <= 2 && UpdateFrom(State(), victim, slot, i, n) == goal
      modifies mem, tlb.elements
      ensures Valid()
      ensures present ==> UpdateFrom(State(), victim, slot, i + 1, n) == goal
      ensures !present ==> Run(Fail(Abort), State()) == goal
    {
      var d := GetDescriptor(victim);
      var at := BackReference(d, i) as nat;
      var raw := Load16(at);
      var pte := PageEntry(raw);
      if !IsPresent(pte) {
        return false;
      }
      tlb.Invalidate(pte);
      Store16(at, SwappedOut(pte, slot).raw);
      return true;
    }

    /** `swap_victim(slot)`. */
    method SwapVictim(slot: bv16) returns (r: Result<bv8>)
      requires Valid()
      modifies mem, sec, tlb.elements
      ensures Valid() && Run(r, State()) == MachineSpec.SwapVictim(old(State()), slot)
    {
      var free := Load16(FreeMapAt);
      if free != 0 {
        return Fail(Abort);
      }
      r := FindVictim();
      if r.Fail? {
        return;
      }
      if slot as nat * 256 + 256 > SecondarySize {
        return Fail(Abort);
      }
      var v := r.value;
      SwapFrames(v as nat, slot as nat);
      var u := UpdatePageEntriesAfterSwap(v as nat, slot);
      if u.Fail? {
        return Fail(u.fault);
      }
    }

    /** Takes the first slot of the free secondary region: offset up by one, length down. */
    method ShrinkRegion()
      requires Valid()
      modifies sec
      ensures sec[..] == MachineSpec.ShrinkRegion(old(sec[..]))
    {
      ghost var s0 := sec[..];
      var offset := LoadSecondary16(0);
      StoreSecondary16(0, offset + 1);
      ghost var s1 := sec[..];
      var length := LoadSecondary16(2);
      StoreSecondary16(2, length - 1);
      ShrinkRegionSteps(s0, s1, sec[..]);
    }

    /** The eviction branch of `allocate_on_segfault`, taken when no frame is free. */
    method Evict() returns (r: Result<nat>)
      requires Valid()
      modifies mem, sec, tlb.elements
      ensures Valid() && Run(r, State()) == MachineSpec.Evict(old(State()))
    {
      var length := LoadSecondary16(2);
      if length == 0 {
        return Fail(BadAlloc);
      }
      var offset := LoadSecondary16(0);
      var s := SwapVictim(offset);
      if s.Fail? {
        return Fail(s.fault);
      }
      ZeroFrame(s.value as nat);
      ShrinkRegion();
      return Ok(s.value as nat);
    }

    /** The frame `allocate_on_segfault` takes: the lowest free one, or an evicted one. */
    method ClaimFrame() returns (r: Result<nat>)
      requires Valid()
      modifies mem, sec, tlb.elements
      ensures Valid() && Run(r, State()) == MachineSpec.ClaimFrame(old(State()))
    {
      var free := Load16(FreeMapAt);
      var slot := CountTrailingZeros(free);
      if slot < 16 {
        return Ok(slot);
      }
      r := Evict();
    }

    /** Resets frame `slot`'s descriptor, marks it referenced and clears its bit in the free map. */
    method MarkClaimed(slot: nat)
      requires Valid() && slot < 16
      modifies mem
      ensures mem[..] == MachineSpec.MarkClaimed(old(mem[..]), slot)
    {
      SetDescriptor(slot, SetReferenced(Cleared, true));
      var free := Load16(FreeMapAt);
      Store16(FreeMapAt, free & !FrameBit(slot));
    }

    /** Creates the directories below the empty slot `pda` found at level `level`, and returns
        where the page entry goes. */
    method MakeDirectories(va: VirtualAddress, pda: nat, level: nat) returns (r: Result<nat>)
      requires Valid() && pda + 1 < MainSize
      modifies mem
      ensures Valid() && Run(r, State()) == MachineSpec.MakeDirectories(old(State()), va, pda, level)
    {
      var k := Kalloc(16);
      if k.Fail? {
        return Fail(k.fault);
      }
      var offset := k.value;
      var l := LinkDirectory(va, pda, offset, level);
      if l.Fail? {
        return Fail(l.fault);
      }
      return Ok(offset as nat + 2 * DirectoryIndex(va, 8));
    }

    /** Links the new directory at `offset` below `pda`, through a second new one at level 0. */
    method LinkDirectory(va: VirtualAddress, pda: nat, offset: bv16, level: nat) returns (r: Result<()>)
      requires Valid() && pda + 1 < MainSize
      modifies mem
      ensures Valid() && Run(r, State()) == MachineSpec.LinkDirectory(old(State()), va, pda, offset, level)
    {
      if level == 0 {
        var k := Kalloc(16);
        if k.Fail? {
          return Fail(k.fault);
        }
        var o := k.value;
        Store16(o as nat + 2 * DirectoryIndex(va, 11), offset);
        Store16(pda, o);
      } else {
        Store16(pda, offset);
      }
      return Ok(());
    }

    /** Writes a fresh entry at `pteAt` and records it as a back reference of frame `slot`. */
    method PlaceEntry(pteAt: nat, ps: bv8, slot: nat)
      requires Valid() && pteAt + 1 < MainSize && slot < 16
      modifies mem
      ensures Run(Ok(()), State()) == MachineSpec.PlaceEntry(old(State()), pteAt, ps, slot)
    {
      Store16(pteAt, FreshEntry(ps, slot).raw);
      var d := GetDescriptor(slot);
      SetDescriptor(slot, AddBackReference(d, (pteAt % 256) as bv8));
    }

    /** Installs the entry for `va` once frame `slot` is claimed. */
    method Install(va: VirtualAddress, ps: bv8, pda: nat, level: nat, slot: nat) returns (r: Result<()>)
      requires Valid() && pda + 1 < MainSize && slot < 16
      modifies mem
      ensures Valid() && Run(r, State()) == MachineSpec.Install(old(State()), va, ps, pda, level, slot)
    {
      MarkClaimed(slot);
      if level == 2 {
        PlaceEntry(pda, ps, slot);
        return Ok(());
      }
      var d := MakeDirectories(va, pda, level);
      if d.Fail? {
        return Fail(d.fault);
      }
      PlaceEntry(d.value, ps, slot);
      return Ok(());
    }

    /** `allocate_on_segfault(va, ps, pda, level)`. */
    method AllocateOnSegfault(va: VirtualAddress, ps: bv8, pda: nat, level: nat) returns (r: Result<()>)
      requires Valid() && pda + 1 < MainSize && Read16(mem[..], pda) == 0
      modifies mem, sec, tlb.elements
      ensures Valid() && Run(r, State()) == MachineSpec.AllocateOnSegfault(old(State()), va, ps, pda, level)
    {
      var c := ClaimFrame();
      if c.Fail? {
        return Fail(c.fault);
      }
      r := Install(va, ps, pda, level, c.value);
    }

    /** Calls the segfault handler `h`. */
    method HandleFault(h: Handler, va: VirtualAddress, ps: bv8, pda: nat, level: nat) returns (r: Result<()>)
      requires Valid() && pda + 1 < MainSize && Read16(mem[..], pda) == 0
      modifies mem, sec, tlb.elements
      ensures Valid() && Run(r, State()) == MachineSpec.HandleFault(old(State()), h, va, ps, pda, level)
    {
      match h
      case Rethrow =>
        return Fail(SegmentationFault);
      case AllocateOnFault =>
        r := AllocateOnSegfault(va, ps, pda, level);
    }

    /** `tlb.insert(va.page(), pte)`. */
    method CacheEntry(va: VirtualAddress, pte: PageEntry)
      requires Valid()
      modifies tlb, tlb.elements
      ensures Valid() && State() == old(State()).(tlb := Cached(old(State()).tlb, PageOf(va), pte))
    {
      Tlb.InsertShifts(tlb.Contents(), PageOf(va), pte);
      tlb.Insert(PageOf(va), pte);
    }

    /** The end of a translation through frame `frame`: marks it referenced and returns the
        physical address. */
    method Touch(va: VirtualAddress, frame: bv16) returns (r: Result<bv16>)
      requires Valid() && frame < 256
      modifies mem
      ensures Run(r, State()) == MachineSpec.Touch(old(State()), va, frame)
    {
      var d := GetDescriptor(frame as nat);
      SetDescriptor(frame as nat, SetReferenced(d, true));
      return Ok(Physical(frame, va));
    }

    /** `translate_with_entry` for the entry stored at `at`, with the TLB updated. */
    method TranslateWithEntry(va: VirtualAddress, permissions: bv8, at: nat) returns (r: Result<bv16>)
      requires Valid() && at + 1 < MainSize
      modifies mem, sec, tlb, tlb.elements
      ensures Valid() && Run(r, State()) == MachineSpec.TranslateWithEntry(old(State()), va, permissions, at)
    {
      var raw := Load16(at);
      var pte := PageEntry(raw);
      if !Grants(Protection(pte), permissions) {
        return Fail(PermissionFault);
      }
      if IsPresent(pte) {
        CacheEntry(va, pte);
        r := Touch(va, Frame(pte));
      } else {
        r := SwapIn(va, at, Frame(pte));
      }
    }

    /** Brings back the page of the absent entry at `at` from secondary slot `slot`. */
    method SwapIn(va: VirtualAddress, at: nat, slot: bv16) returns (r: Result<bv16>)
      requires Valid() && at + 1 < MainSize
      modifies mem, sec, tlb, tlb.elements
      ensures Valid() && Run(r, State()) == MachineSpec.SwapIn(old(State()), va, at, slot)
    {
      var s := SwapVictim(slot);
      if s.Fail? {
        return Fail(s.fault);
      }
      r := Reinstate(va, at, s.value as bv16);
    }

    /** Rewrites the entry at `at` as present on frame `f` and finishes the translation there. */
    method Reinstate(va: VirtualAddress, at: nat, f: bv16) returns (r: Result<bv16>)
      requires Valid() && at + 1 < MainSize && f < 16
      modifies mem, tlb, tlb.elements
      ensures Valid() && Run(r, State()) == MachineSpec.Reinstate(old(State()), va, at, f)
    {
      var raw := Load16(at);
      var pte := SetPresent(SetFrame(PageEntry(raw), f), true);
      Store16(at, pte.raw);
      CacheEntry(va, pte);
      var d := GetDescriptor(f as nat);
      SetDescriptor(f as nat, AddBackReference(d, (at % 256) as bv8));
      r := Touch(va, f);
    }

    /** `translate_with_entry` for an entry found in the TLB, which must be present. */
    method TranslateCached(va: VirtualAddress, permissions: bv8, pte: PageEntry) returns (r: Result<bv16>)
      requires Valid()
      modifies mem
      ensures Valid() && Run(r, State()) == MachineSpec.TranslateCached(old(State()), va, permissions, pte)
    {
      if !IsPresent(pte) {
        return Fail(Abort);
      }
      if !Grants(Protection(pte), permissions) {
        return Fail(PermissionFault);
      }
      r := Touch(va, Frame(pte));
    }

    /** The slot `pda` met at level `i` of the walk, handed to `h` when it is empty. */
    method Fill(h: Handler, va: VirtualAddress, permissions: bv8, pda: nat, i: nat) returns (r: Result<()>)
      requires Valid() && pda + 1 < MainSize
      modifies mem, sec, tlb, tlb.elements
      ensures Valid() && Run(r, State()) == Filled(old(State()), h, va, permissions, pda, i)
    {
      var e := Load16(pda);
      if e == 0 {
        r := HandleFault(h, va, permissions, pda, i);
      } else {
        r := Ok(());
      }
    }

    /** One iteration of the walk's loop, at level `i` < 2 and slot `pda`: either the
        translation ends, or the walk goes on at `next` on the level below. */
    method WalkLevel(va: VirtualAddress, permissions: bv8, h: Handler, pda: nat, i: nat, ghost goal: Run<bv16>)
      returns (done: bool, r: Result<bv16>, next: nat)
      requires Valid() && i < 2 && pda + 1 < MainSize && Walk(State(), va, permissions, h, pda, i) == goal
      modifies mem, sec, tlb, tlb.elements
      ensures Valid()
      ensures done ==> Run(r, State()) == goal
      ensures !done ==> next + 1 < MainSize && Walk(State(), va, permissions, h, next, i + 1) == goal
    {
      var f := Fill(h, va, permissions, pda, i);
      if f.Fail? {
        return true, Fail(f.fault), pda;
      }
      done, r, next := FollowLevel(va, permissions, h, pda, i, goal);
    }

    /** The rest of an iteration of the walk's loop, once the slot `pda` is filled. */
    method FollowLevel(va: VirtualAddress, permissions: bv8, h: Handler, pda: nat, i: nat, ghost goal: Run<bv16>)
      returns (done: bool, r: Result<bv16>, next: nat)
      requires Valid() && i < 2 && pda + 1 < MainSize && Follow(State(), va, permissions, h, pda, i) == goal
      modifies mem, sec, tlb, tlb.elements
      ensures Valid()
      ensures done ==> Run(r, State()) == goal
      ensures !done ==> next + 1 < MainSize && Walk(State(), va, permissions, h, next, i + 1) == goal
    {
      next := pda;
      var e := Load16(pda);
      if e == 0 {
        return true, Fail(Abort), next;
      }
      if e & 1 == 1 {
        r := Leaf(va, permissions, pda, i);
        return true, r, next;
      }
      r := Fail(Abort);
      if e >= 4096 {
        return true, r, next;
      }
      next := e as nat + 2 * DirectoryIndex(va, Shift(i));
      return next + 1 >= MainSize, r, next;
    }

    /** A page entry met at level `i` < 2 of the walk: valid only when the directory bits of
        `va` below that level are zero. */
    method Leaf(va: VirtualAddress, permissions: bv8, pda: nat, i: nat) returns (r: Result<bv16>)
      requires Valid() && pda + 1 < MainSize
      modifies mem, sec, tlb, tlb.elements
      ensures Valid()
      ensures Run(r, State()) == MachineSpec.Leaf(old(State()), va, permissions, pda, i)
    {
      if va.raw & !Mask(i) != 0 {
        return Fail(SegmentationFault);
      }
      r := TranslateWithEntry(va, permissions, pda);
    }

    /** The end of the walk, at level 2, where the slot is the page entry. */
    method WalkLeaf(va: VirtualAddress, permissions: bv8, h: Handler, pda: nat) returns (r: Result<bv16>)
      requires Valid() && pda + 1 < MainSize
      modifies mem, sec, tlb, tlb.elements
      ensures Valid() && Run(r, State()) == Walk(old(State()), va, permissions, h, pda, 2)
    {
      var f := Fill(h, va, permissions, pda, 2);
      if f.Fail? {
        return Fail(f.fault);
      }
      var e := Load16(pda);
      if e == 0 {
        return Fail(Abort);
      }
      r := TranslateWithEntry(va, permissions, pda);
    }

    /** `translate(va, permissions, handler)`. */
    method Translate(va: VirtualAddress, permissions: bv8, h: Handler) returns (r: Result<bv16>)
      requires Valid()
      modifies mem, sec, tlb, tlb.elements
      ensures Valid() && Run(r, State()) == MachineSpec.Translate(old(State()), va, permissions, h)
    {
      if va.raw == 0 {
        return Fail(SegmentationFault);
      }
      r := Resolve(va, permissions, h);
    }

    /** The translation of a non-null `va`, through the TLB or the page walk. */
    method Resolve(va: VirtualAddress, permissions: bv8, h: Handler) returns (r: Result<bv16>)
      requires Valid()
      modifies mem, sec, tlb, tlb.elements
      ensures Valid() && Run(r, State()) == MachineSpec.Resolve(old(State()), va, permissions, h)
    {
      var pte := LookUp(va);
      if !IsNone(pte) {
        r := TranslateCached(va, permissions, pte);
      } else {
        r := WalkTable(va, permissions, h);
      }
    }

    /** `tlb.lookup(va.page())`. */
    method LookUp(va: VirtualAddress) returns (pte: PageEntry)
      requires Valid()
      modifies tlb.elements
      ensures Valid() && State() == old(State()).(tlb := Tlb.LookedUp(old(State()).tlb, PageOf(va)).0)
      ensures pte == Tlb.LookedUp(old(State()).tlb, PageOf(va)).1
    {
      pte := tlb.Lookup(PageOf(va));
    }

    /** The page walk of `translate`, after a TLB miss. */
    method WalkTable(va: VirtualAddress, permissions: bv8, h: Handler) returns (r: Result<bv16>)
      requires Valid()
      modifies mem, sec, tlb, tlb.elements
      ensures Valid() && Run(r, State()) == Walk(old(State()), va, permissions, h, RootSlot(va), 0)
    {
      var pda: nat := RootSlot(va);
      ghost var goal := Walk(State(), va, permissions, h, pda, 0);
      var i: nat := 0;
      while i < 2
        invariant Valid() && i <= 2 && pda + 1 < MainSize && Walk(State(), va, permissions, h, pda, i) == goal
      {
        var done;
        done, r, pda := WalkLevel(va, permissions, h, pda, i, goal);
        if done {
          return;
        }
        i := i + 1;
      }
      r := WalkLeaf(va, permissions, h, pda);
    }

    /** `allocate_page(va, ps)`. */
    method AllocatePage(va: VirtualAddress, ps: bv8) returns (r: Result<bv16>)
      requires Valid()
      modifies mem, sec, tlb, tlb.elements
      ensures Valid() && Run(r, State()) == MachineSpec.AllocatePage(old(State()), va, ps)
    {
      r := Translate(va, ps, AllocateOnFault);
    }

    /** `simple_mmap(hint, length, protection)`. */
    method SimpleMmap(hint: VirtualAddress, length: nat, protection: bv8) returns (r: Result<VirtualAddress>)
      requires Valid() && length < SizeModulus
      modifies mem, sec, tlb, tlb.elements
      ensures Valid() && Run(r, State()) == MachineSpec.SimpleMmap(old(State()), hint, length, protection)
    {
      var start := PageOf(if hint.raw == 0 then VirtualAddress(0x1000) else hint);
      var count := PageCount(length);
      if count == 0 && start.raw < 0xf800 {
        return Fail(Diverges);
      }
      r := MapFrom(start, count, protection);
    }

    /** Maps `count` pages with protection `ps` at the first free page found from `start`. */
    method MapFrom(start: VirtualAddress, count: nat, ps: bv8) returns (r: Result<VirtualAddress>)
      requires Valid()
      modifies mem, sec, tlb, tlb.elements
      ensures Valid() && Run(r, State()) == MachineSpec.MapFrom(old(State()), start, count, ps)
    {
      r := Search(start);
      if r.Fail? {
        return;
      }
      var a := AllocatePages(r.value, ps, count);
      if a.Fail? {
        return Fail(a.fault);
      }
    }

    /** The search loop of `simple_mmap` at page `va`, on its way to `goal`. */
    ghost predicate Seeking(va: VirtualAddress, start: VirtualAddress, goal: Run<VirtualAddress>)
      reads this, mem, sec, tlb, tlb.elements
    {
      Valid() && MachineSpec.Search(State(), va, start) == goal
    }

    /** The search loop of `simple_mmap`, from page `start`. */
    method Search(start: VirtualAddress) returns (r: Result<VirtualAddress>)
      requires Valid()
      modifies mem, sec, tlb, tlb.elements
      ensures Valid() && Run(r, State()) == MachineSpec.Search(old(State()), start, start)
    {
      ghost var goal := MachineSpec.Search(State(), start, start);
      var va := start;
      while va.raw < 0xf800
        invariant Seeking(va, start, goal)
        decreases 0xffff - va.raw
      {
        var done, next;
        done, r, next := Probe(va, start, goal);
        if done {
          return;
        }
        va := next;
      }
      SearchStops(State(), va, start);
      return Ok(va);
    }

    /** One iteration of the search: the page `va` is free when its translation with no
        permission segfaults; a mapped page is passed over. */
    method Probe(va: VirtualAddress, start: VirtualAddress, ghost goal: Run<VirtualAddress>)
      returns (done: bool, r: Result<VirtualAddress>, next: VirtualAddress)
      requires va.raw < 0xf800 && Seeking(va, start, goal)
      modifies mem, sec, tlb, tlb.elements
      ensures Valid()
      ensures done ==> Run(r, State()) == goal
      ensures !done ==> 0xffff - next.raw < 0xffff - va.raw && Seeking(next, start, goal)
    {
      next := va;
      var t := Translate(va, 0, Rethrow);
      if t.Fail? {
        if t.fault == SegmentationFault {
          return true, Ok(va), next;
        } else if t.fault == PermissionFault {
          return true, Fail(Diverges), next;
        }
        return true, Fail(t.fault), next;
      }
      NextPage(va);
      next := Advanced(va, 256);
      if next == start {
        return true, Fail(BadAlloc), next;
      }
      return false, Fail(BadAlloc), next;
    }

    /** The allocation loop of `simple_mmap`: `count` pages from `va`. */
    method AllocatePages(va: VirtualAddress, ps: bv8, count: nat) returns (r: Result<()>)
      requires Valid()
      modifies mem, sec, tlb, tlb.elements
      ensures Valid() && Run(r, State()) == MachineSpec.AllocatePages(old(State()), va, ps, 0, count)
    {
      ghost var goal := MachineSpec.AllocatePages(State(), va, ps, 0, count);
      var i: nat := 0;
      while i < count
        invariant Valid() && i <= count && MachineSpec.AllocatePages(State(), va, ps, i, count) == goal
      {
        var a := AllocatePage(Advanced(va, ((i * 256) % 0x1_0000) as bv16), ps);
        if a.Fail? {
          return Fail(a.fault);
        }
        i := i + 1;
      }
      return Ok(());
    }

    /** `read_byte(pa)`. */
    method ReadByte(pa: bv16) returns (r: Result<bv8>)
      requires Valid()
      ensures r == MachineSpec.ReadByte(State(), pa)
    {
      if pa as nat < MainSize {
        return Ok(mem[pa as nat]);
      }
      return Fail(Abort);
    }

    /** `store_byte(b, pa)`. */
    method StoreByte(b: bv8, pa: bv16) returns (r: Result<()>)
      requires Valid()
      modifies mem
      ensures Valid() && Run(r, State()) == MachineSpec.StoreByte(old(State()), b, pa)
    {
      if pa as nat < MainSize {
        mem[pa as nat] := b;
        return Ok(());
      }
      return Fail(Abort);
    }
  }

  lemma SearchStops(m: Mach, va: VirtualAddress, start: VirtualAddress)
    requires Shaped(m) && va.raw >= 0xf800
    ensures MachineSpec.Search(m, va, start) == Run(Ok(va), m)
  {
  }

  lemma FrameCandidate(s: nat)
    requires s < 16
    ensures Candidate(s as bv8) && (s as bv8) as nat == s
  {
  }

  /** `dst` with its first `k` bytes from `at` on replaced by those of `src` from `from` on. */
  ghost function MovedIn(dst: seq<bv8>, src: seq<bv8>, at: nat, from: nat, k: nat): (r: seq<bv8>)
    requires at + k <= |dst| && from + k <= |src|
    ensures |r| == |dst|
  {
    seq(|dst|, j requires 0 <= j < |dst| => if at <= j < at + k then src[from + j - at] else dst[j])
  }

  lemma MovedInStep(dst: seq<bv8>, src: seq<bv8>, at: nat, from: nat, k: nat)
    requires at + k < |dst| && from + k < |src|
    ensures MovedIn(dst, src, at, from, k)[at + k := src[from + k]] == MovedIn(dst, src, at, from, k + 1)
  {
  }

  lemma MovedInDone(dst: seq<bv8>, src: seq<bv8>, at: nat, from: nat)
    requires at + 256 <= |dst| && from + 256 <= |src|
    ensures MovedIn(dst, src, at, from, 256) == dst[..at] + src[from..from + 256] + dst[at + 256..]
  {
  }

  /** `find_victim`'s loop at frame `s` with candidate `victim`, on its way to `goal`. */
  ghost predicate Searching(m: Mach, s: nat, victim: bv8, goal: Run<bv8>)
  {
    Shaped(m) && s <= 16 && Candidate(victim) && (victim < 0x80 ==> victim as nat < s) &&
    FindFrom(m, s, victim) == goal
  }
}
