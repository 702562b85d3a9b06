/** The lab 3 machine as values: its 4 KiB main memory, its 256 KiB secondary memory and the
    logical entries of its TLB, and every operation of the machine as a function from one such
    state to an outcome and the next state.

    The kernel keeps its tables in main memory at fixed offsets, read and written as
    little-endian 16-bit words: the frame table (16 descriptors of 4 bytes) at 0, the free map
    (bit `f` set when frame `f` is free) at 64, the kernel break at 66 and the four root
    directory entries of the page map at 68. The first 8 bytes of secondary memory hold the free
    region `(offset, length)` of secondary slots.

    An exception leaves whatever the operation changed before throwing, so a failed outcome
    carries the state at the throw. A failed `assert`, `std::abort` and an out-of-range access
    to main or secondary memory all become `Abort`. */
module MachineSpec {
  import opened Codec
  import Tlb

  const MainSize: nat := 4096
  const SecondarySize: nat := 262144
  const FreeMapAt: nat := 64
  const KbrkAt: nat := 66
  const PageMapAt: nat := 68

  /** 2^64: `std::size_t` arithmetic wraps modulo this. */
  const SizeModulus: nat := 0x1_0000_0000_0000_0000

  /** Why an operation failed: the two page lookup errors, `std::bad_alloc`, a process abort, and
      the one case where the source loops forever. */
  datatype Fault = SegmentationFault | PermissionFault | BadAlloc | Abort | Diverges

  datatype Result<T> = Ok(value: T) | Fail(fault: Fault)

  /** The machine state: main memory, secondary memory, and the TLB's logical entries. */
  datatype Mach = Mach(mem: seq<bv8>, sec: seq<bv8>, tlb: seq<bv32>)

  /** What an operation returns, and the state it leaves. */
  datatype Run<T> = Run(result: Result<T>, after: Mach)

  /** The two segfault handlers `translate` can be given. */
  datatype Handler = Rethrow | AllocateOnFault

  predicate Shaped(m: Mach)
  {
    |m.mem| == MainSize && |m.sec| == SecondarySize && |m.tlb| == 4
  }

  // ------------------------------------------------------------------------------------------
  // Memory

  /** The little-endian 16-bit word at byte offset `a`. */
  function Read16(mem: seq<bv8>, a: nat): bv16
    requires a + 1 < |mem|
  {
    (mem[a] as bv16) | ((mem[a + 1] as bv16) << 8)
  }

  /** `mem` with the little-endian 16-bit word `v` stored at byte offset `a`. */
  function Write16(mem: seq<bv8>, a: nat, v: bv16): (r: seq<bv8>)
    requires a + 1 < |mem|
    ensures |r| == |mem|
  {
    mem[a := (v & 0xff) as bv8][a + 1 := (v >> 8) as bv8]
  }

  /** The descriptor of frame `f` in the frame table. */
  function Descriptor(mem: seq<bv8>, f: nat): FrameDescriptor
    requires 4 * f + 3 < |mem|
  {
    FrameDescriptor(mem[4 * f], mem[4 * f + 1], mem[4 * f + 2], mem[4 * f + 3])
  }

  function PutDescriptor(mem: seq<bv8>, f: nat, d: FrameDescriptor): (r: seq<bv8>)
    requires 4 * f + 3 < |mem|
    ensures |r| == |mem|
  {
    mem[4 * f := d.raw0][4 * f + 1 := d.raw1][4 * f + 2 := d.raw2][4 * f + 3 := d.raw3]
  }

  function FreeMap(m: Mach): bv16
    requires Shaped(m)
  {
    Read16(m.mem, FreeMapAt)
  }

  function Kbrk(m: Mach): bv16
    requires Shaped(m)
  {
    Read16(m.mem, KbrkAt)
  }

  /** `std::countr_zero` on 16 bits, counting from bit `k`: the index of the lowest set bit at or
      above `k`, or 16 when there is none. */
  function CountTrailingZerosFrom(x: bv16, k: nat): (r: nat)
    requires k <= 16
    ensures k <= r <= 16
    decreases 16 - k
  {
    if k == 16 then 16
    else if (x >> k) & 1 == 1 then k
    else CountTrailingZerosFrom(x, k + 1)
  }

  function CountTrailingZeros(x: bv16): nat
  {
    CountTrailingZerosFrom(x, 0)
  }

  /** The TLB's entries after `insert`: the new record first, the others shifted back by one and
      the last one dropped. */
  function Cached(tlb: seq<bv32>, va: VirtualAddress, pte: PageEntry): (r: seq<bv32>)
    requires |tlb| == 4
    ensures |r| == 4
  {
    [Tlb.Record(va, pte)] + tlb[..3]
  }

  // ------------------------------------------------------------------------------------------
  // Boot

  /** The free region of secondary memory as the constructor sets it: the four 16-bit words of
      its region pointer hold offset 1 (slot 0 is left alone), length 1023, and two zeros. */
  function BootSecondary(sec: seq<bv8>): (r: seq<bv8>)
    requires |sec| == SecondarySize
    ensures |r| == SecondarySize
  {
    Write16(Write16(Write16(Write16(sec, 0, 1), 2, 1023), 4, 0), 6, 0)
  }

  /** Where the constructor puts the kernel's first page directory: past the four-entry page
      map, rounded up to 16 bytes. */
  function KernelBreak(): (brk: nat)
    ensures brk == 80
  {
    var brk: nat := PageMapAt + 2 * 4;
    brk + (16 - brk % 16) % 16
  }

  /** The kernel's mappings as the constructor sets them up in `mem`: the break past the page
      map and one directory, that directory as the page map's fourth entry, and a present
      read-write entry for frame 0 in its slot 7, so that `0xf800` maps to frame 0. */
  function KernelMapping(mem: seq<bv8>): (r: seq<bv8>)
    requires |mem| == MainSize
    ensures |r| == MainSize
  {
    var brk: nat := KernelBreak();
    var mem := Write16(mem, KbrkAt, (brk + 16) as bv16);
    var mem := Write16(mem, PageMapAt + 2 * 3, brk as bv16);
    var pte := SetFrame(SetProtection(SetPresent(NoEntry, true), Read | Write), 0);
    Write16(mem, brk + 2 * 7, pte.raw)
  }

  /** The kernel's own frame as the constructor sets it up in `mem`: mapped as above, pinned
      with its page table entry as its back reference, and every other frame free. */
  function KernelFrame(mem: seq<bv8>): (r: seq<bv8>)
    requires |mem| == MainSize
    ensures |r| == MainSize
  {
    var brk: nat := KernelBreak();
    var mem := KernelMapping(mem);
    var mem := PutDescriptor(mem, 0, SetPinned(Descriptor(mem, 0), true));
    var mem := PutDescriptor(mem, 0, AddBackReference(Descriptor(mem, 0), brk as bv8));
    Write16(mem, FreeMapAt, 0xfffe)
  }

  /** The machine as the constructor leaves it, over the initial contents `sec0` of secondary
      memory: main memory zeroed; the free region `(1, 1023)`; the first frame pinned, holding
      the kernel tables, mapped read-write at `0xf800` through the directory `d0` at the kernel
      break 80, whose entry 7 (at 94) is that page's entry; the break moved 16 bytes past `d0`;
      every frame but the first free; an empty TLB. The back reference recorded for the first
      frame is the offset 80 of `d0` itself, as the source writes it. */
  function Boot(sec0: seq<bv8>): (m: Mach)
    requires |sec0| == SecondarySize
    ensures Shaped(m)
  {
    Mach(KernelFrame(seq(MainSize, _ => 0 as bv8)), BootSecondary(sec0), [0, 0, 0, 0])
  }

  // ------------------------------------------------------------------------------------------
  // Kernel heap

  /** `kalloc(n)`: the break rounded up past `n` more bytes (in `std::size_t` arithmetic); when
      that stays below `0x200` the break moves there and its old value is returned, otherwise
      `std::bad_alloc` and nothing changes. */
  function Kalloc(m: Mach, n: nat): (r: Run<bv16>)
    requires Shaped(m) && n < SizeModulus
    ensures Shaped(r.after)
    ensures r.result.Ok? && Kbrk(m) as nat + n + 16 <= SizeModulus ==> r.result.value as nat < 0x200
  {
    var c := BreakAfter(Kbrk(m), n);
    BreakAfterRounds(Kbrk(m), n);
    if c < 0x200 then Run(Ok(Kbrk(m)), m.(mem := Write16(m.mem, KbrkAt, c as bv16)))
    else Run(Fail(BadAlloc), m)
  }

  /** The break `kalloc(n)` computes from break `a`: `a + n` rounded up to a multiple of 16,
      in `std::size_t` arithmetic. */
  function BreakAfter(a: bv16, n: nat): nat
  {
    Rounded(a as nat + n)
  }

  /** `x` reduced to `std::size_t` and rounded up to a multiple of 16, again in `std::size_t`. */
  function Rounded(x: nat): nat
  {
    var b := x % SizeModulus;
    (b + (16 - b % 16) % 16) % SizeModulus
  }

  /** Without wrap-around, `BreakAfter` is the least multiple of 16 at or above `a + n`. */
  lemma BreakAfterRounds(a: bv16, n: nat)
    ensures a as nat + n + 16 <= SizeModulus ==>
      a as nat + n <= BreakAfter(a, n) < a as nat + n + 16 && BreakAfter(a, n) % 16 == 0
  {
    var x := a as nat + n;
    if x + 16 <= SizeModulus {
      RoundedBounds(x);
      assert BreakAfter(a, n) == Rounded(x);
    }
  }

  lemma RoundedBounds(x: nat)
    ensures x + 16 <= SizeModulus ==> x <= Rounded(x) < x + 16 && Rounded(x) % 16 == 0
  {
    if x + 16 <= SizeModulus {
      var b := x % SizeModulus;
      ModBelow(x, SizeModulus);
      var k := (16 - b % 16) % 16;
      RoundUp(b);
      ModBelow(b + k, SizeModulus);
      assert Rounded(x) == b + k;
    }
  }

  lemma ModBelow(x: nat, d: nat)
    requires x < d
    ensures x % d == x
  {
  }

  lemma RoundUp(x: nat)
    ensures x <= x + (16 - x % 16) % 16 < x + 16 && (x + (16 - x % 16) % 16) % 16 == 0
  {
  }

  // ------------------------------------------------------------------------------------------
  // Eviction

  /** A victim candidate as `find_victim` keeps it: none yet (`0xff`), an unreferenced frame
      `s`, or a referenced unpinned frame `s` tagged with bit 7. */
  predicate Candidate(victim: bv8)
  {
    victim == 0xff || victim < 16 || (0x80 <= victim < 0x90)
  }

  /** `find_victim` from frame `s` on, with `victim` the candidate so far. A frame ready for
      eviction with no back reference is taken at once; among the other ready frames the one
      with fewest back references wins, the first on ties; a frame that is not ready has its
      referenced flag cleared, and the first unpinned one becomes the candidate while there is
      none. With no candidate at the end, `std::bad_alloc`. */
  function FindFrom(m: Mach, s: nat, victim: bv8): (r: Run<bv8>)
    requires Shaped(m) && s <= 16 && Candidate(victim)
    requires victim < 0x80 ==> victim as nat < s
    ensures Shaped(r.after)
    ensures r.result.Ok? ==> r.result.value < 16
    decreases 16 - s
  {
    if s == 16 then
      if victim < 0x80 then Run(Ok(victim), m)
      else if victim != 0xff then Run(Ok(victim & 15), m)
      else Run(Fail(BadAlloc), m)
    else
      var d := Descriptor(m.mem, s);
      if IsReadyForEviction(d) then
        var n := BackReferenceCount(d);
        if n == 0 then Run(Ok(s as bv8), m)
        else if victim >= 0x80 || n < BackReferenceCount(Descriptor(m.mem, victim as nat)) then
          FindFrom(m, s + 1, s as bv8)
        else
          FindFrom(m, s + 1, victim)
      else
        var m' := m.(mem := PutDescriptor(m.mem, s, SetReferenced(d, false)));
        if victim == 0xff && !IsPinned(Descriptor(m'.mem, s)) then
          FindFrom(m', s + 1, 0x80 | s as bv8)
        else
          FindFrom(m', s + 1, victim)
  }

  function FindVictim(m: Mach): (r: Run<bv8>)
    requires Shaped(m)
    ensures Shaped(r.after)
    ensures r.result.Ok? ==> r.result.value < 16
  {
    FindFrom(m, 0, 0xff)
  }

  /** Main memory frame `v` and secondary slot `slot` exchanged, 256 bytes each. */
  function SwapFrames(m: Mach, v: nat, slot: nat): (r: Mach)
    requires Shaped(m) && v < 16 && slot * 256 + 256 <= SecondarySize
    ensures Shaped(r)
  {
    Mach(m.mem[..v * 256] + m.sec[slot * 256..slot * 256 + 256] + m.mem[v * 256 + 256..],
         m.sec[..slot * 256] + m.mem[v * 256..v * 256 + 256] + m.sec[slot * 256 + 256..],
         m.tlb)
  }

  /** The entry a back reference points to after its frame went to secondary slot `slot`: no
      longer present, and numbering the slot. */
  function SwappedOut(pte: PageEntry, slot: bv16): PageEntry
  {
    SetFrame(SetPresent(pte, false), slot)
  }

  /** `update_page_entries_after_swap` from back reference `i` of `n`: each referenced entry must
      be present; it is invalidated in the TLB and rewritten as swapped out to `slot`. At the
      end the frame's back references are cleared. */
  function UpdateFrom(m: Mach, victim: nat, slot: bv16, i: nat, n: nat): (r: Run<()>)
    requires Shaped(m) && victim < 16 && i <= n <= 2
    ensures Shaped(r.after)
    decreases n - i
  {
    if i == n then
      Run(Ok(()), m.(mem := PutDescriptor(m.mem, victim, ClearBackReferences(Descriptor(m.mem, victim)))))
    else
      var at := BackReference(Descriptor(m.mem, victim), i) as nat;
      var pte := PageEntry(Read16(m.mem, at));
      if !IsPresent(pte) then Run(Fail(Abort), m)
      else
        Tlb.InvalidateRemoves(m.tlb, pte);
        UpdateFrom(Mach(Write16(m.mem, at, SwappedOut(pte, slot).raw), m.sec, Tlb.Invalidated(m.tlb, pte)),
                   victim, slot, i + 1, n)
  }

  /** A count above 2 means the back references were not all recorded: `abort`. */
  function UpdateAfterSwap(m: Mach, victim: nat, slot: bv16): (r: Run<()>)
    requires Shaped(m) && victim < 16
    ensures Shaped(r.after)
  {
    var n := BackReferenceCount(Descriptor(m.mem, victim));
    if n > 2 then Run(Fail(Abort), m)
    else UpdateFrom(m, victim, slot, 0, n as nat)
  }

  /** `swap_victim(slot)`: only when no frame is free; picks a victim, exchanges its contents
      with the secondary slot, and rewrites the entries that referred to it. */
  function SwapVictim(m: Mach, slot: bv16): (r: Run<bv8>)
    requires Shaped(m)
    ensures Shaped(r.after)
    ensures r.result.Ok? ==> r.result.value < 16
  {
    if FreeMap(m) != 0 then Run(Fail(Abort), m)
    else
      var f := FindVictim(m);
      if f.result.Fail? then f
      else if slot as nat * 256 + 256 > SecondarySize then Run(Fail(Abort), f.after)
      else
        var v := f.result.value;
        var u := UpdateAfterSwap(SwapFrames(f.after, v as nat, slot as nat), v as nat, slot);
        if u.result.Fail? then Run(Fail(u.result.fault), u.after)
        else Run(Ok(v), u.after)
  }

  // ------------------------------------------------------------------------------------------
  // Allocation on segfault

  /** Main memory with frame `f` zeroed. */
  function ZeroFrame(mem: seq<bv8>, f: nat): (r: seq<bv8>)
    requires |mem| == MainSize && f < 16
    ensures |r| == MainSize
  {
    mem[..f * 256] + seq(256, _ => 0 as bv8) + mem[f * 256 + 256..]
  }

  /** The free region of secondary memory with its first slot taken: offset up by one, length
      down by one, in 16-bit arithmetic. */
  function ShrinkRegion(sec: seq<bv8>): (r: seq<bv8>)
    requires |sec| == SecondarySize
    ensures |r| == SecondarySize
  {
    var sec := Write16(sec, 0, Read16(sec, 0) + 1);
    Write16(sec, 2, Read16(sec, 2) - 1)
  }

  /** The region shrunk in two writes, the offset first and then the length read afterwards. */
  lemma ShrinkRegionSteps(s0: seq<bv8>, s1: seq<bv8>, s2: seq<bv8>)
    requires |s0| == SecondarySize
    requires s1 == Write16(s0, 0, Read16(s0, 0) + 1) && s2 == Write16(s1, 2, Read16(s1, 2) - 1)
    ensures s2 == ShrinkRegion(s0)
  {
  }

  /** When no frame is free: `std::bad_alloc` if the free secondary region is empty; otherwise
      the victim is swapped out to the region's first slot, zeroed, and the region shrunk. */
  function Evict(m: Mach): (r: Run<nat>)
    requires Shaped(m)
    ensures Shaped(r.after)
    ensures r.result.Ok? ==> r.result.value < 16
  {
    if Read16(m.sec, 2) == 0 then Run(Fail(BadAlloc), m)
    else
      var s := SwapVictim(m, Read16(m.sec, 0));
      if s.result.Fail? then Run(Fail(s.result.fault), s.after)
      else Run(Ok(s.result.value as nat),
               Mach(ZeroFrame(s.after.mem, s.result.value as nat), ShrinkRegion(s.after.sec), s.after.tlb))
  }

  /** The frame `allocate_on_segfault` takes: the lowest free one, or an evicted one when none
      is free. */
  function ClaimFrame(m: Mach): (r: Run<nat>)
    requires Shaped(m)
    ensures Shaped(r.after)
    ensures r.result.Ok? ==> r.result.value < 16
  {
    var free := CountTrailingZeros(FreeMap(m));
    if free < 16 then Run(Ok(free), m) else Evict(m)
  }

  /** The page entry `allocate_on_segfault` installs: present, with protection `ps`, on frame
      `slot`. */
  function FreshEntry(ps: bv8, slot: nat): PageEntry
    requires slot < 16
  {
    SetFrame(SetProtection(SetPresent(NoEntry, true), ps), slot as bv16)
  }

  /** Writes the fresh entry at `pteAt` and records it as a back reference of frame `slot`,
      through its offset truncated to 8 bits. */
  function PlaceEntry(m: Mach, pteAt: nat, ps: bv8, slot: nat): (r: Run<()>)
    requires Shaped(m) && pteAt + 1 < MainSize && slot < 16
    ensures Shaped(r.after)
  {
    var mem := Write16(m.mem, pteAt, FreshEntry(ps, slot).raw);
    var mem := PutDescriptor(mem, slot, AddBackReference(Descriptor(mem, slot), (pteAt % 256) as bv8));
    Run(Ok(()), m.(mem := mem))
  }

  /** The index bits of `va` for the directory at level `i + 1`. */
  function DirectoryIndex(va: VirtualAddress, shift: nat): nat
    requires shift < 16
  {
    ((va.raw >> shift) & 7) as nat
  }

  /** The bit of frame `slot` in the free map. */
  function FrameBit(slot: nat): bv16
    requires slot < 16
  {
    (1 as bv16) << slot as bv16
  }

  /** Frame `slot` marked in use: its descriptor reset and marked referenced, its bit cleared in
      the free map. */
  function MarkClaimed(mem: seq<bv8>, slot: nat): (r: seq<bv8>)
    requires |mem| == MainSize && slot < 16
    ensures |r| == MainSize
  {
    var mem := PutDescriptor(mem, slot, SetReferenced(Cleared, true));
    Write16(mem, FreeMapAt, Read16(mem, FreeMapAt) & !FrameBit(slot))
  }

  /** The directories `allocate_on_segfault` creates below the empty slot `pda` found at level
      `level` (0 or 1), returning where the page entry goes: a new L2 directory from
      `kalloc(16)`, linked in below `pda`. */
  function MakeDirectories(m: Mach, va: VirtualAddress, pda: nat, level: nat): (r: Run<nat>)
    requires Shaped(m) && pda + 1 < MainSize
    ensures Shaped(r.after)
    ensures r.result.Ok? ==> r.result.value + 1 < MainSize
  {
    var k := Kalloc(m, 16);
    if k.result.Fail? then Run(Fail(k.result.fault), k.after)
    else
      var l := LinkDirectory(k.after, va, pda, k.result.value, level);
      if l.result.Fail? then Run(Fail(l.result.fault), l.after)
      else Run(Ok(k.result.value as nat + 2 * DirectoryIndex(va, 8)), l.after)
  }

  /** Links the new L2 directory at `offset` below `pda`: at level 1 `pda` points to it; at
      level 0 a second `kalloc(16)` makes an L1 directory pointing to it, to which `pda`
      points. */
  function LinkDirectory(m: Mach, va: VirtualAddress, pda: nat, offset: bv16, level: nat): (r: Run<()>)
    requires Shaped(m) && pda + 1 < MainSize
    ensures Shaped(r.after)
  {
    if level == 0 then
      var k := Kalloc(m, 16);
      if k.result.Fail? then Run(Fail(k.result.fault), k.after)
      else
        var o := k.result.value;
        var mem := Write16(k.after.mem, o as nat + 2 * DirectoryIndex(va, 11), offset);
        Run(Ok(()), k.after.(mem := Write16(mem, pda, o)))
    else
      Run(Ok(()), m.(mem := Write16(m.mem, pda, offset)))
  }

  /** Installs the entry for `va` once frame `slot` is claimed: at level 2 into the empty slot
      `pda` itself, otherwise into the directories made for it. */
  function Install(m: Mach, va: VirtualAddress, ps: bv8, pda: nat, level: nat, slot: nat): (r: Run<()>)
    requires Shaped(m) && pda + 1 < MainSize && slot < 16
    ensures Shaped(r.after)
  {
    var m1 := m.(mem := MarkClaimed(m.mem, slot));
    if level == 2 then PlaceEntry(m1, pda, ps, slot)
    else
      var d := MakeDirectories(m1, va, pda, level);
      if d.result.Fail? then Run(Fail(d.result.fault), d.after)
      else PlaceEntry(d.after, d.result.value, ps, slot)
  }

  /** `allocate_on_segfault`: claims a frame, then installs the entry for `va` at level `level`
      of the walk, where the empty slot `pda` was found. */
  function AllocateOnSegfault(m: Mach, va: VirtualAddress, ps: bv8, pda: nat, level: nat): (r: Run<()>)
    requires Shaped(m) && pda + 1 < MainSize && Read16(m.mem, pda) == 0
    ensures Shaped(r.after)
  {
    var c := ClaimFrame(m);
    if c.result.Fail? then Run(Fail(c.result.fault), c.after)
    else Install(c.after, va, ps, pda, level, c.result.value)
  }

  /** The segfault handler. */
  function HandleFault(m: Mach, h: Handler, va: VirtualAddress, ps: bv8, pda: nat, level: nat): (r: Run<()>)
    requires Shaped(m) && pda + 1 < MainSize && Read16(m.mem, pda) == 0
    ensures Shaped(r.after)
  {
    match h
    case Rethrow => Run(Fail(SegmentationFault), m)
    case AllocateOnFault => AllocateOnSegfault(m, va, ps, pda, level)
  }

  // ------------------------------------------------------------------------------------------
  // Translation

  /** The physical address of `va` in frame `frame`. */
  function Physical(frame: bv16, va: VirtualAddress): bv16
  {
    (frame << 8) | (va.raw & 0xff)
  }

  /** Whether protection `p` grants every flag of `permissions`. */
  predicate Grants(p: bv8, permissions: bv8)
  {
    p & permissions == permissions
  }

  /** The end of a translation: the frame is marked referenced and the address in it returned. */
  function Touch(m: Mach, va: VirtualAddress, frame: bv16): (r: Run<bv16>)
    requires Shaped(m) && frame < 256
    ensures Shaped(r.after)
  {
    var f := frame as nat;
    Run(Ok(Physical(frame, va)), m.(mem := PutDescriptor(m.mem, f, SetReferenced(Descriptor(m.mem, f), true))))
  }

  /** `translate_with_entry` for the entry stored at `at` in main memory, as the page walk calls
      it: a permission fault when the protection does not grant `permissions`; a present entry
      is cached; an absent one is swapped in from the slot its frame number names, rewritten as
      present on the new frame, cached, and recorded as a back reference of that frame. */
  function TranslateWithEntry(m: Mach, va: VirtualAddress, permissions: bv8, at: nat): (r: Run<bv16>)
    requires Shaped(m) && at + 1 < MainSize
    ensures Shaped(r.after)
  {
    var pte := PageEntry(Read16(m.mem, at));
    if !Grants(Protection(pte), permissions) then Run(Fail(PermissionFault), m)
    else if IsPresent(pte) then
      Touch(m.(tlb := Cached(m.tlb, PageOf(va), pte)), va, Frame(pte))
    else
      SwapIn(m, va, at, Frame(pte))
  }

  /** The swap-in of `translate_with_entry` for the absent entry at `at`, whose frame number
      `slot` names where its page went in secondary memory. */
  function SwapIn(m: Mach, va: VirtualAddress, at: nat, slot: bv16): (r: Run<bv16>)
    requires Shaped(m) && at + 1 < MainSize
    ensures Shaped(r.after)
  {
    var s := SwapVictim(m, slot);
    if s.result.Fail? then Run(Fail(s.result.fault), s.after)
    else Reinstate(s.after, va, at, s.result.value as bv16)
  }

  /** The entry at `at` rewritten as present on frame `f`, where its page now is: cached,
      recorded as a back reference of `f` through its offset truncated to 8 bits, and the
      translation finished on `f`. */
  function Reinstate(m: Mach, va: VirtualAddress, at: nat, f: bv16): (r: Run<bv16>)
    requires Shaped(m) && at + 1 < MainSize && f < 16
    ensures Shaped(r.after)
  {
    var pte := SetPresent(SetFrame(PageEntry(Read16(m.mem, at)), f), true);
    var mem := Write16(m.mem, at, pte.raw);
    var mem := PutDescriptor(mem, f as nat, AddBackReference(Descriptor(mem, f as nat), (at % 256) as bv8));
    Touch(Mach(mem, m.sec, Cached(m.tlb, PageOf(va), pte)), va, f)
  }

  /** `translate_with_entry` for an entry found in the TLB, which must be present. */
  function TranslateCached(m: Mach, va: VirtualAddress, permissions: bv8, pte: PageEntry): (r: Run<bv16>)
    requires Shaped(m)
    ensures Shaped(r.after)
  {
    if !IsPresent(pte) then Run(Fail(Abort), m)
    else if !Grants(Protection(pte), permissions) then Run(Fail(PermissionFault), m)
    else Touch(m, va, Frame(pte))
  }

  /** The shifts and masks of levels 0 and 1. */
  function Shift(i: nat): (r: nat)
    ensures r < 16
  {
    if i == 0 then 11 else 8
  }

  function Mask(i: nat): bv16
  {
    if i == 0 then 0xc0ff else 0xf8ff
  }

  /** The slot `pda` met at level `i` of the walk, handed to the handler when it is empty. */
  function Filled(m: Mach, h: Handler, va: VirtualAddress, permissions: bv8, pda: nat, i: nat): (r: Run<()>)
    requires Shaped(m) && pda + 1 < MainSize
    ensures Shaped(r.after)
  {
    if Read16(m.mem, pda) == 0 then HandleFault(m, h, va, permissions, pda, i) else Run(Ok(()), m)
  }

  /** The page walk at level `i`, with `pda` the slot to read there. An empty slot goes to the
      handler first. */
  function Walk(m: Mach, va: VirtualAddress, permissions: bv8, h: Handler, pda: nat, i: nat): (r: Run<bv16>)
    requires Shaped(m) && pda + 1 < MainSize && i <= 2
    ensures Shaped(r.after)
    decreases 2 - i, 1
  {
    var f := Filled(m, h, va, permissions, pda, i);
    if f.result.Fail? then Run(Fail(f.result.fault), f.after)
    else Follow(f.after, va, permissions, h, pda, i)
  }

  /** The walk at slot `pda` of level `i` once the handler has run: the slot must now be
      filled. At levels 0 and 1 a slot with bit 0 set is a page entry, valid only when the
      directory bits below that level are zero; any other slot below 4096 is the offset of the
      next directory; anything else aborts. At level 2 the slot is the page entry. */
  function Follow(m: Mach, va: VirtualAddress, permissions: bv8, h: Handler, pda: nat, i: nat): (r: Run<bv16>)
    requires Shaped(m) && pda + 1 < MainSize && i <= 2
    ensures Shaped(r.after)
    decreases 2 - i, 0
  {
    var e := Read16(m.mem, pda);
    if e == 0 then Run(Fail(Abort), m)
    else if i == 2 then TranslateWithEntry(m, va, permissions, pda)
    else if e & 1 == 1 then Leaf(m, va, permissions, pda, i)
    else if e < 4096 then
      var next := e as nat + 2 * DirectoryIndex(va, Shift(i));
      if next + 1 >= MainSize then Run(Fail(Abort), m)
      else Walk(m, va, permissions, h, next, i + 1)
    else Run(Fail(Abort), m)
  }

  /** A page entry met at level `i` < 2 of the walk: valid only when the directory bits of `va`
      below that level are zero. */
  function Leaf(m: Mach, va: VirtualAddress, permissions: bv8, pda: nat, i: nat): (r: Run<bv16>)
    requires Shaped(m) && pda + 1 < MainSize
    ensures Shaped(r.after)
  {
    if va.raw & !Mask(i) != 0 then Run(Fail(SegmentationFault), m)
    else TranslateWithEntry(m, va, permissions, pda)
  }

  /** The root slot of the walk for `va`. */
  function RootSlot(va: VirtualAddress): nat
  {
    PageMapAt + 2 * (va.raw >> 14) as nat
  }

  /** `translate(va, permissions, handler)`: the null address faults at once. */
  function Translate(m: Mach, va: VirtualAddress, permissions: bv8, h: Handler): (r: Run<bv16>)
    requires Shaped(m)
    ensures Shaped(r.after)
  {
    if va.raw == 0 then Run(Fail(SegmentationFault), m) else Resolve(m, va, permissions, h)
  }

  /** The translation of a non-null `va`: the TLB is consulted (a hit is promoted), and on a
      miss the page table is walked. */
  function Resolve(m: Mach, va: VirtualAddress, permissions: bv8, h: Handler): (r: Run<bv16>)
    requires Shaped(m)
    ensures Shaped(r.after)
  {
    var l := Tlb.LookedUp(m.tlb, PageOf(va));
    if !IsNone(l.1) then TranslateCached(m.(tlb := l.0), va, permissions, l.1)
    else Walk(m.(tlb := l.0), va, permissions, h, RootSlot(va), 0)
  }

  /** `allocate_page`: translation that allocates a frame for an unmapped page. */
  function AllocatePage(m: Mach, va: VirtualAddress, ps: bv8): (r: Run<bv16>)
    requires Shaped(m)
    ensures Shaped(r.after)
  {
    Translate(m, va, ps, AllocateOnFault)
  }

  // ------------------------------------------------------------------------------------------
  // simple_mmap

  /** The number of pages `simple_mmap` maps for `length` bytes. */
  function PageCount(length: nat): nat
  {
    ((length + 256) % SizeModulus) / 256
  }

  /** The search of `simple_mmap` from page `va`, which began at `start`: below the kernel's
      `0xf800`, a page whose translation with no permission segfaults is taken; a page that
      translates is passed over, and coming back to `start` is `std::bad_alloc`; a permission
      fault would make the source retry the same page forever; other failures propagate. At or
      above `0xf800` the search stops where it is. */
  function Search(m: Mach, va: VirtualAddress, start: VirtualAddress): (r: Run<VirtualAddress>)
    requires Shaped(m)
    ensures Shaped(r.after)
    decreases 0xffff - va.raw
  {
    if va.raw >= 0xf800 then Run(Ok(va), m)
    else
      var t := Translate(m, va, 0, Rethrow);
      if t.result.Fail? then Run(Probed(t.result.fault, va), t.after)
      else
        NextPage(va);
        if Advanced(va, 256) == start then Run(Fail(BadAlloc), t.after)
        else Search(t.after, Advanced(va, 256), start)
  }

  /** The search's answer when probing `va` fails with `f`: a segfault means the page is free,
      a permission fault makes the source retry forever, and anything else propagates. */
  function Probed(f: Fault, va: VirtualAddress): Result<VirtualAddress>
  {
    if f == SegmentationFault then Ok(va)
    else if f == PermissionFault then Fail(Diverges)
    else Fail(f)
  }

  /** Below `0xf800`, advancing by a page does not wrap. */
  lemma NextPage(va: VirtualAddress)
    requires va.raw < 0xf800
    ensures Advanced(va, 256).raw > va.raw
    ensures 0xffff - Advanced(va, 256).raw < 0xffff - va.raw
  {
  }

  /** Allocates pages `i` to `count - 1` of the run starting at `va`. */
  function AllocatePages(m: Mach, va: VirtualAddress, ps: bv8, i: nat, count: nat): (r: Run<()>)
    requires Shaped(m) && i <= count
    ensures Shaped(r.after)
    decreases count - i
  {
    if i == count then Run(Ok(()), m)
    else
      var a := AllocatePage(m, Advanced(va, ((i * 256) % 0x1_0000) as bv16), ps);
      if a.result.Fail? then Run(Fail(a.result.fault), a.after)
      else AllocatePages(a.after, va, ps, i + 1, count)
  }

  /** `simple_mmap(hint, length, protection)`: searches from the page of `hint` (or of `0x1000`
      when the hint is null) and allocates `PageCount(length)` pages from where it stopped.
      When the page count wraps to 0 below `0xf800`, the search probes no page and never
      advances, so the source loops forever. */
  function SimpleMmap(m: Mach, hint: VirtualAddress, length: nat, protection: bv8): (r: Run<VirtualAddress>)
    requires Shaped(m) && length < SizeModulus
    ensures Shaped(r.after)
  {
    var start := PageOf(if hint.raw == 0 then VirtualAddress(0x1000) else hint);
    if PageCount(length) == 0 && start.raw < 0xf800 then Run(Fail(Diverges), m)
    else MapFrom(m, start, PageCount(length), protection)
  }

  /** The mapping of `count` pages with protection `ps` at the first free page found from
      `start`. */
  function MapFrom(m: Mach, start: VirtualAddress, count: nat, ps: bv8): (r: Run<VirtualAddress>)
    requires Shaped(m)
    ensures Shaped(r.after)
  {
    var s := Search(m, start, start);
    if s.result.Fail? then s
    else
      var a := AllocatePages(s.after, s.result.value, ps, 0, count);
      if a.result.Fail? then Run(Fail(a.result.fault), a.after)
      else Run(Ok(s.result.value), a.after)
  }

  // ------------------------------------------------------------------------------------------
  // Byte access

  /** `read_byte`: the byte at a physical address, which must lie in main memory. */
  function ReadByte(m: Mach, pa: bv16): (r: Result<bv8>)
    requires Shaped(m)
    ensures r.Ok? <==> pa as nat < MainSize
    ensures r.Ok? ==> r.value == m.mem[pa as nat]
  {
    if pa as nat < MainSize then Ok(m.mem[pa as nat]) else Fail(Abort)
  }

  /** `store_byte`: stores `b` at a physical address, which must lie in main memory. */
  function StoreByte(m: Mach, b: bv8, pa: bv16): (r: Run<()>)
    requires Shaped(m)
    ensures Shaped(r.after)
    ensures r.result.Ok? <==> pa as nat < MainSize
  {
    if pa as nat < MainSize then Run(Ok(()), m.(mem := m.mem[pa as nat := b])) else Run(Fail(Abort), m)
  }
}
