/** What the lab 3 machine promises, proved about its value-level model: the memory words, the
    kernel heap, the choice of a free frame and of a victim, and byte access. The exchange with
    secondary memory, translation and the boot scenarios have modules of their own. */
module MachineProps {
  import opened Codec
  import Tlb
  import opened MachineSpec

  // ------------------------------------------------------------------------------------------
  // Memory words

  /** A word reads back as written, and the words that do not overlap it are untouched. */
  lemma WordRoundTrip(mem: seq<bv8>, a: nat, v: bv16, b: nat)
    requires a + 1 < |mem| && b + 1 < |mem|
    ensures Read16(Write16(mem, a, v), a) == v
    ensures b + 1 < a || a + 1 < b ==> Read16(Write16(mem, a, v), b) == Read16(mem, b)
  {
  }

  // ------------------------------------------------------------------------------------------
  // Kernel heap

  /** The least multiple of 16 at or above `x`. */
  function NextMultiple16(x: nat): (r: nat)
    ensures r % 16 == 0 && x <= r < x + 16
  {
    (x + 15) / 16 * 16
  }

  /** Two multiples of 16 in the same window of 16 are equal. */
  lemma SameWindow(x: nat, p: nat, q: nat)
    requires p % 16 == 0 && q % 16 == 0 && x <= p < x + 16 && x <= q < x + 16
    ensures p == q
  {
    assert p == p / 16 * 16 && q == q / 16 * 16;
  }

  /** Without wrap-around, the rounding of `kalloc` is the least multiple of 16 at or above. */
  lemma {:induction false} RoundedIsNextMultiple(x: nat)
    requires x + 16 <= SizeModulus
    ensures Rounded(x) == NextMultiple16(x)
  {
    RoundedBounds(x);
    SameWindow(x, Rounded(x), NextMultiple16(x));
  }

  /** `kalloc(n)`: when the next multiple of 16 at or above the break plus `n` lies below `0x200`
      the old break is returned and the break moves there, and nothing else in the machine
      changes; otherwise `std::bad_alloc` and nothing changes at all. */
  lemma KallocBumps(m: Mach, n: nat)
    requires Shaped(m) && Kbrk(m) as nat + n + 16 <= SizeModulus
    ensures BreakAfter(Kbrk(m), n) == NextMultiple16(Kbrk(m) as nat + n)
    ensures Kalloc(m, n).result.Ok? <==> NextMultiple16(Kbrk(m) as nat + n) < 0x200
    ensures Kalloc(m, n).result.Ok? ==>
      Kalloc(m, n).result.value == Kbrk(m) && Kbrk(Kalloc(m, n).after) == BreakAfter(Kbrk(m), n) as bv16
    ensures Kalloc(m, n).result.Ok? ==> Kalloc(m, n).after.sec == m.sec && Kalloc(m, n).after.tlb == m.tlb
    ensures Kalloc(m, n).result.Ok? ==> forall i :: 0 <= i < MainSize && i != KbrkAt && i != KbrkAt + 1 ==>
      Kalloc(m, n).after.mem[i] == m.mem[i]
    ensures Kalloc(m, n).result.Fail? ==> Kalloc(m, n) == Run(Fail(BadAlloc), m)
  {
    RoundedIsNextMultiple(Kbrk(m) as nat + n);
    KallocMoves(m, n);
    KallocKeeps(m, n);
  }

  lemma KallocMoves(m: Mach, n: nat)
    requires Shaped(m) && n < SizeModulus
    ensures Kalloc(m, n).result.Ok? <==> BreakAfter(Kbrk(m), n) < 0x200
    ensures Kalloc(m, n).result.Ok? ==>
      Kalloc(m, n).result.value == Kbrk(m) && Kbrk(Kalloc(m, n).after) == BreakAfter(Kbrk(m), n) as bv16
    ensures Kalloc(m, n).result.Fail? ==> Kalloc(m, n) == Run(Fail(BadAlloc), m)
  {
    var c := BreakAfter(Kbrk(m), n);
    if c < 0x200 {
      BreakRoundTrip(m.mem, c as bv16);
    }
  }

  lemma KallocKeeps(m: Mach, n: nat)
    requires Shaped(m) && n < SizeModulus
    ensures Kalloc(m, n).after.sec == m.sec && Kalloc(m, n).after.tlb == m.tlb
    ensures forall i :: 0 <= i < MainSize && i != KbrkAt && i != KbrkAt + 1 ==> Kalloc(m, n).after.mem[i] == m.mem[i]
  {
    var c := BreakAfter(Kbrk(m), n);
    if c < 0x200 {
      BreakKeeps(m.mem, c as bv16);
    }
  }

  lemma BreakRoundTrip(mem: seq<bv8>, v: bv16)
    requires |mem| == MainSize
    ensures Read16(Write16(mem, KbrkAt, v), KbrkAt) == v
  {
  }

  lemma BreakKeeps(mem: seq<bv8>, v: bv16)
    requires |mem| == MainSize
    ensures forall i :: 0 <= i < MainSize && i != KbrkAt && i != KbrkAt + 1 ==> Write16(mem, KbrkAt, v)[i] == mem[i]
  {
  }

  // ------------------------------------------------------------------------------------------
  // Free frames

  /** Bit `k` of `x`. */
  predicate BitSet(x: bv16, k: nat)
    requires k < 16
  {
    (x >> k) & 1 == 1
  }

  lemma {:induction false} CountTrailingZerosFromLowest(x: bv16, k: nat)
    requires k <= 16
    ensures CountTrailingZerosFrom(x, k) < 16 ==> BitSet(x, CountTrailingZerosFrom(x, k))
    ensures forall j :: k <= j < CountTrailingZerosFrom(x, k) ==> !BitSet(x, j)
    decreases 16 - k
  {
    if k < 16 && !BitSet(x, k) {
      CountTrailingZerosFromLowest(x, k + 1);
    }
  }

  /** `std::countr_zero` is the index of the lowest set bit, and 16 exactly for zero. */
  lemma CountTrailingZerosLowest(x: bv16)
    ensures CountTrailingZeros(x) < 16 ==> BitSet(x, CountTrailingZeros(x))
    ensures forall j :: 0 <= j < CountTrailingZeros(x) ==> !BitSet(x, j)
    ensures CountTrailingZeros(x) == 16 <==> x == 0
  {
    CountTrailingZerosFromLowest(x, 0);
    if CountTrailingZeros(x) == 16 {
      NoBitsZero(x);
    }
  }

  lemma NoBitsZero(x: bv16)
    requires forall j :: 0 <= j < 16 ==> !BitSet(x, j)
    ensures x == 0
  {
    assert !BitSet(x, 0) && !BitSet(x, 1) && !BitSet(x, 2) && !BitSet(x, 3);
    assert !BitSet(x, 4) && !BitSet(x, 5) && !BitSet(x, 6) && !BitSet(x, 7);
    assert !BitSet(x, 8) && !BitSet(x, 9) && !BitSet(x, 10) && !BitSet(x, 11);
    assert !BitSet(x, 12) && !BitSet(x, 13) && !BitSet(x, 14) && !BitSet(x, 15);
  }

  /** While some frame is free, `allocate_on_segfault` takes the lowest-numbered free frame and
      changes nothing in doing so. */
  lemma ClaimsLowestFree(m: Mach)
    requires Shaped(m) && FreeMap(m) != 0
    ensures ClaimFrame(m).result.Ok? && ClaimFrame(m).after == m
    ensures BitSet(FreeMap(m), ClaimFrame(m).result.value)
    ensures forall j :: 0 <= j < ClaimFrame(m).result.value ==> !BitSet(FreeMap(m), j)
  {
    CountTrailingZerosLowest(FreeMap(m));
  }

  /** Claiming frame `slot` clears its bit, and only its bit, in the free map. */
  lemma MarkClaimedClearsBit(mem: seq<bv8>, slot: nat)
    requires |mem| == MainSize && slot < 16
    ensures Read16(MarkClaimed(mem, slot), FreeMapAt) == Read16(mem, FreeMapAt) & !FrameBit(slot)
  {
    DescriptorKeepsFreeMap(mem, slot, SetReferenced(Cleared, true));
    FreeMapRoundTrip(PutDescriptor(mem, slot, SetReferenced(Cleared, true)), Read16(mem, FreeMapAt) & !FrameBit(slot));
  }

  lemma DescriptorKeepsFreeMap(mem: seq<bv8>, f: nat, d: FrameDescriptor)
    requires |mem| == MainSize && f < 16
    ensures Read16(PutDescriptor(mem, f, d), FreeMapAt) == Read16(mem, FreeMapAt)
  {
  }

  lemma FreeMapRoundTrip(mem: seq<bv8>, v: bv16)
    requires |mem| == MainSize
    ensures Read16(Write16(mem, FreeMapAt, v), FreeMapAt) == v
  {
  }

  /** Claiming frame `slot` resets its descriptor to referenced and nothing else. */
  lemma MarkClaimedResets(mem: seq<bv8>, slot: nat)
    requires |mem| == MainSize && slot < 16
    ensures Descriptor(MarkClaimed(mem, slot), slot) == SetReferenced(Cleared, true)
  {
  }

  /** With no frame free and an empty free region of secondary memory, claiming a frame is
      `std::bad_alloc`, before anything changes. */
  lemma ClaimWithoutRoom(m: Mach)
    requires Shaped(m) && FreeMap(m) == 0 && Read16(m.sec, 2) == 0
    ensures ClaimFrame(m) == Run(Fail(BadAlloc), m)
  {
    CountTrailingZerosLowest(FreeMap(m));
  }
  // ------------------------------------------------------------------------------------------
  // Victim selection

  predicate Ready(m: Mach, f: nat)
    requires Shaped(m) && f < 16
  {
    IsReadyForEviction(Descriptor(m.mem, f))
  }

  predicate Pinned(m: Mach, f: nat)
    requires Shaped(m) && f < 16
  {
    IsPinned(Descriptor(m.mem, f))
  }

  function Refs(m: Mach, f: nat): bv8
    requires Shaped(m) && f < 16
  {
    BackReferenceCount(Descriptor(m.mem, f))
  }

  /** Some frame among `0..s-1` is ready for eviction. */
  predicate SomeReady(m: Mach, s: nat)
    requires Shaped(m) && s <= 16
  {
    exists f :: 0 <= f < s && Ready(m, f)
  }

  /** Every frame among `0..s-1` is pinned. */
  predicate AllPinned(m: Mach, s: nat)
    requires Shaped(m) && s <= 16
  {
    forall f :: 0 <= f < s ==> Pinned(m, f)
  }

  /** Among frames `0..s-1`, `v` is ready, no ready frame has fewer back references, and no
      earlier ready frame has as few. */
  predicate Preferred(m: Mach, v: nat, s: nat)
    requires Shaped(m) && s <= 16
  {
    && v < s && Ready(m, v)
    && forall f :: 0 <= f < s && Ready(m, f) ==> Refs(m, v) < Refs(m, f) || (Refs(m, v) == Refs(m, f) && v <= f)
  }

  /** `v` is the first frame that is not pinned, among frames `0..s-1`. */
  predicate FirstUnpinned(m: Mach, v: nat, s: nat)
    requires Shaped(m) && s <= 16
  {
    v < s && !Pinned(m, v) && AllPinned(m, v)
  }

  /** The candidate `find_victim` holds after examining frames `0..s-1` of the machine as it
      was when the pass began: the preferred ready frame while there is one (none of them with
      zero back references, or the pass would have stopped), otherwise the first unpinned frame
      tagged with bit 7, otherwise none. */
  predicate ChosenSoFar(m: Mach, s: nat, victim: bv8)
    requires Shaped(m) && s <= 16
  {
    if SomeReady(m, s) then victim < 0x80 && Preferred(m, victim as nat, s) && NoneIdle(m, s)
    else if AllPinned(m, s) then victim == 0xff
    else 0x80 <= victim < 0x90 && FirstUnpinned(m, (victim & 15) as nat, s)
  }

  /** No ready frame among `0..s-1` is free of back references. */
  predicate NoneIdle(m: Mach, s: nat)
    requires Shaped(m) && s <= 16
  {
    forall f :: 0 <= f < s && Ready(m, f) ==> Refs(m, f) != 0
  }

  /** `m` is `m0` once the pass has examined frames `0..s-1`: their referenced flags cleared,
      nothing else changed. */
  predicate Swept(m0: Mach, m: Mach, s: nat)
  {
    && Shaped(m0) && Shaped(m) && m.sec == m0.sec && m.tlb == m0.tlb
    && (forall i :: FreeMapAt <= i < MainSize ==> m.mem[i] == m0.mem[i])
    && forall f :: 0 <= f < 16 ==>
         Descriptor(m.mem, f) == if f < s then SetReferenced(Descriptor(m0.mem, f), false) else Descriptor(m0.mem, f)
  }

  /** `m` is `m0` with the referenced flags of some frames cleared, and nothing else changed. */
  predicate OnlyUnreferenced(m0: Mach, m: Mach)
  {
    && Shaped(m0) && Shaped(m) && m.sec == m0.sec && m.tlb == m0.tlb
    && (forall i :: FreeMapAt <= i < MainSize ==> m.mem[i] == m0.mem[i])
    && forall f :: 0 <= f < 16 ==>
         Descriptor(m.mem, f) == Descriptor(m0.mem, f) || Descriptor(m.mem, f) == SetReferenced(Descriptor(m0.mem, f), false)
  }

  lemma SweptOnlyUnreferenced(m0: Mach, m: Mach, s: nat)
    requires Swept(m0, m, s)
    ensures OnlyUnreferenced(m0, m)
  {
  }

  /** Writing the descriptor of frame `s` leaves the other descriptors and the kernel's words. */
  lemma DescriptorFrame(mem: seq<bv8>, s: nat, d: FrameDescriptor)
    requires |mem| == MainSize && s < 16
    ensures forall f :: 0 <= f < 16 ==> Descriptor(PutDescriptor(mem, s, d), f) == if f == s then d else Descriptor(mem, f)
    ensures forall i :: FreeMapAt <= i < MainSize ==> PutDescriptor(mem, s, d)[i] == mem[i]
  {
  }

  /** Clearing the referenced flag leaves a ready frame as it is and never changes the pinned
      flag. */
  lemma UnreferenceKeeps(d: FrameDescriptor)
    ensures IsReadyForEviction(d) ==> SetReferenced(d, false) == d
    ensures IsPinned(SetReferenced(d, false)) == IsPinned(d)
    ensures IsPinned(d) ==> !IsReadyForEviction(d)
  {
  }

  lemma SomeReadyStep(m: Mach, s: nat)
    requires Shaped(m) && s < 16
    ensures SomeReady(m, s + 1) <==> SomeReady(m, s) || Ready(m, s)
  {
    if Ready(m, s) {
      assert Ready(m, s) && 0 <= s < s + 1;
    }
    if SomeReady(m, s + 1) && !Ready(m, s) {
      var f :| 0 <= f < s + 1 && Ready(m, f);
      assert f < s;
    }
  }

  lemma AllPinnedStep(m: Mach, s: nat)
    requires Shaped(m) && s < 16
    ensures AllPinned(m, s + 1) <==> AllPinned(m, s) && Pinned(m, s)
  {
  }

  /** The first ready frame met, with a nonzero count, becomes the candidate. */
  lemma ChosenFirstReady(m: Mach, s: nat, f: bv8, victim: bv8)
    requires Shaped(m) && s < 16 && f < 16 && f as nat == s
    requires ChosenSoFar(m, s, victim) && !SomeReady(m, s)
    requires Ready(m, s) && Refs(m, s) != 0
    ensures victim >= 0x80
    ensures ChosenSoFar(m, s + 1, f)
  {
    SomeReadyStep(m, s);
  }

  /** A further ready frame, with a nonzero count, replaces the candidate when it has fewer back
      references. */
  lemma ChosenNewReady(m: Mach, s: nat, f: bv8, v: nat)
    requires Shaped(m) && s < 16 && f < 16 && f as nat == s
    requires Preferred(m, v, s) && NoneIdle(m, s)
    requires Ready(m, s) && Refs(m, s) != 0 && Refs(m, s) < Refs(m, v)
    ensures ChosenSoFar(m, s + 1, f)
  {
    SomeReadyStep(m, s);
    NonzeroExtends(m, s);
    PreferNew(m, v, s);
    ChosenReady(m, s + 1, f);
  }

  lemma ChosenOldReady(m: Mach, s: nat, victim: bv8, v: nat)
    requires Shaped(m) && s < 16 && victim < 0x80 && v == victim as nat
    requires Preferred(m, v, s) && NoneIdle(m, s)
    requires Ready(m, s) && Refs(m, s) != 0 && !(Refs(m, s) < Refs(m, v))
    ensures ChosenSoFar(m, s + 1, victim)
  {
    SomeReadyStep(m, s);
    NonzeroExtends(m, s);
    PreferOld(m, v, s);
    ChosenReady(m, s + 1, victim);
  }

  lemma ChosenReady(m: Mach, s: nat, victim: bv8)
    requires Shaped(m) && s <= 16 && SomeReady(m, s)
    requires victim < 0x80 && Preferred(m, victim as nat, s) && NoneIdle(m, s)
    ensures ChosenSoFar(m, s, victim)
  {
  }

  lemma NonzeroExtends(m: Mach, s: nat)
    requires Shaped(m) && s < 16 && Refs(m, s) != 0 && NoneIdle(m, s)
    ensures NoneIdle(m, s + 1)
  {
  }

  lemma PreferNew(m: Mach, v: nat, s: nat)
    requires Shaped(m) && s < 16 && Preferred(m, v, s) && Ready(m, s) && Refs(m, s) < Refs(m, v)
    ensures Preferred(m, s, s + 1)
  {
  }

  lemma PreferOld(m: Mach, v: nat, s: nat)
    requires Shaped(m) && s < 16 && Preferred(m, v, s) && Ready(m, s) && !(Refs(m, s) < Refs(m, v))
    ensures Preferred(m, v, s + 1)
  {
  }

  /** A frame that is not ready leaves the candidate, unless there is none yet and the frame is
      not pinned: then it becomes the tagged candidate. */
  lemma ChosenUnready(m: Mach, s: nat, victim: bv8)
    requires Shaped(m) && s < 16 && ChosenSoFar(m, s, victim) && !Ready(m, s)
    ensures ChosenSoFar(m, s + 1, if victim == 0xff && !Pinned(m, s) then 0x80 | s as bv8 else victim)
  {
    SomeReadyStep(m, s);
    AllPinnedStep(m, s);
    TaggedFrame(s);
  }

  /** Passing a ready frame changes nothing. */
  lemma SweptReady(m0: Mach, m: Mach, s: nat)
    requires Swept(m0, m, s) && s < 16 && Ready(m0, s)
    ensures Swept(m0, m, s + 1)
  {
    UnreferenceKeeps(Descriptor(m0.mem, s));
  }

  /** Passing a frame that is not ready clears its referenced flag. */
  lemma SweptUnready(m0: Mach, m: Mach, s: nat)
    requires Swept(m0, m, s) && s < 16
    ensures Swept(m0, m.(mem := PutDescriptor(m.mem, s, SetReferenced(Descriptor(m.mem, s), false))), s + 1)
  {
    DescriptorFrame(m.mem, s, SetReferenced(Descriptor(m.mem, s), false));
  }

  lemma FrameCandidate(s: nat)
    requires s < 16
    ensures Candidate(s as bv8) && s as bv8 < 16 && (s as bv8) as nat == s
  {
  }

  lemma TaggedFrame(s: nat)
    requires s < 16
    ensures 0x80 <= 0x80 | s as bv8 < 0x90 && ((0x80 | s as bv8) & 15) as nat == s
  {
  }

  /** Where a pass over frames `s..15` of `m` stops: just past the first ready frame with no
      back reference, or at 16 when there is none. */
  function PassEnd(m: Mach, s: nat): (n: nat)
    requires Shaped(m) && s <= 16
    ensures s <= n <= 16
    ensures n == 16 || (s < n && Ready(m, n - 1) && Refs(m, n - 1) == 0)
    ensures forall f :: s <= f < n - 1 ==> !(Ready(m, f) && Refs(m, f) == 0)
    decreases 16 - s
  {
    if s == 16 then 16
    else if Ready(m, s) && Refs(m, s) == 0 then s + 1
    else PassEnd(m, s + 1)
  }

  /** A frame that is not both ready and free of back references does not end the pass. */
  lemma PassEndSkips(m: Mach, s: nat)
    requires Shaped(m) && s < 16 && !(Ready(m, s) && Refs(m, s) == 0)
    ensures PassEnd(m, s) == PassEnd(m, s + 1)
  {
  }

  /** What `find_victim` promises about its outcome `r` on the machine `m0` it started from. */
  predicate Chooses(m0: Mach, r: Run<bv8>)
    requires Shaped(m0)
  {
    && (SomeReady(m0, 16) ==> r.result.Ok? && Preferred(m0, r.result.value as nat, 16))
    && (!SomeReady(m0, 16) && !AllPinned(m0, 16) ==> r.result.Ok? && FirstUnpinned(m0, r.result.value as nat, 16))
    && (AllPinned(m0, 16) ==> r.result == Fail(BadAlloc))
    && OnlyUnreferenced(m0, r.after)
  }

  /** The pass from frame `s` on clears the referenced flag of every frame it passes, up to where
      `PassEnd` says it stops, and changes nothing else. */
  lemma {:induction false} FindFromSweeps(m0: Mach, m: Mach, s: nat, victim: bv8)
    requires Shaped(m0) && s <= 16 && Candidate(victim) && (victim < 0x80 ==> victim as nat < s)
    requires Swept(m0, m, s)
    ensures Swept(m0, FindFrom(m, s, victim).after, PassEnd(m0, s))
    decreases 16 - s, 2
  {
    if s < 16 {
      assert Descriptor(m.mem, s) == Descriptor(m0.mem, s);
      if Ready(m0, s) {
        SweepsPastReady(m0, m, s, victim);
      } else {
        SweepsPastUnready(m0, m, s, victim);
      }
    }
  }

  /** The sweep past ready frame `s`: it ends there when the frame has no back reference. */
  lemma {:induction false} SweepsPastReady(m0: Mach, m: Mach, s: nat, victim: bv8)
    requires Shaped(m0) && s < 16 && Candidate(victim) && (victim < 0x80 ==> victim as nat < s)
    requires Swept(m0, m, s) && Ready(m0, s)
    ensures Swept(m0, FindFrom(m, s, victim).after, PassEnd(m0, s))
    decreases 16 - s, 1
  {
    NextAfterReady(m0, m, s);
    if Refs(m0, s) != 0 {
      PassEndSkips(m0, s);
      var f := s as bv8;
      FrameCandidate(s);
      if victim >= 0x80 {
        FindFromFirstReady(m, s, f, victim);
        SweepsOn(m0, m, m, s, victim, f);
      } else if Refs(m, s) < Refs(m, victim as nat) {
        FindFromNewReady(m, s, f, victim, victim as nat);
        SweepsOn(m0, m, m, s, victim, f);
      } else {
        FindFromOldReady(m, s, victim, victim as nat);
        SweepsOn(m0, m, m, s, victim, victim);
      }
    }
  }

  /** The sweep goes on past frame `s` with candidate `next` on machine `m1`. */
  lemma {:induction false} SweepsOn(m0: Mach, m: Mach, m1: Mach, s: nat, victim: bv8, next: bv8)
    requires Shaped(m0) && Shaped(m) && s < 16 && Candidate(victim) && (victim < 0x80 ==> victim as nat < s)
    requires Candidate(next) && (next < 0x80 ==> next as nat < s + 1)
    requires Swept(m0, m1, s + 1) && PassEnd(m0, s) == PassEnd(m0, s + 1)
    requires FindFrom(m, s, victim) == FindFrom(m1, s + 1, next)
    ensures Swept(m0, FindFrom(m, s, victim).after, PassEnd(m0, s))
    decreases 16 - s, 0
  {
    FindFromSweeps(m0, m1, s + 1, next);
  }

  /** The sweep past frame `s`, which is not ready: its referenced flag is cleared. */
  lemma {:induction false} SweepsPastUnready(m0: Mach, m: Mach, s: nat, victim: bv8)
    requires Shaped(m0) && s < 16 && Candidate(victim) && (victim < 0x80 ==> victim as nat < s)
    requires Swept(m0, m, s) && !Ready(m0, s) && Descriptor(m.mem, s) == Descriptor(m0.mem, s)
    ensures Swept(m0, FindFrom(m, s, victim).after, PassEnd(m0, s))
    decreases 16 - s, 1
  {
    SweptUnready(m0, m, s);
    PassEndSkips(m0, s);
    FindFromUnreadyUnfolds(m, s, victim);
    SweepsOn(m0, m, Unreferenced(m, s), s, victim, UnreadyNext(Unreferenced(m, s), s, victim));
  }

  /** `find_victim` from frame `s` on, given what it has chosen and swept so far. */
  lemma {:induction false} FindFromChooses(m0: Mach, m: Mach, s: nat, victim: bv8)
    requires Shaped(m0) && s <= 16 && Candidate(victim) && (victim < 0x80 ==> victim as nat < s)
    requires Swept(m0, m, s) && ChosenSoFar(m0, s, victim)
    ensures Chooses(m0, FindFrom(m, s, victim))
    decreases 16 - s, 2
  {
    if AllPinned(m0, 16) {
      PinnedNoneReady(m0, 16);
    }
    if s == 16 {
      SweptOnlyUnreferenced(m0, m, s);
    } else if IsReadyForEviction(Descriptor(m.mem, s)) {
      if BackReferenceCount(Descriptor(m.mem, s)) == 0 {
        ZeroRefsPreferred(m0, m, s, victim);
      } else {
        PassReady(m0, m, s, victim);
      }
    } else {
      PassUnready(m0, m, s, victim);
    }
  }

  /** The pass goes on past ready frame `s`, which has back references. */
  lemma {:induction false} PassReady(m0: Mach, m: Mach, s: nat, victim: bv8)
    requires Shaped(m0) && s < 16 && Candidate(victim) && (victim < 0x80 ==> victim as nat < s)
    requires Swept(m0, m, s) && ChosenSoFar(m0, s, victim)
    requires Ready(m0, s) && Refs(m0, s) != 0
    ensures Chooses(m0, FindFrom(m, s, victim))
    decreases 16 - s, 1
  {
    if !SomeReady(m0, s) {
      PassFirstReady(m0, m, s, victim);
    } else {
      var v := victim as nat;
      assert victim < 0x80 && v < s;
      if Refs(m0, s) < Refs(m0, v) {
        PassNewReady(m0, m, s, victim, v);
      } else {
        PassOldReady(m0, m, s, victim, v);
      }
    }
  }

  /** The first ready frame met becomes the candidate. */
  lemma {:induction false} PassFirstReady(m0: Mach, m: Mach, s: nat, victim: bv8)
    requires Shaped(m0) && s < 16 && Candidate(victim) && (victim < 0x80 ==> victim as nat < s)
    requires Swept(m0, m, s) && ChosenSoFar(m0, s, victim) && !SomeReady(m0, s)
    requires Ready(m0, s) && Refs(m0, s) != 0
    ensures Chooses(m0, FindFrom(m, s, victim))
    decreases 16 - s, 0
  {
    NextAfterReady(m0, m, s);
    var f := s as bv8;
    FrameCandidate(s);
    ChosenFirstReady(m0, s, f, victim);
    FindFromFirstReady(m, s, f, victim);
    FindFromChooses(m0, m, s + 1, f);
  }

  /** A ready frame with fewer back references than the candidate replaces it. */
  lemma {:induction false} PassNewReady(m0: Mach, m: Mach, s: nat, victim: bv8, v: nat)
    requires Shaped(m0) && s < 16 && victim < 0x80 && v == victim as nat && v < s
    requires Swept(m0, m, s) && Preferred(m0, v, s) && NoneIdle(m0, s)
    requires Ready(m0, s) && Refs(m0, s) != 0 && Refs(m0, s) < Refs(m0, v)
    ensures Chooses(m0, FindFrom(m, s, victim))
    decreases 16 - s, 0
  {
    NextAfterReady(m0, m, s);
    SweptKeepsReady(m0, m, s, v);
    var f := s as bv8;
    FrameCandidate(s);
    ChosenNewReady(m0, s, f, v);
    FindFromNewReady(m, s, f, victim, v);
    FindFromChooses(m0, m, s + 1, f);
  }

  /** A ready frame with at least as many back references as the candidate leaves it. */
  lemma {:induction false} PassOldReady(m0: Mach, m: Mach, s: nat, victim: bv8, v: nat)
    requires Shaped(m0) && s < 16 && victim < 0x80 && v == victim as nat && v < s
    requires Swept(m0, m, s) && Preferred(m0, v, s) && NoneIdle(m0, s)
    requires Ready(m0, s) && Refs(m0, s) != 0 && !(Refs(m0, s) < Refs(m0, v))
    ensures Chooses(m0, FindFrom(m, s, victim))
    decreases 16 - s, 0
  {
    NextAfterReady(m0, m, s);
    SweptKeepsReady(m0, m, s, v);
    ChosenOldReady(m0, s, victim, v);
    FindFromOldReady(m, s, victim, v);
    FindFromChooses(m0, m, s + 1, victim);
  }

  /** Passing a ready frame leaves the machine as the pass found it, and its count. */
  lemma NextAfterReady(m0: Mach, m: Mach, s: nat)
    requires Swept(m0, m, s) && s < 16 && Ready(m0, s)
    ensures Swept(m0, m, s + 1) && Ready(m, s) && Refs(m, s) == Refs(m0, s)
  {
    SweptReady(m0, m, s);
    SweptKeepsReady(m0, m, s, s);
  }

  /** The pass leaves the descriptor of a ready frame as it found it. */
  lemma SweptKeepsReady(m0: Mach, m: Mach, s: nat, v: nat)
    requires Swept(m0, m, s) && v < 16 && Ready(m0, v)
    ensures Descriptor(m.mem, v) == Descriptor(m0.mem, v) && Refs(m, v) == Refs(m0, v)
  {
    UnreferenceKeeps(Descriptor(m0.mem, v));
  }

  lemma FindFromFirstReady(m: Mach, s: nat, f: bv8, victim: bv8)
    requires Shaped(m) && s < 16 && f == s as bv8 && f < 16 && f as nat == s
    requires Candidate(victim) && victim >= 0x80
    requires Ready(m, s) && Refs(m, s) != 0
    ensures FindFrom(m, s, victim) == FindFrom(m, s + 1, f)
  {
  }

  lemma FindFromNewReady(m: Mach, s: nat, f: bv8, victim: bv8, v: nat)
    requires Shaped(m) && s < 16 && f == s as bv8 && f < 16 && f as nat == s
    requires victim < 0x80 && v == victim as nat && v < s
    requires Ready(m, s) && Refs(m, s) != 0 && Refs(m, s) < Refs(m, v)
    ensures FindFrom(m, s, victim) == FindFrom(m, s + 1, f)
  {
  }

  lemma FindFromOldReady(m: Mach, s: nat, victim: bv8, v: nat)
    requires Shaped(m) && s < 16 && victim < 0x80 && v == victim as nat && v < s
    requires Ready(m, s) && Refs(m, s) != 0 && !(Refs(m, s) < Refs(m, v))
    ensures FindFrom(m, s, victim) == FindFrom(m, s + 1, victim)
  {
  }

  /** The pass goes on past frame `s`, which is not ready, clearing its referenced flag. */
  lemma {:induction false} PassUnready(m0: Mach, m: Mach, s: nat, victim: bv8)
    requires Shaped(m0) && s < 16 && Candidate(victim) && (victim < 0x80 ==> victim as nat < s)
    requires Swept(m0, m, s) && ChosenSoFar(m0, s, victim)
    requires !Ready(m0, s)
    ensures Chooses(m0, FindFrom(m, s, victim))
    decreases 16 - s, 0
  {
    NextAfterUnready(m0, m, s, victim);
    FindFromUnreadyUnfolds(m, s, victim);
    FindFromChooses(m0, Unreferenced(m, s), s + 1, UnreadyNext(m0, s, victim));
  }

  /** The machine with the referenced flag of frame `s` cleared. */
  function Unreferenced(m: Mach, s: nat): (r: Mach)
    requires Shaped(m) && s < 16
    ensures Shaped(r)
  {
    m.(mem := PutDescriptor(m.mem, s, SetReferenced(Descriptor(m.mem, s), false)))
  }

  /** The candidate after frame `s`, which is not ready. */
  function UnreadyNext(m: Mach, s: nat, victim: bv8): bv8
    requires Shaped(m) && s < 16
  {
    if victim == 0xff && !Pinned(m, s) then 0x80 | s as bv8 else victim
  }

  lemma NextAfterUnready(m0: Mach, m: Mach, s: nat, victim: bv8)
    requires Shaped(m0) && s < 16 && Candidate(victim) && (victim < 0x80 ==> victim as nat < s)
    requires Swept(m0, m, s) && ChosenSoFar(m0, s, victim)
    requires !Ready(m0, s)
    ensures UnreadyNext(Unreferenced(m, s), s, victim) == UnreadyNext(m0, s, victim)
    ensures Swept(m0, Unreferenced(m, s), s + 1)
    ensures Candidate(UnreadyNext(m0, s, victim)) && (UnreadyNext(m0, s, victim) < 0x80 ==> UnreadyNext(m0, s, victim) as nat < s + 1)
    ensures ChosenSoFar(m0, s + 1, UnreadyNext(m0, s, victim))
  {
    SweptUnready(m0, m, s);
    ChosenUnready(m0, s, victim);
    DescriptorFrame(m.mem, s, SetReferenced(Descriptor(m.mem, s), false));
    UnreferenceKeeps(Descriptor(m0.mem, s));
    TaggedFrame(s);
  }

  lemma FindFromUnreadyUnfolds(m: Mach, s: nat, victim: bv8)
    requires Shaped(m) && s < 16 && Candidate(victim) && (victim < 0x80 ==> victim as nat < s)
    requires !Ready(m, s)
    ensures Candidate(UnreadyNext(Unreferenced(m, s), s, victim))
    ensures UnreadyNext(Unreferenced(m, s), s, victim) < 0x80 ==> UnreadyNext(Unreferenced(m, s), s, victim) as nat < s + 1
    ensures FindFrom(m, s, victim) == FindFrom(Unreferenced(m, s), s + 1, UnreadyNext(Unreferenced(m, s), s, victim))
  {
    TaggedFrame(s);
  }

  /** A ready frame with no back reference ends the pass: it is preferred over every frame. */
  lemma ZeroRefsPreferred(m0: Mach, m: Mach, s: nat, victim: bv8)
    requires Shaped(m0) && s < 16 && Swept(m0, m, s) && ChosenSoFar(m0, s, victim)
    requires Ready(m0, s) && Refs(m0, s) == 0
    ensures SomeReady(m0, 16) && Preferred(m0, s, 16) && !AllPinned(m0, 16)
    ensures OnlyUnreferenced(m0, m)
    ensures Chooses(m0, FindFrom(m, s, victim))
  {
    FrameCandidate(s);
    SweptOnlyUnreferenced(m0, m, s);
    UnreferenceKeeps(Descriptor(m0.mem, s));
    assert Ready(m0, s) && !Pinned(m0, s);
  }

  /** A pinned frame is never ready, so with every frame pinned none is ready. */
  lemma PinnedNoneReady(m: Mach, s: nat)
    requires Shaped(m) && s <= 16 && AllPinned(m, s)
    ensures !SomeReady(m, s)
  {
    forall f | 0 <= f < s
      ensures !Ready(m, f)
    {
      assert Pinned(m, f);
      UnreferenceKeeps(Descriptor(m.mem, f));
    }
  }

  /** `find_victim` takes the ready frame with the fewest back references, the first of them on
      ties (so the first ready frame with none); with no frame ready, the first frame that is not
      pinned; it throws `std::bad_alloc` exactly when every frame is pinned. Along the way it clears the
      referenced flag of every frame it passes, up to where `PassEnd` says the pass stops, and
      changes nothing else. */
  lemma FindVictimChooses(m: Mach)
    requires Shaped(m)
    ensures SomeReady(m, 16) ==> FindVictim(m).result.Ok? && Preferred(m, FindVictim(m).result.value as nat, 16)
    ensures !SomeReady(m, 16) && !AllPinned(m, 16) ==>
      FindVictim(m).result.Ok? && FirstUnpinned(m, FindVictim(m).result.value as nat, 16)
    ensures FindVictim(m).result.Fail? <==> AllPinned(m, 16)
    ensures FindVictim(m).result.Fail? ==> FindVictim(m).result.fault == BadAlloc
    ensures Swept(m, FindVictim(m).after, PassEnd(m, 0))
    ensures OnlyUnreferenced(m, FindVictim(m).after)
  {
    FindFromChooses(m, m, 0, 0xff);
    FindFromSweeps(m, m, 0, 0xff);
    if FindVictim(m).result.Fail? {
      PinnedNoneReady(m, 16);
    }
  }

  /** The victim is never a pinned frame. */
  lemma VictimNotPinned(m: Mach)
    requires Shaped(m) && FindVictim(m).result.Ok?
    ensures !Pinned(m, FindVictim(m).result.value as nat)
  {
    FindVictimChooses(m);
    UnreferenceKeeps(Descriptor(m.mem, FindVictim(m).result.value as nat));
  }

  // ------------------------------------------------------------------------------------------
  // Byte access

  /** A byte stored at a physical address in main memory reads back, and every other address
      reads as before; outside main memory both fail and nothing changes. The addresses are
      also given as numbers, `i` for `pa` and `j` for `q`. */
  lemma StoreThenRead(m: Mach, b: bv8, pa: bv16, q: bv16, i: nat, j: nat)
    requires Shaped(m) && i == pa as nat && j == q as nat
    ensures i < MainSize ==> ReadByte(StoreByte(m, b, pa).after, pa) == Ok(b)
    ensures i != j ==> ReadByte(StoreByte(m, b, pa).after, q) == ReadByte(m, q)
    ensures i >= MainSize ==> StoreByte(m, b, pa) == Run(Fail(Abort), m) && ReadByte(m, pa) == Fail(Abort)
  {
  }
}
