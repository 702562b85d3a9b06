/** What `swap_victim` promises about the value-level model: the victim frame and the secondary
    slot exchange their 256 bytes, the entries that referred to the victim are rewritten as
    swapped out and forgotten by the TLB, and nothing is swapped while a frame is still free. */
module SwapProps {
  import opened Codec
  import Tlb
  import opened MachineSpec
  import MachineProps

  /** Frame `v` of main memory now holds what slot `slot` held, and the other way round; every
      other byte of either memory, and the TLB, is as it was. */
  lemma SwapFramesExchanges(m: Mach, v: nat, slot: nat)
    requires Shaped(m) && v < 16 && slot * 256 + 256 <= SecondarySize
    ensures SwapFrames(m, v, slot).mem[v * 256..v * 256 + 256] == m.sec[slot * 256..slot * 256 + 256]
    ensures SwapFrames(m, v, slot).sec[slot * 256..slot * 256 + 256] == m.mem[v * 256..v * 256 + 256]
    ensures forall i :: 0 <= i < MainSize && !(v * 256 <= i < v * 256 + 256) ==>
              SwapFrames(m, v, slot).mem[i] == m.mem[i]
    ensures forall i :: 0 <= i < SecondarySize && !(slot * 256 <= i < slot * 256 + 256) ==>
              SwapFrames(m, v, slot).sec[i] == m.sec[i]
    ensures SwapFrames(m, v, slot).tlb == m.tlb
  {
    var r := SwapFrames(m, v, slot);
    assert r.mem[v * 256..v * 256 + 256] == m.sec[slot * 256..slot * 256 + 256];
    assert r.sec[slot * 256..slot * 256 + 256] == m.mem[v * 256..v * 256 + 256];
  }

  /** Exchanging the same frame and slot twice restores the machine. */
  lemma SwapFramesTwice(m: Mach, v: nat, slot: nat)
    requires Shaped(m) && v < 16 && slot * 256 + 256 <= SecondarySize
    ensures SwapFrames(SwapFrames(m, v, slot), v, slot) == m
  {
    var r := SwapFrames(m, v, slot);
    var t := SwapFrames(r, v, slot);
    SwapFramesExchanges(m, v, slot);
    SwapFramesExchanges(r, v, slot);
    assert t.mem == m.mem by {
      forall i | 0 <= i < MainSize
        ensures t.mem[i] == m.mem[i]
      {
        if v * 256 <= i < v * 256 + 256 {
          assert t.mem[i] == t.mem[v * 256..v * 256 + 256][i - v * 256];
          assert m.mem[i] == m.mem[v * 256..v * 256 + 256][i - v * 256];
        }
      }
    }
    assert t.sec == m.sec by {
      forall i | 0 <= i < SecondarySize
        ensures t.sec[i] == m.sec[i]
      {
        if slot * 256 <= i < slot * 256 + 256 {
          assert t.sec[i] == t.sec[slot * 256..slot * 256 + 256][i - slot * 256];
          assert m.sec[i] == m.sec[slot * 256..slot * 256 + 256][i - slot * 256];
        }
      }
    }
  }

  /** Rewriting the entries from back reference `i` on never touches secondary memory, fails only
      by aborting (on an entry that is not present), and on success leaves the victim with its
      count bits cleared. */
  lemma {:induction false} UpdateFromKeeps(m: Mach, victim: nat, slot: bv16, i: nat, n: nat)
    requires Shaped(m) && victim < 16 && i <= n <= 2
    ensures UpdateFrom(m, victim, slot, i, n).after.sec == m.sec
    ensures UpdateFrom(m, victim, slot, i, n).result.Fail? ==> UpdateFrom(m, victim, slot, i, n).result.fault == Abort
    ensures UpdateFrom(m, victim, slot, i, n).result.Ok? ==>
              Descriptor(UpdateFrom(m, victim, slot, i, n).after.mem, victim).raw0 & 0x3c == 0
    decreases n - i
  {
    if i == n {
      ClearBackReferencesBits(Descriptor(m.mem, victim));
    } else {
      var at := BackReference(Descriptor(m.mem, victim), i) as nat;
      var pte := PageEntry(Read16(m.mem, at));
      if IsPresent(pte) {
        Tlb.InvalidateRemoves(m.tlb, pte);
        UpdateFromKeeps(Mach(Write16(m.mem, at, SwappedOut(pte, slot).raw), m.sec, Tlb.Invalidated(m.tlb, pte)),
                        victim, slot, i + 1, n);
      }
    }
  }

  /** Rewriting the entries from back reference `i` on leaves main memory from byte 257 on: the
      entries it rewrites sit at 8-bit offsets and the descriptor in the frame table. */
  lemma {:induction false} UpdateFromHigh(m: Mach, victim: nat, slot: bv16, i: nat, n: nat)
    requires Shaped(m) && victim < 16 && i <= n <= 2
    ensures forall j :: 257 <= j < MainSize ==> UpdateFrom(m, victim, slot, i, n).after.mem[j] == m.mem[j]
    decreases n - i
  {
    if i == n {
      MachineProps.DescriptorFrame(m.mem, victim, ClearBackReferences(Descriptor(m.mem, victim)));
    } else {
      var at := BackReference(Descriptor(m.mem, victim), i) as nat;
      var pte := PageEntry(Read16(m.mem, at));
      if IsPresent(pte) {
        Tlb.InvalidateRemoves(m.tlb, pte);
        var m1 := Mach(Write16(m.mem, at, SwappedOut(pte, slot).raw), m.sec, Tlb.Invalidated(m.tlb, pte));
        assert at + 1 < 257;
        UpdateFromHigh(m1, victim, slot, i + 1, n);
      }
    }
  }

  /** A frame with a single back reference, to an entry outside the frame table: that entry
      becomes the swapped-out entry numbering `slot`, and no TLB record carries the old entry;
      an absent entry aborts instead. */
  lemma UpdateSingleReference(m: Mach, victim: nat, slot: bv16)
    requires Shaped(m) && victim < 16
    requires BackReferenceCount(Descriptor(m.mem, victim)) == 1
    requires BackReference(Descriptor(m.mem, victim), 0) as nat >= FreeMapAt
    ensures !IsPresent(PageEntry(Read16(m.mem, BackReference(Descriptor(m.mem, victim), 0) as nat))) ==>
              UpdateAfterSwap(m, victim, slot).result == Fail(Abort)
    ensures IsPresent(PageEntry(Read16(m.mem, BackReference(Descriptor(m.mem, victim), 0) as nat))) ==>
              && UpdateAfterSwap(m, victim, slot).result.Ok?
              && Read16(UpdateAfterSwap(m, victim, slot).after.mem, BackReference(Descriptor(m.mem, victim), 0) as nat)
                 == SwappedOut(PageEntry(Read16(m.mem, BackReference(Descriptor(m.mem, victim), 0) as nat)), slot).raw
              && forall k :: 0 <= k < 4 ==>
                   !Tlb.Carries(UpdateAfterSwap(m, victim, slot).after.tlb[k],
                                PageEntry(Read16(m.mem, BackReference(Descriptor(m.mem, victim), 0) as nat)))
  {
    var d := Descriptor(m.mem, victim);
    var at := BackReference(d, 0) as nat;
    var pte := PageEntry(Read16(m.mem, at));
    if IsPresent(pte) {
      Tlb.InvalidateRemoves(m.tlb, pte);
      var m1 := Mach(Write16(m.mem, at, SwappedOut(pte, slot).raw), m.sec, Tlb.Invalidated(m.tlb, pte));
      assert UpdateFrom(m, victim, slot, 0, 1) == UpdateFrom(m1, victim, slot, 1, 1);
      EntryOutsideTable(m1.mem, at, victim, ClearBackReferences(Descriptor(m1.mem, victim)));
    }
  }

  /** Writing a frame descriptor leaves the words at or above the free map. */
  lemma EntryOutsideTable(mem: seq<bv8>, at: nat, f: nat, d: FrameDescriptor)
    requires |mem| == MainSize && f < 16 && FreeMapAt <= at && at + 1 < MainSize
    ensures Read16(PutDescriptor(mem, f, d), at) == Read16(mem, at)
  {
  }

  /** `swap_victim(slot)` with a frame still free aborts and changes nothing; with every frame
      pinned it throws `std::bad_alloc`. */
  lemma SwapVictimRefuses(m: Mach, slot: bv16)
    requires Shaped(m)
    ensures FreeMap(m) != 0 ==> SwapVictim(m, slot) == Run(Fail(Abort), m)
    ensures FreeMap(m) == 0 && MachineProps.AllPinned(m, 16) ==> SwapVictim(m, slot).result == Fail(BadAlloc)
  {
    MachineProps.FindVictimChooses(m);
  }

  /** A victim `swap_victim(slot)` returns is the frame `find_victim` chose, which is not
      pinned, and slot `slot` of secondary memory now holds that frame's bytes. */
  lemma SwapVictimExchanges(m: Mach, slot: bv16)
    requires Shaped(m) && SwapVictim(m, slot).result.Ok?
    ensures SwapVictim(m, slot).result == FindVictim(m).result
    ensures !MachineProps.Pinned(m, FindVictim(m).result.value as nat)
    ensures slot as nat * 256 + 256 <= SecondarySize
    ensures SwapVictim(m, slot).after.sec[slot as nat * 256..slot as nat * 256 + 256]
            == FindVictim(m).after.mem[FindVictim(m).result.value as nat * 256..FindVictim(m).result.value as nat * 256 + 256]
  {
    var v := FindVictim(m).result.value as nat;
    var s := slot as nat;
    MachineProps.VictimNotPinned(m);
    SwapVictimSteps(m, slot, v, s);
    SwapFramesExchanges(FindVictim(m).after, v, s);
  }

  /** The main-memory side of a successful `swap_victim`: victim frame `v` holds what slot `s`
      held (from byte 257 of main memory on, below which the rewritten entries may lie), and its
      back-reference list is cleared. */
  lemma SwapVictimFillsFrame(m: Mach, slot: bv16, v: nat, s: nat)
    requires Shaped(m) && SwapVictim(m, slot).result.Ok?
    requires FindVictim(m).result.Ok? && v == FindVictim(m).result.value as nat && s == slot as nat
    ensures v < 16 && s * 256 + 256 <= SecondarySize
    ensures forall j :: v * 256 <= j < v * 256 + 256 && 257 <= j ==>
              SwapVictim(m, slot).after.mem[j] == m.sec[s * 256 + (j - v * 256)]
    ensures Descriptor(SwapVictim(m, slot).after.mem, v).raw0 & 0x3c == 0
  {
    var w := SwapFrames(FindVictim(m).after, v, s);
    var n := SwapVictimUnfolds(m, slot, v, s);
    var after := SwapVictim(m, slot).after;
    UpdateFromKeeps(w, v, slot, 0, n);
    FrameFilled(m, w, after, v, s, n, slot);
  }

  /** The frame the exchange filled survives the rewriting of the entries past byte 256. */
  lemma FrameFilled(m: Mach, w: Mach, after: Mach, v: nat, s: nat, n: nat, slot: bv16)
    requires Shaped(m) && v < 16 && s == slot as nat && s * 256 + 256 <= SecondarySize && n <= 2
    requires FindVictim(m).result.Ok? && v == FindVictim(m).result.value as nat
    requires w == SwapFrames(FindVictim(m).after, v, s) && after == UpdateFrom(w, v, slot, 0, n).after
    ensures forall j :: v * 256 <= j < v * 256 + 256 && 257 <= j ==> after.mem[j] == m.sec[s * 256 + (j - v * 256)]
  {
    UpdateFromHigh(w, v, slot, 0, n);
    FindVictimKeepsSecondary(m);
    SwapFramesFills(FindVictim(m).after, v, s);
  }

  /** The exchange fills frame `v` with slot `slot`, byte by byte. */
  lemma SwapFramesFills(m: Mach, v: nat, slot: nat)
    requires Shaped(m) && v < 16 && slot * 256 + 256 <= SecondarySize
    ensures forall j :: v * 256 <= j < v * 256 + 256 ==>
              SwapFrames(m, v, slot).mem[j] == m.sec[slot * 256 + (j - v * 256)]
  {
    var r := SwapFrames(m, v, slot);
    SwapFramesExchanges(m, v, slot);
    forall j | v * 256 <= j < v * 256 + 256
      ensures r.mem[j] == m.sec[slot * 256 + (j - v * 256)]
    {
      assert r.mem[j] == r.mem[v * 256..v * 256 + 256][j - v * 256];
      assert m.sec[slot * 256 + (j - v * 256)] == m.sec[slot * 256..slot * 256 + 256][j - v * 256];
    }
  }

  /** A successful `swap_victim` is the exchange followed by the rewriting of the victim's `n`
      back references. */
  lemma SwapVictimUnfolds(m: Mach, slot: bv16, v: nat, s: nat) returns (n: nat)
    requires Shaped(m) && SwapVictim(m, slot).result.Ok?
    requires FindVictim(m).result.Ok? && v == FindVictim(m).result.value as nat && s == slot as nat
    ensures v < 16 && s * 256 + 256 <= SecondarySize && n <= 2
    ensures SwapVictim(m, slot).after == UpdateFrom(SwapFrames(FindVictim(m).after, v, s), v, slot, 0, n).after
    ensures UpdateFrom(SwapFrames(FindVictim(m).after, v, s), v, slot, 0, n).result.Ok?
  {
    n := BackReferenceCount(Descriptor(SwapFrames(FindVictim(m).after, v, s).mem, v)) as nat;
  }

  /** `find_victim` leaves secondary memory alone. */
  lemma FindVictimKeepsSecondary(m: Mach)
    requires Shaped(m)
    ensures FindVictim(m).after.sec == m.sec
  {
    MachineProps.FindVictimChooses(m);
  }

  /** A successful `swap_victim` leaves secondary memory as the exchange left it. */
  lemma SwapVictimSteps(m: Mach, slot: bv16, v: nat, s: nat)
    requires Shaped(m) && SwapVictim(m, slot).result.Ok?
    requires FindVictim(m).result.Ok? && v == FindVictim(m).result.value as nat && s == slot as nat
    ensures v < 16 && s * 256 + 256 <= SecondarySize
    ensures SwapVictim(m, slot).result == FindVictim(m).result
    ensures SwapVictim(m, slot).after.sec == SwapFrames(FindVictim(m).after, v, s).sec
  {
    var w := SwapFrames(FindVictim(m).after, v, s);
    var n := BackReferenceCount(Descriptor(w.mem, v));
    UpdateFromKeeps(w, v, slot, 0, n as nat);
  }

  /** Taking the first slot of the free region raises its offset by one, lowers its length by
      one, and leaves the rest of secondary memory. */
  lemma ShrinkRegionWords(sec: seq<bv8>)
    requires |sec| == SecondarySize
    ensures Read16(ShrinkRegion(sec), 0) == Read16(sec, 0) + 1
    ensures Read16(ShrinkRegion(sec), 2) == Read16(sec, 2) - 1
    ensures forall i :: 4 <= i < SecondarySize ==> ShrinkRegion(sec)[i] == sec[i]
  {
    var w0 := Read16(sec, 0) + 1;
    var sec1 := Write16(sec, 0, w0);
    var w2 := Read16(sec1, 2) - 1;
    ShrinkRegionSteps(sec, sec1, Write16(sec1, 2, w2));
    MachineProps.WordRoundTrip(sec, 0, w0, 2);
    MachineProps.WordRoundTrip(sec1, 2, w2, 0);
  }

  /** With no frame free and a nonempty free region starting past slot 0, a successful eviction
      returns the victim `find_victim` chose, zero-fills its frame, leaves its former bytes in the
      region's first slot, and shrinks the region by that slot. */
  lemma EvictTakesSlot(m: Mach, v: nat, s: nat)
    requires Shaped(m) && Read16(m.sec, 2) != 0 && Evict(m).result.Ok?
    requires v == Evict(m).result.value && s == Read16(m.sec, 0) as nat && s != 0
    ensures FindVictim(m).result.Ok? && v == FindVictim(m).result.value as nat && v < 16
    ensures forall i :: v * 256 <= i < v * 256 + 256 ==> Evict(m).after.mem[i] == 0
    ensures s * 256 + 256 <= SecondarySize
    ensures Evict(m).after.sec[s * 256..s * 256 + 256] == FindVictim(m).after.mem[v * 256..v * 256 + 256]
    ensures Read16(Evict(m).after.sec, 0) == Read16(m.sec, 0) + 1
    ensures Read16(Evict(m).after.sec, 2) == Read16(m.sec, 2) - 1
  {
    var slot := Read16(m.sec, 0);
    EvictSteps(m, slot);
    SwapVictimKeepsRegion(m, slot, v, s);
    var sv := SwapVictim(m, slot);
    ShrinkRegionWords(sv.after.sec);
    ShrinkRegionKeepsSlot(sv.after.sec, s);
  }

  /** Shrinking the region leaves every slot but slot 0. */
  lemma ShrinkRegionKeepsSlot(sec: seq<bv8>, s: nat)
    requires |sec| == SecondarySize && 0 < s && s * 256 + 256 <= SecondarySize
    ensures ShrinkRegion(sec)[s * 256..s * 256 + 256] == sec[s * 256..s * 256 + 256]
  {
    ShrinkRegionWords(sec);
    var kept, before := ShrinkRegion(sec)[s * 256..s * 256 + 256], sec[s * 256..s * 256 + 256];
    assert forall k :: 0 <= k < 256 ==> kept[k] == before[k];
  }

  /** The eviction is `swap_victim` on the region's first slot, then the zero fill and the
      shrinking of the region. */
  lemma EvictSteps(m: Mach, slot: bv16)
    requires Shaped(m) && Read16(m.sec, 2) != 0 && slot == Read16(m.sec, 0) && Evict(m).result.Ok?
    ensures SwapVictim(m, slot).result.Ok?
    ensures Evict(m) == Run(Ok(SwapVictim(m, slot).result.value as nat),
                            Mach(ZeroFrame(SwapVictim(m, slot).after.mem, SwapVictim(m, slot).result.value as nat),
                                 ShrinkRegion(SwapVictim(m, slot).after.sec), SwapVictim(m, slot).after.tlb))
  {
  }

  /** A successful `swap_victim` into a slot past slot 0 keeps the region's words and puts the
      victim's bytes in the slot. */
  lemma SwapVictimKeepsRegion(m: Mach, slot: bv16, v: nat, s: nat)
    requires Shaped(m) && SwapVictim(m, slot).result.Ok?
    requires v == SwapVictim(m, slot).result.value as nat && s == slot as nat && s != 0
    ensures FindVictim(m).result.Ok? && v == FindVictim(m).result.value as nat && v < 16
    ensures s * 256 + 256 <= SecondarySize
    ensures SwapVictim(m, slot).after.sec[s * 256..s * 256 + 256] == FindVictim(m).after.mem[v * 256..v * 256 + 256]
    ensures forall i :: 0 <= i < 4 ==> SwapVictim(m, slot).after.sec[i] == m.sec[i]
  {
    SwapVictimRefuses(m, slot);
    MachineProps.FindVictimChooses(m);
    SwapVictimSteps(m, slot, v, s);
    SwapFramesExchanges(FindVictim(m).after, v, s);
  }
}
