/** The four-entry translation lookaside buffer of the lab 3 machine: a ring buffer of 32-bit
    records `(pte << 16) | va` with a cursor `first` on the logical entry 0. A record whose low
    half (its key) is zero marks the end of the live entries.

    `lookup` and `invalidate` only see the buffer through its logical entries, so they are
    specified on the sequence of logical entries (of any length); `insert` is the one operation
    that moves the cursor, and it is specified on the physical slots. */
module Tlb {
  import opened Codec

  /** The buffer as a value: the physical slots and the cursor. */
  datatype View = View(elements: seq<bv32>, first: nat)

  /** Four slots, and a cursor on one of them: the cursor starts at 0 and `insert` reduces it
      modulo 4, so it never leaves `0..3`. */
  predicate WellFormed(t: View)
  {
    |t.elements| == 4 && t.first < 4
  }

  /** The physical slot of logical entry `i`. */
  function Index(t: View, i: nat): nat
  {
    (t.first + i) % 4
  }

  /** Logical entry `i`. */
  function At(t: View, i: nat): bv32
    requires WellFormed(t)
  {
    t.elements[Index(t, i)]
  }

  /** The buffer with logical entry `i` replaced by `v`. */
  function Put(t: View, i: nat, v: bv32): View
    requires WellFormed(t)
  {
    t.(elements := t.elements[Index(t, i) := v])
  }

  /** The logical entries, in order from the cursor. */
  function Entries(t: View): (r: seq<bv32>)
    requires WellFormed(t)
    ensures |r| == 4 && forall i :: 0 <= i < 4 ==> r[i] == At(t, i)
  {
    seq(4, i requires 0 <= i < 4 => At(t, i))
  }

  /** The key of a record: the address it maps. */
  function Key(e: bv32): bv32
  {
    e & 0xffff
  }

  /** The record mapping `va` to `pte`. */
  function Record(va: VirtualAddress, pte: PageEntry): bv32
  {
    ((pte.raw as bv32) << 16) | (va.raw as bv32)
  }

  /** The page entry a record stores. */
  function EntryOf(e: bv32): PageEntry
  {
    PageEntry((e >> 16) as bv16)
  }

  /** Whether record `e` carries the entry `pte`. */
  predicate Carries(e: bv32, pte: PageEntry)
  {
    e >> 16 == pte.raw as bv32
  }

  /** The empty buffer. */
  const Empty := View([0, 0, 0, 0], 0)

  /** The cursor after `insert`: one less, where the unsigned 32-bit subtraction wraps 0 to
      2^32 - 1, then reduced modulo 4. */
  function Before(first: nat): nat
  {
    if first == 0 then 0xffff_ffff % 4 else (first - 1) % 4
  }

  /** `insert`: the cursor moves back one slot and the record is written there. */
  function Inserted(t: View, va: VirtualAddress, pte: PageEntry): (r: View)
    requires WellFormed(t)
    ensures WellFormed(r)
  {
    var f := Before(t.first);
    View(t.elements[f := Record(va, pte)], f)
  }

  /** Record `e` is empty: its key is zero. */
  predicate Vacant(e: bv32)
  {
    Key(e) == 0
  }

  /** `lookup` of `va` stops at record `e`: the record is empty or maps `va`. */
  predicate Stops(e: bv32, va: VirtualAddress)
  {
    Vacant(e) || Key(e) == va.raw as bv32
  }

  /** Where `lookup` stops when it starts at entry `i`: the first entry from there on whose key is
      empty or is `va`, or the end of the buffer. */
  function Probe(s: seq<bv32>, va: VirtualAddress, i: nat): (r: nat)
    requires i <= |s|
    ensures i <= r <= |s|
    decreases |s| - i
  {
    if i == |s| || Stops(s[i], va) then i
    else Probe(s, va, i + 1)
  }

  /** The entries with record `j` moved one place towards the front. */
  function Promoted(s: seq<bv32>, j: nat): seq<bv32>
    requires j < |s|
  {
    if j > 0 then s[j := s[j - 1]][j - 1 := s[j]] else s
  }

  /** `lookup`: a miss when the probe reaches the end or an empty key, which leaves the entries
      as they were; otherwise a hit, which promotes the record and returns its entry. */
  function LookedUp(s: seq<bv32>, va: VirtualAddress): (seq<bv32>, PageEntry)
  {
    var j := Probe(s, va, 0);
    if j == |s| || Vacant(s[j]) then (s, NoEntry)
    else (Promoted(s, j), EntryOf(s[j]))
  }

  /** Entry `i` zeroed, then exchanged with entry `j - 1`. */
  function Cleared(s: seq<bv32>, i: nat, j: nat): (r: seq<bv32>)
    requires i < j <= |s|
    ensures |r| == |s|
  {
    s[i := s[j - 1]][j - 1 := 0]
  }

  /** Zeroing entry `i` and then exchanging it with entry `j - 1` clears the entry. */
  lemma ClearedBySwap(s: seq<bv32>, i: nat, j: nat)
    requires i < j <= |s|
    ensures s[i := 0][i := s[i := 0][j - 1]][j - 1 := s[i := 0][i]] == Cleared(s, i, j)
  {
  }

  /** `invalidate` with entries `[i, j)` left to examine: a record carrying `pte` is zeroed and
      exchanged with the last entry to examine, which shrinks the range from above; any other
      record is passed over. */
  function InvalidateFrom(s: seq<bv32>, pte: PageEntry, i: nat, j: nat): seq<bv32>
    requires i <= j <= |s|
    decreases j - i
  {
    if i < j then
      if Carries(s[i], pte) then
        InvalidateFrom(Cleared(s, i, j), pte, i, j - 1)
      else
        InvalidateFrom(s, pte, i + 1, j)
    else
      s
  }

  function Invalidated(s: seq<bv32>, pte: PageEntry): seq<bv32>
  {
    InvalidateFrom(s, pte, 0, |s|)
  }

  // ------------------------------------------------------------------------------------------
  // Properties

  /** Logical entries map to distinct physical slots, so writing one logical entry changes that
      entry alone. */
  lemma EntriesPut(t: View, i: nat, v: bv32)
    requires WellFormed(t) && i < 4
    ensures WellFormed(Put(t, i, v)) && Put(t, i, v).first == t.first
    ensures Entries(Put(t, i, v)) == Entries(t)[i := v]
  {
    forall k | 0 <= k < 4 ensures Entries(Put(t, i, v))[k] == Entries(t)[i := v][k] {
      if k != i {
        assert Index(t, k) != Index(t, i);
      }
    }
  }

  /** `insert` makes the record logical entry 0, moves entries 0..2 to 1..3 and drops entry 3. */
  lemma InsertShifts(t: View, va: VirtualAddress, pte: PageEntry)
    requires WellFormed(t)
    ensures Entries(Inserted(t, va, pte)) == [Record(va, pte)] + Entries(t)[..3]
  {
    var r := Inserted(t, va, pte);
    assert r.first == (t.first + 3) % 4;
    forall k | 1 <= k < 4 ensures Index(r, k) == Index(t, k - 1) {
      assert (((t.first + 3) % 4) + k) % 4 == (t.first + k - 1) % 4;
    }
  }

  /** The record stores the entry in its high half and the address as its key. */
  lemma RecordFields(va: VirtualAddress, pte: PageEntry)
    ensures Key(Record(va, pte)) == va.raw as bv32
    ensures EntryOf(Record(va, pte)) == pte
    ensures Carries(Record(va, pte), pte)
  {
  }

  /** Lookup of `va` hits entry `i`: `va` is not null, it is the key of entry `i`, and no earlier
      entry is empty or has that key. */
  predicate Hit(s: seq<bv32>, va: VirtualAddress, i: nat)
    requires i < |s|
  {
    && va.raw != 0
    && Key(s[i]) == va.raw as bv32
    && forall k :: 0 <= k < i ==> !Stops(s[k], va)
  }

  lemma {:induction false} ProbeHit(s: seq<bv32>, va: VirtualAddress, i: nat, j: nat)
    requires j <= i < |s| && Hit(s, va, i)
    ensures Probe(s, va, j) == i
    decreases i - j
  {
    if j < i {
      assert !Stops(s[j], va);
      ProbeHit(s, va, i, j + 1);
    }
  }

  /** A hit returns the entry stored with `va` and moves its record one place to the front. */
  lemma LookupHit(s: seq<bv32>, va: VirtualAddress, i: nat)
    requires i < |s| && Hit(s, va, i)
    ensures LookedUp(s, va).1 == EntryOf(s[i])
    ensures LookedUp(s, va).0 == if i > 0 then s[i := s[i - 1]][i - 1 := s[i]] else s
  {
    ProbeHit(s, va, i, 0);
  }

  lemma {:induction false} ProbeMiss(s: seq<bv32>, va: VirtualAddress, j: nat)
    requires j <= |s|
    requires forall i :: j <= i < |s| ==> !Hit(s, va, i)
    requires forall k :: 0 <= k < j ==> !Stops(s[k], va)
    ensures Probe(s, va, j) == |s| || Vacant(s[Probe(s, va, j)])
    decreases |s| - j
  {
    if j < |s| && !Vacant(s[j]) {
      assert !Hit(s, va, j);
      ProbeMiss(s, va, j + 1);
    }
  }

  /** When no entry is a hit, lookup returns no entry and leaves the buffer as it was. */
  lemma LookupMiss(s: seq<bv32>, va: VirtualAddress)
    requires forall i :: 0 <= i < |s| ==> !Hit(s, va, i)
    ensures LookedUp(s, va) == (s, NoEntry)
  {
    ProbeMiss(s, va, 0);
  }

  /** The records of `s` that do not carry `pte`, in order. */
  function Kept(s: seq<bv32>, pte: PageEntry): (r: seq<bv32>)
    ensures |r| <= |s|
  {
    if s == [] then []
    else (if Carries(s[0], pte) then [] else [s[0]]) + Kept(s[1..], pte)
  }

  lemma KeptSingle(e: bv32, pte: PageEntry)
    ensures Kept([e], pte) == if Carries(e, pte) then [] else [e]
  {
    assert [e][1..] == [];
  }

  lemma {:induction false} KeptConcat(a: seq<bv32>, b: seq<bv32>, pte: PageEntry)
    ensures Kept(a + b, pte) == Kept(a, pte) + Kept(b, pte)
  {
    if a != [] {
      var h := if Carries(a[0], pte) then [] else [a[0]];
      assert (a + b)[0] == a[0];
      assert (a + b)[1..] == a[1..] + b;
      KeptConcat(a[1..], b, pte);
      assert h + (Kept(a[1..], pte) + Kept(b, pte)) == (h + Kept(a[1..], pte)) + Kept(b, pte);
    } else {
      assert a + b == b;
    }
  }

  lemma {:induction false} KeptMembers(s: seq<bv32>, pte: PageEntry)
    ensures forall e :: e in Kept(s, pte) ==> e in s && !Carries(e, pte)
  {
    if s != [] {
      KeptMembers(s[1..], pte);
    }
  }

  /** Dropping a record that carries `pte` from the front and moving the last record to the front
      keeps the same records. */
  lemma KeptRotate(x: bv32, m: seq<bv32>, y: bv32, pte: PageEntry)
    requires Carries(x, pte)
    ensures multiset(Kept([y] + m, pte)) == multiset(Kept([x] + m + [y], pte))
    ensures |Kept([y] + m, pte)| == |Kept([x] + m + [y], pte)|
  {
    KeptConcat([x] + m, [y], pte);
    KeptConcat([x], m, pte);
    KeptConcat([y], m, pte);
    KeptSingle(x, pte);
  }

  /** One matching step of `invalidate`, from `s` to `s'`: the range left to examine after it
      keeps the same records as before, the part of the buffer outside the range is left alone,
      and the last entry of the range becomes zero. */
  lemma InvalidateStep(s: seq<bv32>, pte: PageEntry, i: nat, j: nat,
                       s': seq<bv32>, kept': seq<bv32>, kept: seq<bv32>)
    requires i < j <= |s| && Carries(s[i], pte) && s' == Cleared(s, i, j)
    requires kept' == Kept(s'[i..j - 1], pte) && kept == Kept(s[i..j], pte)
    ensures multiset(kept') == multiset(kept) && |kept'| == |kept|
    ensures |s'| == |s| && s'[j - 1] == 0 && s'[..i] == s[..i] && s'[j..] == s[j..]
  {
    if i < j - 1 {
      assert s[i..j] == [s[i]] + s[i + 1..j - 1] + [s[j - 1]];
      assert s'[i..j - 1] == [s[j - 1]] + s[i + 1..j - 1];
      KeptRotate(s[i], s[i + 1..j - 1], s[j - 1], pte);
    } else {
      assert s[i..j] == [s[i]];
      KeptSingle(s[i], pte);
    }
  }

  /** `r` is `s` with the range `[i, j)` rearranged: the entries outside it are as they were, the
      records `kept` (in some order) fill the front of it, and the rest of it is zero. */
  predicate Packed(s: seq<bv32>, r: seq<bv32>, i: nat, j: nat, kept: seq<bv32>)
  {
    && i + |kept| <= j <= |s| == |r|
    && r[..i] == s[..i] && r[j..] == s[j..]
    && multiset(r[i..i + |kept|]) == multiset(kept)
    && forall k :: i + |kept| <= k < j ==> r[k] == 0
  }

  /** `invalidate` from the range `[i, j)` on packs the records of the range that do not carry
      `pte`. */
  lemma {:induction false} InvalidateFromPacks(s: seq<bv32>, pte: PageEntry, i: nat, j: nat,
                                               r: seq<bv32>, kept: seq<bv32>)
    requires i <= j <= |s| && r == InvalidateFrom(s, pte, i, j) && kept == Kept(s[i..j], pte)
    ensures Packed(s, r, i, j, kept)
    decreases j - i
  {
    if i < j {
      if Carries(s[i], pte) {
        var s' := Cleared(s, i, j);
        var kept' := Kept(s'[i..j - 1], pte);
        InvalidateFromPacks(s', pte, i, j - 1, r, kept');
        InvalidateStep(s, pte, i, j, s', kept', kept);
        InvalidateMatch(s, s', r, i, j, kept', kept);
      } else {
        var kept' := Kept(s[i + 1..j], pte);
        InvalidateFromPacks(s, pte, i + 1, j, r, kept');
        InvalidatePass(s, r, pte, i, j, kept', kept);
      }
    } else {
      assert s[i..j] == [];
    }
  }

  /** A record zeroed by `invalidate` leaves the records kept as they were: `s'` is the buffer after
      the matching step, `r` the outcome of examining the rest of the range, which keeps `kept'`. */
  lemma InvalidateMatch(s: seq<bv32>, s': seq<bv32>, r: seq<bv32>, i: nat, j: nat,
                        kept': seq<bv32>, kept: seq<bv32>)
    requires i < j <= |s| && |s'| == |s| && s'[j - 1] == 0
    requires s'[..i] == s[..i] && s'[j..] == s[j..]
    requires multiset(kept') == multiset(kept) && |kept'| == |kept|
    requires Packed(s', r, i, j - 1, kept')
    ensures Packed(s, r, i, j, kept)
  {
    assert r[j..] == r[j - 1..][1..];
    assert r[j - 1] == r[j - 1..][0];
  }

  lemma SliceCons(r: seq<bv32>, i: nat, k: nat)
    requires i < k <= |r|
    ensures r[i..k] == [r[i]] + r[i + 1..k]
  {
  }

  lemma PrefixParts(r: seq<bv32>, s: seq<bv32>, i: nat)
    requires i < |r| && i < |s| && r[..i + 1] == s[..i + 1]
    ensures r[..i] == s[..i] && r[i] == s[i]
  {
    assert r[i] == r[..i + 1][i];
    assert r[..i] == r[..i + 1][..i];
  }

  lemma KeptCons(s: seq<bv32>, i: nat, j: nat, pte: PageEntry)
    requires i < j <= |s|
    ensures Kept(s[i..j], pte) == (if Carries(s[i], pte) then [] else [s[i]]) + Kept(s[i + 1..j], pte)
  {
    assert s[i..j][0] == s[i];
    assert s[i..j][1..] == s[i + 1..j];
  }

  /** A record passed over by `invalidate` stays in place, at the front of the records kept:
      `r` is the outcome of examining the rest of the range, which keeps `kept'`. */
  lemma InvalidatePass(s: seq<bv32>, r: seq<bv32>, pte: PageEntry, i: nat, j: nat,
                       kept': seq<bv32>, kept: seq<bv32>)
    requires i < j <= |s| && !Carries(s[i], pte)
    requires kept' == Kept(s[i + 1..j], pte) && kept == Kept(s[i..j], pte)
    requires Packed(s, r, i + 1, j, kept')
    ensures Packed(s, r, i, j, kept)
  {
    KeptCons(s, i, j, pte);
    PrefixParts(r, s, i);
    SliceCons(r, i, i + 1 + |kept'|);
    assert r[i..i + |kept|] == [s[i]] + r[i + 1..i + 1 + |kept'|];
    assert multiset(r[i..i + |kept|]) == multiset([s[i]]) + multiset(kept');
  }

  /** After `invalidate` the records that did not carry `pte` fill the front of the buffer in some
      order, the rest of it is zero, and no record carries `pte` when `pte` is not empty. */
  lemma InvalidateRemoves(s: seq<bv32>, pte: PageEntry)
    ensures |Invalidated(s, pte)| == |s|
    ensures multiset(Invalidated(s, pte)[..|Kept(s, pte)|]) == multiset(Kept(s, pte))
    ensures forall k :: |Kept(s, pte)| <= k < |s| ==> Invalidated(s, pte)[k] == 0
    ensures pte.raw != 0 ==> forall k :: 0 <= k < |s| ==> !Carries(Invalidated(s, pte)[k], pte)
  {
    var r := Invalidated(s, pte);
    var kept := Kept(s, pte);
    assert s[0..|s|] == s;
    InvalidateFromPacks(s, pte, 0, |s|, r, kept);
    assert r[0..|kept|] == r[..|kept|];
    assert r[|s|..] == [];
    if pte.raw != 0 {
      KeptMembers(s, pte);
      forall k | 0 <= k < |r| ensures !Carries(r[k], pte) {
        if k < |kept| {
          assert r[..|kept|][k] in multiset(kept);
        }
      }
    }
  }

  /** Widening keeps a non-zero page number non-zero. */
  lemma WidenNonZero(x: bv16)
    ensures x != 0 ==> x as bv32 != 0
  {
    assert x as bv32 as bv16 == x;
  }

  /** An entry whose key is not the page is not where a lookup of the page hits. */
  lemma OtherKeyMisses(s: seq<bv32>, va: VirtualAddress, i: nat)
    requires i < |s| && Key(s[i]) != va.raw as bv32
    ensures !Hit(s, va, i)
  { }

  /** An empty key hides every record behind it: unless an earlier record maps `va`, lookup
      misses and changes nothing, whatever the later records hold. */
  lemma LookupStopsAtVacant(s: seq<bv32>, va: VirtualAddress, k: nat)
    requires k < |s| && Vacant(s[k])
    requires forall i :: 0 <= i < k ==> Key(s[i]) != va.raw as bv32
    ensures LookedUp(s, va) == (s, NoEntry)
  {
    forall i | 0 <= i < |s| ensures !Hit(s, va, i) {
      if i < k {
        OtherKeyMisses(s, va, i);
      } else if i == k {
        WidenNonZero(va.raw);
      } else {
        assert Stops(s[k], va);
      }
    }
    LookupMiss(s, va);
  }

  /** A record for page 0 has the empty key, so once it is inserted in front every lookup misses,
      including those of the addresses cached behind it. */
  lemma PageZeroHidesAll(t: View, pte: PageEntry, va: VirtualAddress)
    requires WellFormed(t)
    ensures LookedUp(Entries(Inserted(t, VirtualAddress(0), pte)), va).1 == NoEntry
  {
    InsertShifts(t, VirtualAddress(0), pte);
    RecordFields(VirtualAddress(0), pte);
    LookupStopsAtVacant(Entries(Inserted(t, VirtualAddress(0), pte)), va, 0);
  }

  /** `invalidate` swaps a matching record with the last entry it has yet to examine instead of
      moving the others up, so it can leave an empty key in front of a record it keeps: removing
      the entry `p` from `[a ↦ p, b ↦ q, 0, 0]` leaves `[0, b ↦ q, 0, 0]`, and `b`, found before,
      is missed after. */
  lemma InvalidateHidesSurvivor(s: seq<bv32>, a: VirtualAddress, b: VirtualAddress, p: PageEntry, q: PageEntry)
    requires a == VirtualAddress(0x1000) && b == VirtualAddress(0x2000)
    requires p == PageEntry(0x4b) && q == PageEntry(0x8b)
    requires s == [Record(a, p), Record(b, q), 0, 0]
    ensures LookedUp(s, b).1 == q
    ensures Invalidated(s, p) == [0, Record(b, q), 0, 0]
    ensures LookedUp(Invalidated(s, p), b).1 == NoEntry
  {
    RecordFields(a, p);
    RecordFields(b, q);
    var t := [0, Record(b, q), 0, 0];
    assert Cleared(s, 0, 4) == t;
    assert !Carries(t[0], p) && !Carries(t[1], p) && !Carries(t[2], p);
    assert InvalidateFrom(t, p, 0, 3) == t;
    assert Hit(s, b, 1);
    LookupHit(s, b, 1);
    LookupStopsAtVacant(t, b, 0);
  }

  // ------------------------------------------------------------------------------------------
  // The buffer, updated in place

  class Tlb {
    const elements: array<bv32>
    var first: nat

    ghost predicate Valid()
      reads this
    {
      elements.Length == 4 && first < 4
    }

    /** The buffer as a value. */
    function Contents(): (r: View)
      reads this, elements
      ensures Valid() ==> WellFormed(r)
    {
      View(elements[..], first)
    }

    /** A buffer with every record zero and the cursor at slot 0. */
    constructor ()
      ensures Valid() && Contents() == Empty && fresh(elements)
    {
      elements := new bv32[4](_ => 0);
      first := 0;
      new;
      assert elements[..] == [0, 0, 0, 0];
    }

    method Insert(va: VirtualAddress, pte: PageEntry)
      requires Valid()
      modifies this, elements
      ensures Valid() && Contents() == Inserted(old(Contents()), va, pte)
    {
      first := if first == 0 then 0xffff_ffff % 4 else (first - 1) % 4;
      elements[first] := Record(va, pte);
    }

    /** Writes logical entry `i`. */
    method Store(i: nat, v: bv32)
      requires Valid() && i < 4
      modifies elements
      ensures Valid() && Contents() == Put(old(Contents()), i, v)
      ensures Entries(Contents()) == Entries(old(Contents()))[i := v]
    {
      EntriesPut(Contents(), i, v);
      elements[(first + i) % 4] := v;
    }

    /** Exchanges logical entries `i` and `j`. */
    method Exchange(i: nat, j: nat)
      requires Valid() && i < 4 && j < 4
      modifies elements
      ensures Valid() && Contents().first == old(first)
      ensures Entries(Contents()) ==
        Entries(old(Contents()))[i := Entries(old(Contents()))[j]][j := Entries(old(Contents()))[i]]
    {
      var a := elements[(first + i) % 4];
      var b := elements[(first + j) % 4];
      Store(i, b);
      Store(j, a);
    }

    /** Reads logical entry `i`. */
    method Get(i: nat) returns (e: bv32)
      requires Valid() && i < 4
      ensures e == Entries(Contents())[i]
    {
      e := elements[(first + i) % 4];
    }

    /** The scan of `lookup`: the first logical entry whose key is empty or is `va`, or 4. */
    method Find(va: VirtualAddress) returns (i: nat)
      requires Valid()
      ensures i == Probe(Entries(Contents()), va, 0)
    {
      ghost var s := Entries(Contents());
      i := 0;
      while i < 4
        invariant i <= 4 && Probe(s, va, i) == Probe(s, va, 0)
      {
        var p := Get(i);
        if Stops(p, va) {
          break;
        }
        i := i + 1;
      }
    }

    method Lookup(va: VirtualAddress) returns (pte: PageEntry)
      requires Valid()
      modifies elements
      ensures Valid() && Contents().first == old(first)
      ensures Entries(Contents()) == LookedUp(Entries(old(Contents())), va).0
      ensures pte == LookedUp(Entries(old(Contents())), va).1
    {
      var i := Find(va);
      if i == 4 {
        return NoEntry;
      }
      var p := Get(i);
      if Vacant(p) {
        return NoEntry;
      }
      if i > 0 {
        Exchange(i, i - 1);
      }
      return EntryOf(p);
    }

    method Invalidate(pte: PageEntry)
      requires Valid()
      modifies elements
      ensures Valid() && Contents().first == old(first)
      ensures Entries(Contents()) == Invalidated(Entries(old(Contents())), pte)
    {
      ghost var s := Entries(Contents());
      var i, j := 0, 4;
      while i < j
        invariant 0 <= i <= j <= 4 && Valid() && first == old(first)
        invariant InvalidateFrom(Entries(Contents()), pte, i, j) == Invalidated(s, pte)
        decreases j - i
      {
        ghost var e := Entries(Contents());
        var p := Get(i);
        if Carries(p, pte) {
          Store(i, 0);
          Exchange(i, j - 1);
          ClearedBySwap(e, i, j);
          j := j - 1;
        } else {
          i := i + 1;
        }
      }
    }
  }
}
