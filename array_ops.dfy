/** In-place routines over integer arrays (lab 2.5). A C pointer `xs` into an array is modelled by
    the array together with the index `base` the pointer designates. */
module ArrayOps {

  /** `s` in reverse order. */
  function Reversed(s: seq<int>): (r: seq<int>)
    ensures |r| == |s|
  {
    if s == [] then [] else Reversed(s[1..]) + [s[0]]
  }

  /** Element `k` of the reversal is element `k` of `s` counted from the end. */
  lemma {:induction false} ReversedAt(s: seq<int>, k: nat)
    requires k < |s|
    ensures Reversed(s)[k] == s[|s| - 1 - k]
  {
    if k < |s| - 1 {
      ReversedAt(s[1..], k);
    } else if |s| > 1 {
      ReversedAt(s[1..], 0);
    }
  }

  /** Reversing twice gives back the original sequence. */
  lemma ReversedTwice(s: seq<int>)
    ensures Reversed(Reversed(s)) == s
  {
    forall k | 0 <= k < |s| ensures Reversed(Reversed(s))[k] == s[k] {
      ReversedAt(Reversed(s), k);
      ReversedAt(s, |s| - 1 - k);
    }
  }

  /** Reversal is a permutation. */
  lemma {:induction false} ReversedPermutes(s: seq<int>)
    ensures multiset(Reversed(s)) == multiset(s)
  {
    if s != [] {
      ReversedPermutes(s[1..]);
      assert s == [s[0]] + s[1..];
    }
  }

  /** Swaps `xs[p]` and `xs[q]`; nothing else changes. */
  method Exchange(xs: array<int>, p: int, q: int)
    requires 0 <= p < xs.Length && 0 <= q < xs.Length
    modifies xs
    ensures xs[..] == old(xs[..])[p := old(xs[q])][q := old(xs[p])]
    ensures multiset(xs[..]) == multiset(old(xs[..]))
  {
    var x := xs[p];
    xs[p] := xs[q];
    xs[q] := x;
  }

  /** `s` after the first `i` swaps of `Reverse` on the `length` elements from `base`: the
      outermost `i` positions at each end of the slice hold their mirror images. */
  ghost function PartlyReversed(s: seq<int>, base: nat, length: nat, i: nat): (r: seq<int>)
    requires base + length <= |s| && i <= length
    ensures |r| == |s|
  {
    seq(|s|, k requires 0 <= k < |s| =>
      if base <= k < base + i || base + length - i <= k < base + length
      then s[2 * base + length - 1 - k] else s[k])
  }

  /** One more swap of the two positions just inside the reversed ends. */
  lemma PartlyReversedStep(s: seq<int>, base: nat, length: nat, i: nat, t: seq<int>)
    requires base + length <= |s| && 2 * i < length
    requires t == PartlyReversed(s, base, length, i)
    ensures t[base + i := t[base + length - 1 - i]][base + length - 1 - i := t[base + i]]
            == PartlyReversed(s, base, length, i + 1)
  {
  }

  /** Once the ends meet, the slice is reversed and the rest unchanged. */
  lemma PartlyReversedDone(s: seq<int>, base: nat, length: nat, i: nat)
    requires base + length <= |s| && length <= 2 * i <= length + 1
    ensures PartlyReversed(s, base, length, i)
            == s[..base] + Reversed(s[base..base + length]) + s[base + length..]
  {
    var was := s[base..base + length];
    forall k | 0 <= k < |s|
      ensures PartlyReversed(s, base, length, i)[k]
              == (s[..base] + Reversed(was) + s[base + length..])[k]
    {
      if base <= k < base + length {
        ReversedAt(was, k - base);
      }
    }
  }

  /** Reverses the `length` elements starting at `xs[base]`, swapping from both ends towards the
      middle; a non-positive length does nothing. No element outside the slice changes. */
  method Reverse(xs: array<int>, base: nat, length: int)
    requires length > 0 ==> base + length <= xs.Length
    modifies xs
    ensures length <= 0 ==> xs[..] == old(xs[..])
    ensures length > 0 ==>
      xs[..] == old(xs[..base]) + Reversed(old(xs[base..base + length])) + old(xs[base + length..])
  {
    if length <= 0 {
      return;
    }
    ghost var was := xs[..];
    var i := 0;
    var j := length;
    while i < j
      invariant 0 <= i <= j + 1 && j <= length && i + j == length && i <= length
      invariant xs[..] == PartlyReversed(was, base, length, i)
    {
      j := j - 1;
      PartlyReversedStep(was, base, length, i, xs[..]);
      Exchange(xs, base + i, base + j);
      i := i + 1;
    }
    PartlyReversedDone(was, base, length, i);
  }

  /** The sorting routine of lab 2.5 has an empty body: the array is left as it was. */
  method Quicksort(xs: array<int>, length: int)
    modifies xs
    ensures xs[..] == old(xs[..])
  {
  }
}
