/**
  The bit-reversal permutation that FFT::bitReverseCopy applies before the
  butterfly network: index i goes to rev(i), the lgN low bits of i read in
  reverse order.
 */
module BitReversal {
  import opened PowerOfTwo

  /** rev(x): the b low bits of x written in reverse order. The lowest bit of x
      becomes the highest of the b result bits. */
  function BitRev(x: nat, b: nat): (r: nat)
    ensures r < Pow2(b)
  {
    if b == 0 then 0 else (x % 2) * Pow2(b - 1) + BitRev(x / 2, b - 1)
  }

  /** x shifted right by b bits (x >> b). */
  function Shr(x: nat, b: nat): nat
  {
    if b == 0 then x else Shr(x / 2, b - 1)
  }

  /** One more right shift. */
  lemma {:induction false} ShrStep(x: nat, b: nat)
    ensures Shr(x, b) / 2 == Shr(x, b + 1)
  {
    if b > 0 {
      ShrStep(x / 2, b - 1);
    }
  }

  /** Reading one more bit: the reversal of b+1 bits is the reversal of the low
      b bits shifted left, followed by bit b of x. This is the step
      `rev = (rev << 1) | (index & 1)` of bitReverseCopy. */
  lemma {:induction false} BitRevStep(x: nat, b: nat)
    ensures BitRev(x, b + 1) == 2 * BitRev(x, b) + Shr(x, b) % 2
  {
    if b > 0 {
      BitRevStep(x / 2, b - 1);
      assert Pow2(b) == 2 * Pow2(b - 1);
    }
  }

  /** A bit above the b low bits changes neither their reversal, and shifting
      right by b bits recovers it. */
  lemma {:induction false} HighBit(c: nat, r: nat, b: nat)
    requires c < 2 && r < Pow2(b)
    ensures BitRev(c * Pow2(b) + r, b) == BitRev(r, b)
    ensures Shr(c * Pow2(b) + r, b) == c
  {
    if b > 0 {
      var z := c * Pow2(b) + r;
      var k := c * Pow2(b - 1);
      assert z == 2 * k + r;
      assert z % 2 == r % 2 && z / 2 == k + r / 2;
      HighBit(c, r / 2, b - 1);
    }
  }

  /** rev is an involution on [0, 2^b). */
  lemma {:induction false} BitRevInvolution(x: nat, b: nat)
    requires x < Pow2(b)
    ensures BitRev(BitRev(x, b), b) == x
  {
    if b > 0 {
      var c, r := x % 2, BitRev(x / 2, b - 1);
      var y := c * Pow2(b - 1) + r;
      assert BitRev(x, b) == y;
      assert x / 2 < Pow2(b - 1);
      BitRevStep(y, b - 1);
      HighBit(c, r, b - 1);
      BitRevInvolution(x / 2, b - 1);
    }
  }

  /** rev is injective on [0, 2^b), hence a bijection of [0, 2^b). */
  lemma BitRevInjective(x: nat, y: nat, b: nat)
    requires x < Pow2(b) && y < Pow2(b) && BitRev(x, b) == BitRev(y, b)
    ensures x == y
  {
    BitRevInvolution(x, b);
    BitRevInvolution(y, b);
  }

  /** The reordered buffer: position k receives the element at rev(k). Because
      rev is an involution this is the same as sending element i to rev(i). */
  function BitReversed<T>(s: seq<T>, lgN: nat): (t: seq<T>)
    requires Sized(|s|, lgN)
    ensures |t| == |s|
  {
    seq(|s|, k requires 0 <= k < |s| => s[BitRev(k, lgN)])
  }

  /** Element i of the input lands at position rev(i). */
  lemma BitReversedPlaces<T>(s: seq<T>, lgN: nat, i: nat)
    requires Sized(|s|, lgN) && i < |s|
    ensures BitRev(i, lgN) < |s| && BitReversed(s, lgN)[BitRev(i, lgN)] == s[i]
  {
    BitRevInvolution(i, lgN);
  }

  /** Reordering twice restores the buffer. */
  lemma BitReversedTwice<T>(s: seq<T>, lgN: nat)
    requires Sized(|s|, lgN)
    ensures BitReversed(BitReversed(s, lgN), lgN) == s
  {
    forall k | 0 <= k < |s|
      ensures BitReversed(BitReversed(s, lgN), lgN)[k] == s[k]
    {
      BitRevInvolution(k, lgN);
    }
  }

  /** c is s with the pairs (i', rev(i')) for i' < i already swapped. */
  ghost predicate SwappedBelow<T>(c: seq<T>, s: seq<T>, lgN: nat, i: nat)
    requires Sized(|s|, lgN) && |c| == |s|
  {
    forall k :: 0 <= k < |s| ==>
      c[k] == if k < i || BitRev(k, lgN) < i then s[BitRev(k, lgN)] else s[k]
  }

  /** Swapping the pair (i, rev(i)) when i < rev(i) extends the swapped part by
      one index and keeps the multiset of elements. */
  lemma SwapStep<T>(c: seq<T>, s: seq<T>, lgN: nat, i: nat) returns (c': seq<T>)
    requires Sized(|s|, lgN) && |c| == |s| && i < |s|
    requires SwappedBelow(c, s, lgN, i)
    ensures |c'| == |s| && multiset(c') == multiset(c)
    ensures SwappedBelow(c', s, lgN, i + 1)
  {
    var r := BitRev(i, lgN);
    BitRevInvolution(i, lgN);
    forall k | 0 <= k < |s| && BitRev(k, lgN) == i
      ensures k == r
    {
      BitRevInvolution(k, lgN);
    }
    c' := if i < r then c[i := c[r]][r := c[i]] else c;
  }

  /** The reordering is a permutation: it keeps every element with its
      multiplicity. The proof swaps each pair (i, rev(i)) once. */
  lemma BitReversedPermutes<T>(s: seq<T>, lgN: nat)
    requires Sized(|s|, lgN)
    ensures multiset(BitReversed(s, lgN)) == multiset(s)
  {
    var c, i := s, 0;
    while i < |s|
      invariant 0 <= i <= |s| && |c| == |s|
      invariant multiset(c) == multiset(s)
      invariant SwappedBelow(c, s, lgN, i)
    {
      c := SwapStep(c, s, lgN, i);
      i := i + 1;
    }
    assert c == BitReversed(s, lgN);
  }
}
