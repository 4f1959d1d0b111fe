/** Where the elements of a segmented array (`LogArray`) lie.

    Block `b` holds 2^(lo + b) elements until the size reaches 2^hi, and 2^hi from then on.
  */
module LogBlocks {
  import opened Bits
  import opened Split

  /** The number of elements in block `b`, and in all the blocks before it. */
  function SizeOf(lo: nat, hi: nat, b: nat): (n: nat)
    ensures n > 0
  {
    Pow2(if lo + b < hi then lo + b else hi)
  }

  function StartOf(lo: nat, hi: nat, b: nat): nat {
    if b == 0 then 0 else StartOf(lo, hi, b - 1) + SizeOf(lo, hi, b - 1)
  }

  /** `_NBlockFromEl`: the block of element `i`, its size, and the place of `i` in it; by division past the
      boundary, and by the logarithm before it. */
  predicate Fixed(lo: nat, hi: nat, i: nat) {
    i + Pow2(lo) >= Pow2(hi)
  }

  function BlockOf(lo: nat, hi: nat, i: nat): nat
    requires lo < hi
  {
    if Fixed(lo, hi, i) then hi - lo + High(i + Pow2(lo) - Pow2(hi), Pow2(hi))
    else if Msb(i + Pow2(lo)) >= lo then Msb(i + Pow2(lo)) - lo else 0
  }

  function BlockSizeOf(lo: nat, hi: nat, i: nat): nat {
    if Fixed(lo, hi, i) then Pow2(hi) else Pow2(Msb(i + Pow2(lo)))
  }

  function OffsetOf(lo: nat, hi: nat, i: nat): int {
    if Fixed(lo, hi, i) then Low(i + Pow2(lo) - Pow2(hi), Pow2(hi)) else i - (Pow2(Msb(i + Pow2(lo))) - Pow2(lo))
  }

  /** Below the boundary the blocks start one short of a power of two, lifted by the first power. */
  lemma {:induction false} StartsBelow(lo: nat, hi: nat, b: nat)
    requires lo + b <= hi
    ensures StartOf(lo, hi, b) == Pow2(lo + b) - Pow2(lo)
  {
    if b > 0 {
      StartsBelow(lo, hi, b - 1);
    }
  }

  lemma {:induction false} StartsAbove(lo: nat, hi: nat, q: nat)
    requires lo <= hi
    ensures StartOf(lo, hi, hi - lo + q) == Pow2(hi) - Pow2(lo) + Join(q, 0, Pow2(hi))
  {
    if q == 0 {
      StartsBelow(lo, hi, hi - lo);
    } else {
      StartsAbove(lo, hi, q - 1);
    }
  }

  lemma {:induction false} JoinOffset(q: nat, r: nat, k: nat)
    ensures Join(q, r, k) == Join(q, 0, k) + r
  {
    if q > 0 {
      JoinOffset(q - 1, r, k);
    }
  }

  lemma {:induction false} StartMono(lo: nat, hi: nat, a: nat, b: nat)
    requires a < b
    ensures StartOf(lo, hi, a) + SizeOf(lo, hi, a) <= StartOf(lo, hi, b)
  {
    if a + 1 < b {
      StartMono(lo, hi, a, b - 1);
    }
  }

  /** A block before the block `c` of element `x` ends before it. */
  lemma EndsBefore(lo: nat, hi: nat, b: nat, c: nat, o: nat, x: nat)
    requires b < c && StartOf(lo, hi, c) + o == x
    ensures StartOf(lo, hi, b) + SizeOf(lo, hi, b) <= x
  {
    StartMono(lo, hi, b, c);
  }

  lemma HoldsAbove(lo: nat, hi: nat, i: nat)
    requires lo < hi && Fixed(lo, hi, i)
    ensures BlockSizeOf(lo, hi, i) == SizeOf(lo, hi, BlockOf(lo, hi, i)) && 0 <= OffsetOf(lo, hi, i) < BlockSizeOf(lo, hi, i)
    ensures StartOf(lo, hi, BlockOf(lo, hi, i)) + OffsetOf(lo, hi, i) == i
  {
    var k := Pow2(hi);
    var x := i + Pow2(lo) - k;
    JoinSplit(x, k);
    PlaceAbove(lo, hi, k, High(x, k), Low(x, k));
  }

  lemma PlaceAbove(lo: nat, hi: nat, k: nat, q: nat, r: nat)
    requires lo < hi && k == Pow2(hi)
    ensures Pow2(lo) <= k
    ensures SizeOf(lo, hi, hi - lo + q) == k && StartOf(lo, hi, hi - lo + q) + r == Join(q, r, k) + k - Pow2(lo)
  {
    Pow2Mono(lo, hi);
    JoinOffset(q, r, k);
    StartsAbove(lo, hi, q);
  }

  lemma HoldsBelow(lo: nat, hi: nat, i: nat)
    requires lo < hi && !Fixed(lo, hi, i)
    ensures BlockSizeOf(lo, hi, i) == SizeOf(lo, hi, BlockOf(lo, hi, i)) && 0 <= OffsetOf(lo, hi, i) < BlockSizeOf(lo, hi, i)
    ensures StartOf(lo, hi, BlockOf(lo, hi, i)) + OffsetOf(lo, hi, i) == i
  {
    var w := i + Pow2(lo);
    MsbBetween(w, lo, hi);
    StartsBelow(lo, hi, Msb(w) - lo);
  }

  lemma MsbBetween(w: nat, lo: nat, hi: nat)
    requires Pow2(lo) <= w < Pow2(hi)
    ensures lo <= Msb(w) < hi && Pow2(Msb(w)) <= w < 2 * Pow2(Msb(w))
  {
    MsbBits(w);
    if Msb(w) < lo {
      Pow2Mono(Msb(w) + 1, lo);
    }
    if Msb(w) >= hi {
      Pow2Mono(hi, Msb(w));
    }
  }

  /** The block that is computed holds the element, at the place that is computed. */
  lemma BlockHolds(lo: nat, hi: nat, i: nat)
    requires lo < hi
    ensures BlockSizeOf(lo, hi, i) == SizeOf(lo, hi, BlockOf(lo, hi, i)) && 0 <= OffsetOf(lo, hi, i) < BlockSizeOf(lo, hi, i)
    ensures StartOf(lo, hi, BlockOf(lo, hi, i)) + OffsetOf(lo, hi, i) == i
  {
    if Fixed(lo, hi, i) {
      HoldsAbove(lo, hi, i);
    } else {
      HoldsBelow(lo, hi, i);
    }
  }

  lemma PlaceUnique(lo: nat, hi: nat, b: nat, o: nat, c: nat, p: nat)
    requires o < SizeOf(lo, hi, b) && p < SizeOf(lo, hi, c) && StartOf(lo, hi, b) + o == StartOf(lo, hi, c) + p
    ensures b == c && o == p
  {
    if b < c {
      StartMono(lo, hi, b, c);
    } else if c < b {
      StartMono(lo, hi, c, b);
    }
  }

  /** It is the only place where it could be. */
  lemma BlockUnique(lo: nat, hi: nat, i: nat, b: nat, o: nat)
    requires lo < hi && o < SizeOf(lo, hi, b) && StartOf(lo, hi, b) + o == i
    ensures BlockOf(lo, hi, i) == b && OffsetOf(lo, hi, i) == o
  {
    BlockHolds(lo, hi, i);
    PlaceUnique(lo, hi, b, o, BlockOf(lo, hi, i), OffsetOf(lo, hi, i));
  }

  /** Elements are ordered as their places are. */
  lemma BlockOrder(lo: nat, hi: nat, i: nat, j: nat)
    requires lo < hi && i < j
    ensures BlockOf(lo, hi, i) <= BlockOf(lo, hi, j)
    ensures BlockOf(lo, hi, i) == BlockOf(lo, hi, j) ==> OffsetOf(lo, hi, i) < OffsetOf(lo, hi, j)
  {
    BlockHolds(lo, hi, i);
    BlockHolds(lo, hi, j);
    if BlockOf(lo, hi, j) < BlockOf(lo, hi, i) {
      StartMono(lo, hi, BlockOf(lo, hi, j), BlockOf(lo, hi, i));
    }
  }

  /** From one block to the next the size doubles before the boundary, and stays from there on. */
  lemma SizesDouble(lo: nat, hi: nat, b: nat)
    requires lo < hi
    ensures SizeOf(lo, hi, b + 1) == if b < hi - lo then 2 * SizeOf(lo, hi, b) else SizeOf(lo, hi, b)
    ensures SizeOf(lo, hi, 0) == Pow2(lo)
  {
  }

  /** The number of blocks that `n` elements take. */
  function BlocksFor(lo: nat, hi: nat, n: nat): nat
    requires lo < hi
  {
    if n == 0 then 0 else BlockOf(lo, hi, n - 1) + 1
  }

  /** The next element is in the last block, or begins a new one. */
  lemma NextPlace(lo: nat, hi: nat, n: nat)
    requires lo < hi && n > 0
    ensures var b, c := BlockOf(lo, hi, n - 1), BlockOf(lo, hi, n);
      if OffsetOf(lo, hi, n) == 0 then c == b + 1 && n == StartOf(lo, hi, c) else c == b && OffsetOf(lo, hi, n) == OffsetOf(lo, hi, n - 1) + 1
  {
    BlockHolds(lo, hi, n - 1);
    var b, o := BlockOf(lo, hi, n - 1), OffsetOf(lo, hi, n - 1);
    if o + 1 < SizeOf(lo, hi, b) {
      BlockUnique(lo, hi, n, b, o + 1);
    } else {
      BlockUnique(lo, hi, n, b + 1, 0);
    }
  }

  /** One block is enough for as many elements as it holds, and no more. */
  lemma SingleBlock(lo: nat, hi: nat, n: nat)
    requires lo < hi
    ensures n <= Pow2(lo) <==> BlocksFor(lo, hi, n) <= 1
  {
    if n > 0 {
      BlockHolds(lo, hi, n - 1);
      if BlockOf(lo, hi, n - 1) > 0 {
        StartMono(lo, hi, 0, BlockOf(lo, hi, n - 1));
      }
    }
  }
}
