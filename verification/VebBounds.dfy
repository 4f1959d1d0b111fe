/** How deep the tree is, how its universe is split, and exactly which arguments of the checked delete and
    of FDeleteAllAfter the program gets wrong. */
module VebBounds {
  import opened Split
  import opened Bits
  import opened VebSet
  import opened VebLevel
  import opened VebLeaf
  import opened VebTree

  /** The levels above the leaves of a tree over 2^n elements are the logarithm of `n / 9`, rounded up: a tree
      is as deep as the logarithm of the logarithm of its universe. */
  lemma {:induction false} DepthIsLogLog(n: nat)
    ensures n <= 9 * Pow2(Depth(n))
    ensures n > 9 ==> 9 * Pow2(Depth(n) - 1) < n
  {
    if n > 9 {
      DepthIsLogLog(n - n / 2);
      if n - n / 2 > 9 {
        assert Pow2(Depth(n) - 1) == 2 * Pow2(Depth(n - n / 2) - 1);
      }
    }
  }

  // Splitting the universe

  /** `v_rgiBit`: the highest set bit of a nibble. */
  function NibbleBit(i: nat): nat
    requires i < 16
  {
    if i < 2 then 0 else if i < 4 then 1 else if i < 8 then 2 else 3
  }

  function Shift64(w: nat): nat {
    if w > 0xffff_ffff then
      if w > 0xffff_ffff_ffff then
        if w > 0xff_ffff_ffff_ffff then (if w > 0xfff_ffff_ffff_ffff then 60 else 56)
        else if w > 0xf_ffff_ffff_ffff then 52 else 48
      else
        if w > 0xff_ffff_ffff then (if w > 0xfff_ffff_ffff then 44 else 40)
        else if w > 0xf_ffff_ffff then 36 else 32
    else
      if w > 0xffff then
        if w > 0xff_ffff then (if w > 0xfff_ffff then 28 else 24)
        else if w > 0xf_ffff then 20 else 16
      else
        if w > 0xff then (if w > 0xfff then 12 else 8)
        else if w > 0xf then 4 else 0
  }

  /** `_KMSBitSet64`: shift the highest non-zero nibble down, and look it up. */
  function KMSBitSet64(w: nat): nat {
    NibbleBit((w / Pow2(Shift64(w))) % 16) + Shift64(w)
  }

  lemma {:induction false} MsbShift(w: nat, j: nat)
    requires w >= Pow2(j)
    ensures w / Pow2(j) > 0 && Msb(w) == j + Msb(w / Pow2(j))
  {
    if j > 0 {
      MsbShift(w / 2, j - 1);
      assert w / Pow2(j) == w / 2 / Pow2(j - 1) by {
        DivDiv(w, Pow2(j - 1));
      }
    }
  }

  lemma DivDiv(w: nat, p: nat)
    requires p > 0
    ensures w / (2 * p) == w / 2 / p
  {
    var q, r := w / (2 * p), w % (2 * p);
    assert w == 2 * (p * q) + r;
    assert w / 2 == p * q + r / 2;
    assert w / 2 / p == q by {
      QuotientUnique(q, r / 2, w / 2 / p, w / 2 % p, p);
    }
  }

  lemma Pow2Nibbles()
    ensures Pow2(4) == 0x10 && Pow2(8) == 0x100 && Pow2(12) == 0x1000 && Pow2(16) == 0x1_0000
    ensures Pow2(20) == 0x10_0000 && Pow2(24) == 0x100_0000 && Pow2(28) == 0x1000_0000 && Pow2(32) == 0x1_0000_0000
    ensures Pow2(36) == 0x10_0000_0000 && Pow2(40) == 0x100_0000_0000 && Pow2(44) == 0x1000_0000_0000
    ensures Pow2(48) == 0x1_0000_0000_0000 && Pow2(52) == 0x10_0000_0000_0000 && Pow2(56) == 0x100_0000_0000_0000
    ensures Pow2(60) == 0x1000_0000_0000_0000 && Pow2(64) == 0x1_0000_0000_0000_0000
  {
    Pow2Add(4, 4);
    Pow2Add(8, 4);
    Pow2Add(8, 8);
    Pow2Add(16, 4);
    Pow2Add(16, 8);
    Pow2Add(16, 12);
    Pow2Add(16, 16);
    Pow2Add(32, 4);
    Pow2Add(32, 8);
    Pow2Add(32, 12);
    Pow2Add(32, 16);
    Pow2Add(32, 20);
    Pow2Add(32, 24);
    Pow2Add(32, 28);
    Pow2Add(32, 32);
  }

  lemma Shift64Bounds(w: nat)
    requires 0 < w < 0x1_0000_0000_0000_0000
    ensures Shift64(w) == 0 || Pow2(Shift64(w)) <= w
    ensures w < 16 * Pow2(Shift64(w))
  {
    Pow2Nibbles();
  }

  lemma QuotientBound(w: nat, c: nat, p: nat)
    requires p > 0 && w < c * p
    ensures w / p < c
  {
    if w / p >= c {
      MulMono(c, w / p, p);
    }
  }

  lemma NibbleIsMsb(i: nat)
    requires 0 < i < 16
    ensures NibbleBit(i) == Msb(i)
  {
    if i >= 8 {
      assert i / 2 / 2 / 2 == 1;
    } else if i >= 4 {
      assert i / 2 / 2 == 1;
    } else if i >= 2 {
      assert i / 2 == 1;
    }
  }

  /** The branches and the table find the highest set bit. */
  lemma KMSBitSetIsMsb(w: nat)
    requires w < 0x1_0000_0000_0000_0000
    ensures w == 0 ==> KMSBitSet64(w) == 0
    ensures w > 0 ==> KMSBitSet64(w) == Msb(w)
  {
    if w > 0 {
      var j := Shift64(w);
      Shift64Bounds(w);
      MsbShift(w, j);
      QuotientBound(w, 16, Pow2(j));
      NibbleIsMsb(w / Pow2(j));
    }
  }

  /** `LowerSqrt` and `UpperSqrt` of a power of two. */
  function LowerSqrt(u: nat): nat {
    Pow2(KMSBitSet64(u) / 2)
  }

  function UpperSqrt(u: nat): nat {
    Pow2(KMSBitSet64(u) / 2 + KMSBitSet64(u) % 2)
  }

  lemma {:induction false} MsbOfPow2(n: nat)
    ensures Msb(Pow2(n)) == n
  {
    if n > 0 {
      MsbOfPow2(n - 1);
      assert Pow2(n) / 2 == Pow2(n - 1);
    }
  }

  lemma SqrtsOf(u: nat)
    requires 0 < u < 0x1_0000_0000_0000_0000
    ensures LowerSqrt(u) == Pow2(Msb(u) / 2) && UpperSqrt(u) == Pow2(Msb(u) - Msb(u) / 2)
  {
    KMSBitSetIsMsb(u);
  }

  /** They are the number of clusters and the size of one, and their product is the universe. */
  lemma Sqrts(n: nat, u: nat)
    requires n < 64 && u == Pow2(n)
    ensures LowerSqrt(u) == Clusters(n) && UpperSqrt(u) == ClusterSize(n)
    ensures Clusters(n) * ClusterSize(n) == u
  {
    assert u < 0x1_0000_0000_0000_0000 by {
      Pow2Mono(n, 64);
      Pow2Nibbles();
    }
    SqrtsOf(u);
    MsbOfPow2(n);
    Pow2Add(n / 2, n - n / 2);
  }

  // The exception of the checked delete

  /** The offset in a part of a part is the offset in the part. */
  lemma {:induction false} LowLow(x: nat, m: nat, k: nat, mk: nat)
    requires mk == m * k && m > 0 && k > 0
    ensures mk > 0 && Low(Low(x, mk), k) == Low(x, k)
  {
    MulMono(1, m, k);
    if x >= mk {
      LowLow(x - mk, m, k, mk);
      LowDown(x, m, k);
    }
  }

  lemma {:induction false} LowDown(x: nat, m: nat, k: nat)
    requires k > 0 && m * k <= x
    ensures Low(x - m * k, k) == Low(x, k)
  {
    if m > 0 {
      assert m * k == (m - 1) * k + k;
      MulMono(0, m - 1, k);
      LowDown(x - k, m - 1, k);
    }
  }

  /** It throws only for an element whose last sixteen bits are ones, in a tree of 2^16 elements or more. */
  lemma {:induction false} ThrowsOnlyAtOnes(n: nat, s: set<nat>, x: nat)
    requires n < 64 && x < Pow2(n) && CheckDeleteThrows(n, s, x)
    ensures n >= 16 && Low(x, 65536) == 65535
    decreases n
  {
    Pow2Nibbles();
    if s == {} && x == Decrement(n, 0) {
      Pow2Mono(n, IndexBits(n));
      assert n == 16 || n == 32;
      Pow2Add(n - 16, 16);
      JoinIsMulAdd(Pow2(n - 16) - 1, 65535, 65536);
      SplitJoin(Pow2(n - 16) - 1, 65535, 65536);
    } else {
      SplitInjective(x, ClusterSize(n));
      ThrowsOnlyAtOnes(n - n / 2, ClusterOf(n, s, High(x, ClusterSize(n))), Low(x, ClusterSize(n)));
      Pow2Add(n - n / 2 - 16, 16);
      LowLow(x, Pow2(n - n / 2 - 16), 65536, ClusterSize(n));
    }
  }

  /** In a tree of 2^16 elements it throws for exactly one argument, in exactly one state. */
  lemma ThrowsAt16(s: set<nat>, x: nat)
    requires x < 65536
    ensures CheckDeleteThrows(16, s, x) <==> s == {} && x == 65535
  {
    Pow2Nibbles();
    SplitInjective(x, ClusterSize(16));
    CheckDeleteNeverThrows(8, ClusterOf(16, s, High(x, ClusterSize(16))), Low(x, ClusterSize(16)));
  }

  /** In one of 2^32 elements: for the greatest element of the empty tree, and for the last element of an
      empty cluster of a tree that does not hold exactly one element. */
  lemma ThrowsAt32(s: set<nat>, x: nat)
    requires x < 0x1_0000_0000
    ensures CheckDeleteThrows(32, s, x) <==>
      (s == {} && x == 0xffff_ffff)
      || (|s| != 1 && x !in s && Low(x, 65536) == 65535 && forall y :: y in s && High(y, 65536) == High(x, 65536) ==> IsMin(s, y))
  {
    Pow2Nibbles();
    var c := ClusterOf(32, s, High(x, 65536));
    SplitInjective(x, 65536);
    ThrowsAt16(c, Low(x, 65536));
    if y :| y in s && High(y, 65536) == High(x, 65536) && !IsMin(s, y) {
      assert Low(y, 65536) in c;
    } else {
      assert c == {};
    }
  }

  // The wrap of FDeleteAllAfter

  /** The universes 2^n in which FDeleteAllAfter can break a tree: those where the 256-element leaf is reached
      through a summary. */
  predicate MayWrap(n: nat) {
    n == 8 || n == 16 || n == 17 || 31 <= n <= 35 || 61 <= n <= 63
  }

  /** In all the others it does not. */
  lemma {:induction false} NeverWraps(n: nat, s: set<nat>, x: nat)
    requires n < 64 && x < Pow2(n) && !MayWrap(n)
    ensures !DeleteAfterWraps(n, s, x)
    decreases n
  {
    if n > 9 {
      var k := ClusterSize(n);
      UniverseSplits(n);
      SplitInjective(x, k);
      NextInWord(x, k);
      var c, e := High(x, k), Low(x, k);
      if n - n / 2 == 8 {
        assert Pow2(8) == 256;
      } else {
        NeverWraps(n - n / 2, ClusterOf(n, s, c), e);
      }
      NeverWraps(n / 2, NamesLeft(n, s, x), c);
    }
  }

  /** A set and an argument that make it break the tree. */
  ghost predicate Wrapping(n: nat, s: set<nat>, x: nat) {
    && DeleteAfterWraps(n, s, x) && Straddles(s, x) && x < Pow2(n) && (n > 8 ==> x + 1 < Pow2(n))
    && forall y :: y in s ==> y < Pow2(n)
  }

  /** Names `t` on which it breaks the summary, spread over the clusters. */
  ghost function Spread(t: set<nat>, k: nat): set<nat> {
    {0} + set i | i in t :: Join(i, 1, k)
  }

  /** A set `t` on which it breaks a cluster, put in cluster 1. */
  ghost function Moved(t: set<nat>, k: nat): set<nat> {
    {0} + set e | e in t :: Join(1, e, k)
  }

  lemma JoinRoom(c: nat, e: nat, n: nat)
    requires 9 < n && e < ClusterSize(n) && c < Clusters(n) && (e + 1 < ClusterSize(n) || c + 1 < Clusters(n))
    ensures Join(c, e, ClusterSize(n)) + 1 < Pow2(n)
  {
    var k := ClusterSize(n);
    UniverseSplits(n);
    SplitJoin(c, e, k);
    NextInWord(Join(c, e, k), k);
    assert High(Join(c, e, k) + 1, k) < Clusters(n);
  }

  /** Places at offset `e` or less of the clusters are in the universe. */
  lemma JoinIn(c: nat, e: nat, n: nat)
    requires 9 < n && e < ClusterSize(n) && c < Clusters(n)
    ensures Join(c, e, ClusterSize(n)) < Pow2(n)
  {
    UniverseSplits(n);
    SplitJoin(c, e, ClusterSize(n));
  }

  lemma WideCluster(n: nat)
    requires 9 < n
    ensures ClusterSize(n) >= 4 && Clusters(n) >= 4
  {
    Pow2Mono(2, n - n / 2);
    Pow2Mono(2, n / 2);
    assert Pow2(2) == 4;
  }

  lemma JoinNotAfter(c: nat, i: nat, e: nat, f: nat, k: nat)
    requires e < k && f < k && (c < i || (c == i && e <= f))
    ensures Join(c, e, k) <= Join(i, f, k)
  {
    SplitJoin(c, e, k);
    SplitJoin(i, f, k);
    SplitOrder(Join(i, f, k), Join(c, e, k), k);
  }

  lemma SpreadWraps(n: nat, t: set<nat>, c: nat)
    requires 9 < n && Wrapping(n / 2, t, c)
    ensures Wrapping(n, Spread(t, ClusterSize(n)), Join(c, 1, ClusterSize(n)))
  {
    var k := ClusterSize(n);
    var s, x := Spread(t, k), Join(c, 1, k);
    WideCluster(n);
    JoinRoom(c, 1, n);
    SpreadNames(n, t, c);
    SplitJoin(c, 1, k);
    forall y | y in s
      ensures y < Pow2(n)
    {
      if i :| i in t && y == Join(i, 1, k) {
        JoinIn(i, 1, n);
      }
    }
    var i :| i in t && c <= i;
    JoinNotAfter(c, i, 1, 1, k);
    assert 0 in s && Join(i, 1, k) in s;
    assert Straddles(s, x);
  }

  lemma SpreadNames(n: nat, t: set<nat>, c: nat)
    requires 9 < n
    ensures NamesLeft(n, Spread(t, ClusterSize(n)), Join(c, 1, ClusterSize(n))) == t
  {
    var k := ClusterSize(n);
    var s, x := Spread(t, k), Join(c, 1, k);
    assert k >= 4 by {
      Pow2Mono(2, n - n / 2);
      assert Pow2(2) == 4;
    }
    SplitFacts(k);
    assert IsMin(s, 0);
    forall i
      ensures i in SummaryOf(n, s) <==> i in t
    {
      if i in t {
        assert Join(i, 1, k) in s && !IsMin(s, Join(i, 1, k));
      }
    }
    assert SummaryOf(n, s) == t;
    if c in t {
      assert x in s && !IsMin(s, x);
      assert 1 in Below(ClusterOf(n, s, c), Low(x, k) + 1);
    } else {
      assert t - {c} == t;
    }
  }

  lemma WrapsInside(n: nat, s: set<nat>, x: nat, t: set<nat>, e: nat)
    requires 9 < n && Straddles(s, x) && Low(x + 1, ClusterSize(n)) != 0 && e == Low(x, ClusterSize(n))
    requires ClusterOf(n, s, High(x, ClusterSize(n))) == t && DeleteAfterWraps(n - n / 2, t, e)
    ensures DeleteAfterWraps(n, s, x)
  {
  }

  lemma MovedBounds(n: nat, t: set<nat>, e: nat)
    requires 9 < n && Straddles(t, e) && forall f :: f in t ==> f < ClusterSize(n)
    requires e < ClusterSize(n)
    ensures var s, x := Moved(t, ClusterSize(n)), Join(1, e, ClusterSize(n));
      Straddles(s, x) && forall y :: y in s ==> y < Pow2(n)
  {
    var k := ClusterSize(n);
    var s, x := Moved(t, k), Join(1, e, k);
    WideCluster(n);
    forall y | y in s
      ensures y < Pow2(n)
    {
      if f :| f in t && y == Join(1, f, k) {
        JoinIn(1, f, n);
      }
    }
    var f :| f in t && e <= f;
    JoinNotAfter(1, 1, e, f, k);
    assert 0 in s && Join(1, f, k) in s;
  }

  lemma MovedWraps(n: nat, t: set<nat>, e: nat)
    requires 9 < n && Wrapping(n - n / 2, t, e) && n - n / 2 > 8
    ensures Wrapping(n, Moved(t, ClusterSize(n)), Join(1, e, ClusterSize(n)))
  {
    var k := ClusterSize(n);
    var s, x := Moved(t, k), Join(1, e, k);
    WideCluster(n);
    JoinRoom(1, e, n);
    MovedBounds(n, t, e);
    MovedCluster(n, t);
    SplitJoin(1, e, k);
    NextInWord(x, k);
    WrapsInside(n, s, x, t, e);
  }

  lemma MovedCluster(n: nat, t: set<nat>)
    requires 9 < n && forall f :: f in t ==> f < ClusterSize(n)
    ensures ClusterOf(n, Moved(t, ClusterSize(n)), 1) == t
  {
    var k := ClusterSize(n);
    var s := Moved(t, k);
    assert IsMin(s, 0);
    forall f
      ensures f in ClusterOf(n, s, 1) <==> f in t
    {
      if f in t {
        SplitJoin(1, f, k);
        assert Join(1, f, k) in s && !IsMin(s, Join(1, f, k));
      }
      if f in ClusterOf(n, s, 1) {
        var y :| y in s && High(y, k) == 1 && Low(y, k) == f;
        var g :| g in t && y == Join(1, g, k);
        SplitJoin(1, g, k);
      }
    }
  }

  lemma {:induction false} SomeWraps(n: nat) returns (s: set<nat>, x: nat)
    requires MayWrap(n)
    ensures Wrapping(n, s, x)
  {
    if n == 8 {
      s, x := {255}, 255;
      assert Pow2(8) == 256;
      assert 255 in s;
    } else if MayWrap(n / 2) {
      var t, c := SomeWraps(n / 2);
      s, x := Spread(t, ClusterSize(n)), Join(c, 1, ClusterSize(n));
      SpreadWraps(n, t, c);
    } else {
      var t, e := SomeWraps(n - n / 2);
      s, x := Moved(t, ClusterSize(n)), Join(1, e, ClusterSize(n));
      MovedWraps(n, t, e);
    }
  }

  /** FDeleteAllAfter( x ) breaks a tree that holds `s`. */
  ghost predicate Breaks(n: nat, s: set<nat>, x: nat) {
    x < Pow2(n) && (forall y :: y in s ==> y < Pow2(n)) && DeleteAfterWraps(n, s, x)
  }

  /** The universes in which it can are exactly those. */
  lemma WrapsWhere(n: nat)
    requires n < 64
    ensures MayWrap(n) <==> exists s, x :: Breaks(n, s, x)
  {
    if MayWrap(n) {
      var s, x := SomeWraps(n);
      assert Breaks(n, s, x);
    } else {
      forall s, x | Breaks(n, s, x)
        ensures false
      {
        NeverWraps(n, s, x);
      }
    }
  }

  /** Where the summary is that leaf, it breaks the tree exactly when `x` is in the last cluster and within the
      tree's extremes, and some member other than the minimum is to stay. */
  lemma WrapsAt16(n: nat, s: set<nat>, x: nat)
    requires n == 16 || n == 17
    requires x < Pow2(n) && forall y :: y in s ==> y < Pow2(n)
    ensures DeleteAfterWraps(n, s, x) <==>
      High(x, ClusterSize(n)) == 255 && Straddles(s, x) && exists y :: y in s && y <= x && !IsMin(s, y)
  {
    var k := ClusterSize(n);
    assert Pow2(8) == 256;
    SplitInjective(x, k);
    NextInWord(x, k);
    var c, e := High(x, k), Low(x, k);
    var left := NamesLeft(n, s, x);
    if c == 255 {
      if y :| y in s && y <= x && !IsMin(s, y) {
        SplitOrder(x, y, k);
        if High(y, k) == c {
          assert Low(y, k) in Below(ClusterOf(n, s, c), e + 1);
        }
        assert High(y, k) in left;
      }
      if i :| i in left {
        LeftBelow(n, s, x, i);
      }
    }
  }

  lemma LeftBelow(n: nat, s: set<nat>, x: nat, i: nat)
    requires (n == 16 || n == 17) && High(x, ClusterSize(n)) == 255 && i in NamesLeft(n, s, x) && forall y :: y in s ==> y < Pow2(n)
    ensures exists y :: y in s && y <= x && !IsMin(s, y)
  {
    var k := ClusterSize(n);
    UniverseSplits(n);
    assert Clusters(n) == 256 by {
      assert Pow2(8) == 256;
    }
    var cut := Below(ClusterOf(n, s, 255), Low(x, k) + 1);
    if cut != {} {
      var e :| e in cut;
      var y :| y in s && High(y, k) == 255 && !IsMin(s, y) && Low(y, k) == e;
      SplitOrder(x, y, k);
    } else {
      var y :| y in s && !IsMin(s, y) && High(y, k) == i;
      SplitOrder(x, y, k);
    }
  }

  /** For example, keeping `{1, 2}` of `{1, 2, 65535}` leaves a tree whose summary no longer names the cluster
      of 2. */
  lemma WrapExample()
    ensures DeleteAfterWraps(16, {1, 2, 65535}, 65534)
  {
    var s: set<nat> := {1, 2, 65535};
    assert 2 in s && !IsMin(s, 2) by {
      assert 1 in s;
    }
    assert 1 in s && 65535 in s;
    Pow2Nibbles();
    DivMod(65534, 256);
    WrapsAt16(16, s, 65534);
  }
}
