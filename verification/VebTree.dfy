/** The fixed-size van Emde Boas tree (`VebTreeFixed`). */
module VebTree {
  import opened Split
  import opened Bits
  import opened VebSet
  import opened VebLevel
  import opened VebLeaf

  /** Bits of the index type of a universe of 2^n elements (`KNextIntegerSize`). */
  function IndexBits(n: nat): nat {
    if n <= 8 then 8 else if n <= 16 then 16 else if n <= 32 then 32 else 64
  }

  /** `_x + 1` and `_x - 1` in the index type, which wrap. */
  function Increment(n: nat, x: nat): nat {
    if x + 1 == Pow2(IndexBits(n)) then 0 else x + 1
  }

  function Decrement(n: nat, x: nat): nat {
    if x == 0 then Pow2(IndexBits(n)) - 1 else x - 1
  }

  /** Elements in a cluster (`s_kstUniverseSqrtUpper`) and number of clusters (`s_kstUniverseSqrtLower`). */
  function ClusterSize(n: nat): (k: nat)
    ensures k > 0
  {
    Pow2(n - n / 2)
  }

  function Clusters(n: nat): nat {
    Pow2(n / 2)
  }

  lemma UniverseSplits(n: nat)
    ensures forall x: nat :: x < Pow2(n) <==> High(x, ClusterSize(n)) < Clusters(n)
  {
    Pow2Add(n / 2, n - n / 2);
    JoinIsMulAdd(Clusters(n), 0, ClusterSize(n));
    forall x: nat
      ensures x < Pow2(n) <==> High(x, ClusterSize(n)) < Clusters(n)
    {
      SplitBound(x, Clusters(n), ClusterSize(n));
    }
  }

  /** Every element fits the index type, so the stored `min + 1` gives the minimum back even where it wraps. */
  lemma IndexWide(n: nat)
    requires n < 64
    ensures Pow2(n) <= Pow2(IndexBits(n))
    ensures forall x: nat :: x < Pow2(n) ==> Decrement(n, Increment(n, x)) == x
  {
    Pow2Mono(n, IndexBits(n));
  }

  /** What the two extremes a node stores say about its set. */
  ghost predicate Extremes(n: nat, minPlusOne: nat, max: nat, s: set<nat>) {
    if s == {} then minPlusOne == 0 && max == 0 else IsMin(s, Decrement(n, minPlusOne)) && IsMax(s, max)
  }

  /** What the fields of a node say about its set. */
  ghost predicate Fields(n: nat, minPlusOne: nat, max: nat, s: set<nat>, parts: seq<set<nat>>, sum: set<nat>) {
    && Level(ClusterSize(n), Clusters(n), s, Decrement(n, minPlusOne), parts, sum)
    && Extremes(n, minPlusOne, max, s)
  }

  /** The tests `_NMax() >= _NMin()` and `_NMin() == _NMax()` are exact. */
  lemma FieldTests(n: nat, minPlusOne: nat, max: nat, s: set<nat>, parts: seq<set<nat>>, sum: set<nat>)
    requires Fields(n, minPlusOne, max, s, parts, sum)
    ensures max >= Decrement(n, minPlusOne) <==> s != {}
    ensures max == Decrement(n, minPlusOne) <==> s == {max}
    ensures s != {} && max != Decrement(n, minPlusOne) ==> sum != {}
    ensures forall x :: x in s ==> x < Pow2(n)
  {
    assert Pow2(IndexBits(n)) >= 2;
    UniverseSplits(n);
    if s != {} && max != Decrement(n, minPlusOne) {
      NotAlone(ClusterSize(n), Clusters(n), s, Decrement(n, minPlusOne), parts, sum, max);
    }
  }

  /** A node left with nothing. */
  lemma EmptyFields(n: nat, minPlusOne: nat, max: nat, s: set<nat>, parts: seq<set<nat>>, sum: set<nat>)
    requires Fields(n, minPlusOne, max, s, parts, sum) && s <= {max}
    ensures Fields(n, 0, 0, {}, parts, sum)
  {
    if s == {} {
      MinAlone(ClusterSize(n), Clusters(n), s, max, parts, sum, Decrement(n, 0));
    } else {
      assert max in s;
      MinAlone(ClusterSize(n), Clusters(n), s, Decrement(n, minPlusOne), parts, sum, Decrement(n, 0));
    }
  }

  /** Insert in an empty node. */
  lemma FirstFields(n: nat, minPlusOne: nat, max: nat, s: set<nat>, parts: seq<set<nat>>, sum: set<nat>, x: nat)
    requires n < 64 && Fields(n, minPlusOne, max, s, parts, sum) && s == {} && x < Pow2(n)
    ensures Fields(n, Increment(n, x), x, {x}, parts, sum)
  {
    IndexWide(n);
    UniverseSplits(n);
    InsertFirst(ClusterSize(n), Clusters(n), s, Decrement(n, minPlusOne), parts, sum, x);
  }

  /** Insert in a node that has a minimum: the greater of `x` and the minimum goes to its cluster. */
  lemma InsertFields(n: nat, minPlusOne: nat, max: nat, s: set<nat>, parts: seq<set<nat>>, sum: set<nat>, x: nat, y: nat)
    requires n < 64 && Fields(n, minPlusOne, max, s, parts, sum) && s != {} && x !in s && x < Pow2(n)
    requires y == if x < Decrement(n, minPlusOne) then Decrement(n, minPlusOne) else x
    ensures High(y, ClusterSize(n)) < |parts| && Low(y, ClusterSize(n)) < ClusterSize(n)
    ensures !InPart(parts, y, ClusterSize(n))
    ensures Fields(n, if x < Decrement(n, minPlusOne) then Increment(n, x) else minPlusOne, if y > max then y else max,
              s + {x}, With(parts, y, ClusterSize(n)), sum + {High(y, ClusterSize(n))})
  {
    IndexWide(n);
    UniverseSplits(n);
    SplitInjective(y, ClusterSize(n));
    InsertNext(ClusterSize(n), Clusters(n), s, Decrement(n, minPlusOne), parts, sum, x, y);
  }

  /** Checked insert above the minimum, whether or not `x` is a member. */
  lemma CheckInsertFields(n: nat, minPlusOne: nat, max: nat, s: set<nat>, parts: seq<set<nat>>, sum: set<nat>, x: nat)
    requires n < 64 && Fields(n, minPlusOne, max, s, parts, sum) && s != {} && x < Pow2(n)
    requires Decrement(n, minPlusOne) < x
    ensures High(x, ClusterSize(n)) < |parts| && Low(x, ClusterSize(n)) < ClusterSize(n)
    ensures InPart(parts, x, ClusterSize(n)) <==> x in s
    ensures Fields(n, minPlusOne, if x > max then x else max,
              s + {x}, With(parts, x, ClusterSize(n)), sum + {High(x, ClusterSize(n))})
  {
    if x in s {
      NotAlone(ClusterSize(n), Clusters(n), s, Decrement(n, minPlusOne), parts, sum, x);
      var i, e := High(x, ClusterSize(n)), Low(x, ClusterSize(n));
      assert parts[i] + {e} == parts[i];
      assert s + {x} == s && sum + {i} == sum && With(parts, x, ClusterSize(n)) == parts;
    } else {
      InsertFields(n, minPlusOne, max, s, parts, sum, x, x);
    }
  }

  /** Levels of nodes above the leaves. */
  function Depth(n: nat): nat {
    if n <= 9 then 0 else 1 + Depth(n - n / 2)
  }

  /** The levels that a delete visits, at most: two a level, and one at the bottom. */
  function DeleteCost(n: nat): (r: nat)
    ensures n > 9 ==> r == DeleteCost(n - n / 2) + 2
  {
    2 * Depth(n) + 1
  }

  lemma DepthSmall(n: nat)
    requires n < 64
    ensures Depth(n) <= 3
  {
    DepthMono(n, 63);
    assert Depth(63) == 1 + Depth(32) && Depth(32) == 1 + Depth(16) && Depth(16) == 1;
  }

  lemma {:induction false} DepthMono(a: nat, b: nat)
    requires a <= b
    ensures Depth(a) <= Depth(b)
    decreases b
  {
    if a > 9 {
      DepthMono(a - a / 2, b - b / 2);
    }
  }

  /** Deleting the minimum: its place is taken by `y`, the least member of the first cluster. */
  lemma PromoteFields(n: nat, minPlusOne: nat, max: nat, s: set<nat>, parts: seq<set<nat>>, sum: set<nat>, c: nat, e: nat)
    requires n < 64 && Fields(n, minPlusOne, max, s, parts, sum) && s != {} && Decrement(n, minPlusOne) != max
    requires IsMin(sum, c) && IsMin(parts[c], e)
    ensures var y := Join(c, e, ClusterSize(n));
      IsMin(s - {Decrement(n, minPlusOne)}, y) && y < Pow2(n) && Decrement(n, Increment(n, y)) == y
  {
    IndexWide(n);
    UniverseSplits(n);
    NextMin(ClusterSize(n), Clusters(n), s, Decrement(n, minPlusOne), parts, sum, c, e);
  }

  /** What a node's fields have to satisfy between the removal of `y` from its cluster and the repair of
      the maximum: everything but the maximum describes `s`, and `max` bounds `s`. */
  ghost predicate MaxStale(n: nat, minPlusOne: nat, max: nat, s: set<nat>, parts: seq<set<nat>>, sum: set<nat>) {
    && Level(ClusterSize(n), Clusters(n), s, Decrement(n, minPlusOne), parts, sum)
    && IsMin(s, Decrement(n, minPlusOne))
    && (forall z :: z in s ==> z <= max)
  }

  /** Removing `x` from a node with other members. */
  lemma DeleteFields(n: nat, minPlusOne: nat, max: nat, s: set<nat>, parts: seq<set<nat>>, sum: set<nat>, x: nat, y: nat, min': nat)
    requires Fields(n, minPlusOne, max, s, parts, sum) && x in s && Decrement(n, minPlusOne) != max
    requires if x == Decrement(n, minPlusOne) then IsMin(s - {x}, y) && Decrement(n, min') == y
             else y == x && min' == minPlusOne
    ensures InPart(parts, y, ClusterSize(n))
    ensures var parts' := Without(parts, y, ClusterSize(n));
      MaxStale(n, min', max, s - {x}, parts', SumWithout(parts', sum, High(y, ClusterSize(n))))
    ensures y != max ==> IsMax(s - {x}, max)
  {
    DeleteNext(ClusterSize(n), Clusters(n), s, Decrement(n, minPlusOne), parts, sum, x, y);
  }

  /** The three ways the maximum is found again. */
  lemma MaxOfMin(n: nat, minPlusOne: nat, max: nat, s: set<nat>, parts: seq<set<nat>>, sum: set<nat>)
    requires MaxStale(n, minPlusOne, max, s, parts, sum) && sum == {}
    ensures IsMax(s, Decrement(n, minPlusOne))
  {
    forall z | z in s
      ensures z <= Decrement(n, minPlusOne)
    {
      if z != Decrement(n, minPlusOne) {
        NotAlone(ClusterSize(n), Clusters(n), s, Decrement(n, minPlusOne), parts, sum, z);
      }
    }
  }

  lemma MaxOfLast(n: nat, minPlusOne: nat, max: nat, s: set<nat>, parts: seq<set<nat>>, sum: set<nat>, c: nat, e: nat)
    requires MaxStale(n, minPlusOne, max, s, parts, sum) && IsMax(sum, c) && IsMax(parts[c], e)
    ensures IsMax(s, Join(c, e, ClusterSize(n)))
  {
    LevelMax(ClusterSize(n), Clusters(n), s, Decrement(n, minPlusOne), parts, sum, c, e);
  }

  lemma MaxOfSame(n: nat, minPlusOne: nat, max: nat, s: set<nat>, parts: seq<set<nat>>, sum: set<nat>, e: nat)
    requires MaxStale(n, minPlusOne, max, s, parts, sum) && High(max, ClusterSize(n)) < Clusters(n)
    requires IsMax(parts[High(max, ClusterSize(n))], e)
    ensures IsMax(s, Join(High(max, ClusterSize(n)), e, ClusterSize(n)))
  {
    MaxStays(ClusterSize(n), Clusters(n), s, Decrement(n, minPlusOne), parts, sum, max, e);
  }

  /** The answer of a checked delete, or the exception "No elements in tree." */
  datatype Checked = Answer(f: bool) | Thrown

  /** What cluster `i` of a node with set `s` holds. */
  ghost function ClusterOf(n: nat, s: set<nat>, i: nat): set<nat> {
    set x | x in s && High(x, ClusterSize(n)) == i && !IsMin(s, x) :: Low(x, ClusterSize(n))
  }

  lemma ClusterIsPart(n: nat, minPlusOne: nat, max: nat, s: set<nat>, parts: seq<set<nat>>, sum: set<nat>, i: nat)
    requires Fields(n, minPlusOne, max, s, parts, sum) && i < Clusters(n)
    ensures ClusterOf(n, s, i) == parts[i]
  {
    forall e | e in parts[i]
      ensures e in ClusterOf(n, s, i)
    {
      FromPart(ClusterSize(n), Clusters(n), s, Decrement(n, minPlusOne), parts, sum, i, e);
    }
    forall x | x in s && High(x, ClusterSize(n)) == i && !IsMin(s, x)
      ensures Low(x, ClusterSize(n)) in parts[i]
    {
      NotAlone(ClusterSize(n), Clusters(n), s, Decrement(n, minPlusOne), parts, sum, x);
    }
  }

  lemma CardOne(s: set<nat>, x: nat)
    requires x in s
    ensures |s| == 1 <==> s == {x}
  {
    assert |s - {x}| == |s| - 1;
    assert s - {x} == {} ==> s == {x};
  }

  /** FCheckDelete( x ) takes the emptiness of a tree for `x == _NMin()` when the tree is empty and its
      stored `min + 1` of 0 wraps to `x`. It looks for `x` down its path of clusters, until one holds it
      or holds a single element; it throws when it meets such a tree on the way. */
  ghost predicate CheckDeleteThrows(n: nat, s: set<nat>, x: nat)
    decreases n
  {
    && n > 9
    && ((s == {} && x == Decrement(n, 0))
        || (|s| != 1 && x !in s
            && CheckDeleteThrows(n - n / 2, ClusterOf(n, s, High(x, ClusterSize(n))), Low(x, ClusterSize(n)))))
  }

  /** Below the top, a checked delete is a checked delete in the cluster of `x`. */
  lemma CheckDeleteFields(n: nat, minPlusOne: nat, max: nat, s: set<nat>, parts: seq<set<nat>>, sum: set<nat>, x: nat)
    requires 9 < n && Fields(n, minPlusOne, max, s, parts, sum) && x < Pow2(n) && |s| != 1
    requires x != Decrement(n, minPlusOne) && Decrement(n, minPlusOne) != max
    ensures High(x, ClusterSize(n)) < |parts| && Low(x, ClusterSize(n)) < ClusterSize(n)
    ensures x in s <==> InPart(parts, x, ClusterSize(n))
    ensures CheckDeleteThrows(n, s, x) <==>
      CheckDeleteThrows(n - n / 2, parts[High(x, ClusterSize(n))], Low(x, ClusterSize(n)))
    ensures x in s ==> High(x, ClusterSize(n)) in sum
    ensures var parts' := Without(parts, x, ClusterSize(n));
      if x in s then MaxStale(n, minPlusOne, max, s - {x}, parts', SumWithout(parts', sum, High(x, ClusterSize(n))))
                     && (x != max ==> IsMax(s - {x}, max))
      else parts' == parts && s - {x} == s
  {
    UniverseSplits(n);
    SplitInjective(x, ClusterSize(n));
    ClusterIsPart(n, minPlusOne, max, s, parts, sum, High(x, ClusterSize(n)));
    assert x in s <==> InPart(parts, x, ClusterSize(n));
    if x in s {
      DeleteFields(n, minPlusOne, max, s, parts, sum, x, x, minPlusOne);
    } else {
      var i, e := High(x, ClusterSize(n)), Low(x, ClusterSize(n));
      assert parts[i] - {e} == parts[i];
    }
  }

  /** A maximum taken out with its whole cluster: the new last cluster is the summary's predecessor. */
  lemma MaxOfPredecessor(n: nat, minPlusOne: nat, max: nat, s: set<nat>, parts: seq<set<nat>>, sum: set<nat>, c: nat, p: nat)
    requires MaxStale(n, minPlusOne, max, s, parts, sum)
    requires c == High(max, ClusterSize(n)) && c !in sum && c < Clusters(n)
    requires IsPredecessor(sum, c, p, Clusters(n) - 1)
    ensures if p == Clusters(n) - 1 then sum == {} else IsMax(sum, p)
  {
    forall i | i in sum
      ensures i < c
    {
      var e :| e in parts[i];
      FromPart(ClusterSize(n), Clusters(n), s, Decrement(n, minPlusOne), parts, sum, i, e);
      SplitOrder(max, Join(i, e, ClusterSize(n)), ClusterSize(n));
    }
  }

  /** A cluster with equal minimum and maximum is emptied by removing that member, and only then. */
  lemma EmptiedIfSingle(part: set<nat>, first: nat, last: nat, e: nat)
    requires IsMin(part, first) && IsMax(part, last) && e in part
    ensures part - {e} == {} <==> first == last
    ensures first == last ==> e == last
  {
    if first == last {
      assert part == {last};
    } else {
      assert first in part - {e} || last in part - {e};
    }
  }

  /** The limit InsertAll and BitwiseInvert pass to the last cluster they touch, and the number of
      clusters they touch. */
  function LastLimit(n: nat, limit: Limit): Limit {
    if limit.Upto? && Low(limit.last + 1, ClusterSize(n)) != 0 then Upto(Low(limit.last, ClusterSize(n))) else Whole
  }

  function ClustersTo(n: nat, limit: Limit): nat {
    if limit.Upto? then High(limit.last, ClusterSize(n)) + 1 else Clusters(n)
  }

  /** The limit that falls on cluster `i`. */
  function LimitOf(n: nat, limit: Limit, i: nat): Limit {
    if i + 1 == ClustersTo(n, limit) then LastLimit(n, limit) else Whole
  }

  lemma LimitFacts(n: nat, limit: Limit)
    requires 9 < n && (limit.Upto? ==> limit.last < Pow2(n) - 1)
    ensures 0 < ClustersTo(n, limit) <= Clusters(n)
    ensures LastLimit(n, limit).Upto? ==> LastLimit(n, limit).last < ClusterSize(n) - 1
    ensures forall x: nat :: x <= limit.Last(Pow2(n)) <==>
      High(x, ClusterSize(n)) < ClustersTo(n, limit)
      && Low(x, ClusterSize(n)) <= LimitOf(n, limit, High(x, ClusterSize(n))).Last(ClusterSize(n))
  {
    var k := ClusterSize(n);
    UniverseSplits(n);
    Pow2Mono(0, n / 2);
    if limit.Upto? {
      NextInWord(limit.last, k);
      JoinSplit(limit.last, k);
    }
    forall x: nat
      ensures x <= limit.Last(Pow2(n)) <==>
        High(x, k) < ClustersTo(n, limit) && Low(x, k) <= LimitOf(n, limit, High(x, k)).Last(k)
    {
      JoinSplit(x, k);
      if limit.Upto? {
        SplitOrder(limit.last, x, k);
      }
    }
  }

  /** What InsertAll leaves in cluster `i`. */
  ghost function FilledPart(n: nat, first: nat, limit: Limit, i: nat): set<nat> {
    Interval(if i == 0 then first + 1 else 0, LimitOf(n, limit, i).Last(ClusterSize(n)))
  }

  lemma ClusterWide(n: nat)
    requires 9 < n
    ensures 32 <= ClusterSize(n)
  {
    Pow2Mono(5, n - n / 2);
    assert Pow2(5) == 32;
  }

  /** The full interval, spread over the clusters. */
  lemma FullFields(n: nat, first: nat, limit: Limit, last: nat, s: set<nat>, parts: seq<set<nat>>, sum: set<nat>)
    requires 9 < n < 64 && (limit.Upto? ==> limit.last < Pow2(n) - 1) && last == limit.Last(Pow2(n))
    requires first < last && first + 1 < ClusterSize(n) && |parts| == Clusters(n)
    requires s == Interval(first, last) && sum == Interval(0, ClustersTo(n, limit) - 1)
    requires forall i :: 0 <= i < |parts| ==>
      parts[i] == if i < ClustersTo(n, limit) then FilledPart(n, first, limit, i) else {}
    ensures Fields(n, Increment(n, first), last, s, parts, sum)
  {
    FullSpread(n, first, limit, last, s, parts, sum);
    IndexWide(n);
    UniverseSplits(n);
    assert IsMin(s, first) && IsMax(s, last);
    assert last < Pow2(n);
  }

  lemma FullSpread(n: nat, first: nat, limit: Limit, last: nat, s: set<nat>, parts: seq<set<nat>>, sum: set<nat>)
    requires 9 < n < 64 && (limit.Upto? ==> limit.last < Pow2(n) - 1) && last == limit.Last(Pow2(n))
    requires first < last && first + 1 < ClusterSize(n) && |parts| == Clusters(n)
    requires s == Interval(first, last) && sum == Interval(0, ClustersTo(n, limit) - 1)
    requires forall i :: 0 <= i < |parts| ==>
      parts[i] == if i < ClustersTo(n, limit) then FilledPart(n, first, limit, i) else {}
    ensures forall x: nat :: InPart(parts, x, ClusterSize(n)) <==> x in s && x != first
    ensures forall i :: i in sum <==> 0 <= i < |parts| && parts[i] != {}
    ensures forall i, e :: 0 <= i < |parts| && e in parts[i] ==> e < ClusterSize(n)
  {
    LimitFacts(n, limit);
    forall x: nat
      ensures InPart(parts, x, ClusterSize(n)) <==> x in s && x != first
    {
      FullMember(n, first, limit, x);
    }
    forall i | 0 <= i < ClustersTo(n, limit)
      ensures parts[i] != {}
    {
      FullPart(n, first, limit, i);
      assert (if i == 0 then first + 1 else 0) in parts[i];
    }
  }

  lemma FullMember(n: nat, first: nat, limit: Limit, x: nat)
    requires 9 < n < 64 && (limit.Upto? ==> limit.last < Pow2(n) - 1)
    requires first < limit.Last(Pow2(n)) && first + 1 < ClusterSize(n)
    ensures High(x, ClusterSize(n)) < ClustersTo(n, limit)
      && Low(x, ClusterSize(n)) in FilledPart(n, first, limit, High(x, ClusterSize(n)))
      <==> first < x <= limit.Last(Pow2(n))
  {
    LimitFacts(n, limit);
    JoinSplit(x, ClusterSize(n));
    if High(x, ClusterSize(n)) != 0 {
      assert Join(High(x, ClusterSize(n)), Low(x, ClusterSize(n)), ClusterSize(n)) >= ClusterSize(n);
    }
  }

  lemma FullPart(n: nat, first: nat, limit: Limit, i: nat)
    requires 9 < n && (limit.Upto? ==> limit.last < Pow2(n) - 1)
    requires first < limit.Last(Pow2(n)) && first + 1 < ClusterSize(n) && i < ClustersTo(n, limit)
    ensures (if i == 0 then first + 1 else 0) <= LimitOf(n, limit, i).Last(ClusterSize(n))
  {
    LimitFacts(n, limit);
    if i == 0 {
      assert High(first + 1, ClusterSize(n)) == 0;
    }
  }

  /** Cluster `i` of the complement, and which elements it stands for. */
  ghost function InvertedPart(n: nat, limit: Limit, parts: seq<set<nat>>, i: nat): set<nat>
    requires i < |parts|
  {
    Interval(0, LimitOf(n, limit, i).Last(ClusterSize(n))) - parts[i]
  }

  /** What the loop of BitwiseInvert leaves: the complement of the clusters' content. It still holds the old
      minimum, which no cluster held. */
  ghost function InvertGoal(s: set<nat>, m: nat, last: nat): set<nat> {
    (Interval(0, last) - s) + {m}
  }

  lemma GoalUpto(s: set<nat>, m: nat, last: nat)
    requires m <= last
    ensures forall x :: x in InvertGoal(s, m, last) ==> x <= last
  {
  }

  lemma InvertedMembers(n: nat, limit: Limit, last: nat, minPlusOne: nat, max: nat, s: set<nat>, parts: seq<set<nat>>, sum: set<nat>, i: nat)
    requires 9 < n < 64 && (limit.Upto? ==> limit.last < Pow2(n) - 1) && last == limit.Last(Pow2(n))
    requires Fields(n, minPlusOne, max, s, parts, sum) && s != {} && i < ClustersTo(n, limit)
    requires forall x :: x in s ==> x <= last
    ensures i < |parts|
    ensures forall x: nat :: High(x, ClusterSize(n)) == i ==>
      (x in InvertGoal(s, Decrement(n, minPlusOne), last) <==> Low(x, ClusterSize(n)) in InvertedPart(n, limit, parts, i))
    ensures forall e :: e in InvertedPart(n, limit, parts, i) ==> e < ClusterSize(n)
  {
    LimitFacts(n, limit);
    forall x: nat | High(x, ClusterSize(n)) == i
      ensures x in InvertGoal(s, Decrement(n, minPlusOne), last) <==> Low(x, ClusterSize(n)) in InvertedPart(n, limit, parts, i)
    {
      assert InPart(parts, x, ClusterSize(n)) <==> x in s && x != Decrement(n, minPlusOne);
    }
  }

  /** One turn of the loop, from the state it finds to the state it leaves. */
  lemma InvertAdvance(n: nat, limit: Limit, last: nat, minPlusOne: nat, max: nat, s: set<nat>, was: seq<set<nat>>, wasSum: set<nat>,
                      i: nat, lo: nat, hi: nat, found: bool, m: nat, mx: nat, parts: seq<set<nat>>, sum: set<nat>,
                      found': bool, m': nat, mx': nat, parts': seq<set<nat>>, sum': set<nat>)
    requires 9 < n < 64 && (limit.Upto? ==> limit.last < Pow2(n) - 1) && last == limit.Last(Pow2(n))
    requires Fields(n, minPlusOne, max, s, was, wasSum) && s != {} && i < ClustersTo(n, limit)
    requires forall x :: x in s ==> x <= last
    requires Inverting(ClusterSize(n), was, InvertGoal(s, Decrement(n, minPlusOne), last), i, found, m, mx, parts, sum)
    requires i < |parts| == |was|
    requires InvertTurn(ClusterSize(n), i, InvertedPart(n, limit, was, i), lo, hi,
               found, m, mx, parts, sum, found', m', mx', parts', sum')
    ensures Inverting(ClusterSize(n), was, InvertGoal(s, Decrement(n, minPlusOne), last), i + 1, found', m', mx', parts', sum')
  {
    InvertedMembers(n, limit, last, minPlusOne, max, s, was, wasSum, i);
    InvertStep(ClusterSize(n), was, InvertGoal(s, Decrement(n, minPlusOne), last), i, InvertedPart(n, limit, was, i), lo, hi,
      found, m, mx, parts, sum, found', m', mx', parts', sum');
  }

  lemma InvertFinish(n: nat, limit: Limit, last: nat, minPlusOne: nat, max: nat, s: set<nat>, was: seq<set<nat>>, wasSum: set<nat>,
                     t: set<nat>, found: bool, min': nat, mx: nat, parts: seq<set<nat>>, sum: set<nat>)
    requires 9 < n < 64 && (limit.Upto? ==> limit.last < Pow2(n) - 1) && last == limit.Last(Pow2(n))
    requires Fields(n, minPlusOne, max, s, was, wasSum) && s != {}
    requires t == InvertGoal(s, Decrement(n, minPlusOne), last) && forall x :: x in s ==> x <= last
    requires Inverting(ClusterSize(n), was, t, ClustersTo(n, limit), found,
               Decrement(n, min'), mx, parts, sum)
    ensures Fields(n, min', mx, t, parts, sum)
  {
    LimitFacts(n, limit);
    forall j | ClustersTo(n, limit) <= j < |was|
      ensures was[j] == {}
    {
      if e :| e in was[j] {
        FromPart(ClusterSize(n), Clusters(n), s, Decrement(n, minPlusOne), was, wasSum, j, e);
      }
    }
    InvertDone(ClusterSize(n), was, t, ClustersTo(n, limit), found,
      Decrement(n, min'), mx, parts, sum);
  }

  lemma JoinFits(n: nat, i: nat, e: nat)
    requires n < 64 && i < Clusters(n) && e < ClusterSize(n)
    ensures Decrement(n, Increment(n, Join(i, e, ClusterSize(n)))) == Join(i, e, ClusterSize(n))
  {
    SplitJoin(i, e, ClusterSize(n));
    UniverseSplits(n);
    IndexWide(n);
  }

  /** A summary names the clusters that are not empty. */
  ghost predicate Named(parts: seq<set<nat>>, sum: set<nat>) {
    forall i :: i in sum <==> 0 <= i < |parts| && parts[i] != {}
  }

  /** The clusters while `|=` has joined those before `c`. */
  ghost predicate Uniting(was: seq<set<nat>>, that: seq<set<nat>>, c: nat, parts: seq<set<nat>>) {
    && |parts| == |was| == |that|
    && forall j :: 0 <= j < |was| ==> parts[j] == if j < c then was[j] + that[j] else was[j]
  }

  lemma UniteStart(was: seq<set<nat>>, that: seq<set<nat>>, sum: set<nat>, c: nat)
    requires |was| == |that| && Named(that, sum) && IsMin(sum, c)
    ensures Uniting(was, that, c, was)
  {
    forall j | 0 <= j < |was| && j < c
      ensures that[j] == {}
    {
      assert j !in sum;
    }
  }

  /** Joining cluster `c` and moving to the next cluster named in the other summary skips nothing. */
  lemma UniteStep(was: seq<set<nat>>, that: seq<set<nat>>, sum: set<nat>, c: nat, next: nat, parts: seq<set<nat>>, parts': seq<set<nat>>)
    requires Uniting(was, that, c, parts) && Named(that, sum) && c in sum && IsSuccessor(sum, c, next)
    requires parts' == parts[c := parts[c] + that[c]]
    ensures Uniting(was, that, if next == 0 then |was| else next, parts')
  {
    forall j | 0 <= j < |was| && c < j && (next == 0 || j < next)
      ensures that[j] == {}
    {
      assert j !in sum;
    }
  }

  /** The fields after `|=`: clusters and summary joined, the greater maximum kept. */
  lemma UnionFields(n: nat, minPlusOne: nat, max: nat, s: set<nat>, parts: seq<set<nat>>, sum: set<nat>,
                    minPlusOne': nat, max': nat, t: set<nat>, parts': seq<set<nat>>, sum': set<nat>,
                    joined: seq<set<nat>>, joinedSum: set<nat>)
    requires Fields(n, minPlusOne, max, s, parts, sum) && s != {}
    requires Fields(n, minPlusOne', max', t, parts', sum') && t != {} && Decrement(n, minPlusOne') in s
    requires Uniting(parts, parts', |parts|, joined) && Named(joined, joinedSum)
    ensures Fields(n, minPlusOne, if max' > max then max' else max, s + t, joined, joinedSum)
  {
    UnionLevel(ClusterSize(n), Clusters(n), s, Decrement(n, minPlusOne), parts, sum,
      t, Decrement(n, minPlusOne'), parts', sum', joined);
    assert joinedSum == sum + sum';
  }

  /** The answer of FDeleteAllAfter, or the exception "No elements in tree." */
  datatype Trimmed = Done(emptied: bool, newMax: nat) | Raised

  /** What the summary of a node with set `s` holds. */
  ghost function SummaryOf(n: nat, s: set<nat>): set<nat> {
    set x | x in s && !IsMin(s, x) :: High(x, ClusterSize(n))
  }

  lemma SummaryIsSum(n: nat, minPlusOne: nat, max: nat, s: set<nat>, parts: seq<set<nat>>, sum: set<nat>)
    requires Fields(n, minPlusOne, max, s, parts, sum)
    ensures SummaryOf(n, s) == sum
  {
    forall i | i in sum
      ensures i in SummaryOf(n, s)
    {
      var e :| e in parts[i];
      FromPart(ClusterSize(n), Clusters(n), s, Decrement(n, minPlusOne), parts, sum, i, e);
    }
    forall x | x in s && !IsMin(s, x)
      ensures High(x, ClusterSize(n)) in sum
    {
      NotAlone(ClusterSize(n), Clusters(n), s, Decrement(n, minPlusOne), parts, sum, x);
    }
  }

  /** `x` is neither below nor above all of `s`. */
  ghost predicate Straddles(s: set<nat>, x: nat) {
    (exists y :: y in s && y <= x) && (exists y :: y in s && x <= y)
  }

  /** What the summary names when FDeleteAllAfter( x ) turns to it: the clusters after that of `x` are
      empty by then, but are still named. */
  ghost function NamesLeft(n: nat, s: set<nat>, x: nat): set<nat> {
    var c := High(x, ClusterSize(n));
    if Below(ClusterOf(n, s, c), Low(x, ClusterSize(n)) + 1) == {} then SummaryOf(n, s) - {c} else SummaryOf(n, s)
  }

  /** FDeleteAllAfter( x ) takes the cluster of `x` out of the summary with a checked delete when nothing is
      left in it, which throws when that delete does. */
  ghost predicate DeleteAfterThrows(n: nat, s: set<nat>, x: nat)
    decreases n
  {
    var c, e := High(x, ClusterSize(n)), Low(x, ClusterSize(n));
    && n > 9 && Straddles(s, x)
    && ((Low(x + 1, ClusterSize(n)) != 0 && DeleteAfterThrows(n - n / 2, ClusterOf(n, s, c), e))
        || (ClusterOf(n, s, c) == {} && CheckDeleteThrows(n / 2, SummaryOf(n, s), c)))
  }

  /** FDeleteAllAfter( x ) ends with a call of itself on the summary, for the cluster of `x`. If the summary,
      or a summary below it, is the 256-element leaf and that cluster its last, `++_x` wraps to 0 there and
      the leaf is cleared: names of clusters that are not empty are lost. */
  ghost predicate DeleteAfterWraps(n: nat, s: set<nat>, x: nat)
    decreases n
  {
    if n <= 9 then n == 8 && x == 255 && s != {}
    else
      var c, e := High(x, ClusterSize(n)), Low(x, ClusterSize(n));
      && Straddles(s, x)
      && ((Low(x + 1, ClusterSize(n)) != 0 && DeleteAfterWraps(n - n / 2, ClusterOf(n, s, c), e))
          || DeleteAfterWraps(n / 2, NamesLeft(n, s, x), c))
  }

  /** No tree of fewer than 2^16 elements throws in a checked delete, and none of fewer than 2^32 throws in
      FDeleteAllAfter. */
  lemma {:induction false} CheckDeleteNeverThrows(n: nat, s: set<nat>, x: nat)
    requires n < 16 && x < Pow2(n)
    ensures !CheckDeleteThrows(n, s, x)
    decreases n
  {
    if n > 9 {
      Pow2Mono(n, 15);
      Pow2Mono(15, 16);
      SplitInjective(x, ClusterSize(n));
      CheckDeleteNeverThrows(n - n / 2, ClusterOf(n, s, High(x, ClusterSize(n))), Low(x, ClusterSize(n)));
    }
  }

  lemma {:induction false} DeleteAfterNeverThrows(n: nat, s: set<nat>, x: nat)
    requires n < 32 && x < Pow2(n)
    ensures !DeleteAfterThrows(n, s, x)
    decreases n
  {
    if n > 9 {
      UniverseSplits(n);
      SplitInjective(x, ClusterSize(n));
      DeleteAfterNeverThrows(n - n / 2, ClusterOf(n, s, High(x, ClusterSize(n))), Low(x, ClusterSize(n)));
      CheckDeleteNeverThrows(n / 2, SummaryOf(n, s), High(x, ClusterSize(n)));
    }
  }

  lemma StraddlesFields(n: nat, minPlusOne: nat, max: nat, s: set<nat>, parts: seq<set<nat>>, sum: set<nat>, x: nat)
    requires Fields(n, minPlusOne, max, s, parts, sum) && s != {}
    ensures Straddles(s, x) <==> Decrement(n, minPlusOne) <= x <= max
  {
  }

  /** The three ways FDeleteAllAfter finds the new maximum. */
  lemma CutFields(n: nat, minPlusOne: nat, max: nat, s: set<nat>, parts: seq<set<nat>>, sum: set<nat>, x: nat,
                  parts': seq<set<nat>>, sum': set<nat>, newMax: nat)
    requires Fields(n, minPlusOne, max, s, parts, sum) && s != {} && x < Pow2(n) && Decrement(n, minPlusOne) <= x
    requires |parts'| == |parts| && forall i :: 0 <= i < |parts| ==> parts'[i] == CutPart(parts, ClusterSize(n), x, i)
    requires Named(parts', sum') && IsMax(Below(s, x + 1), newMax)
    ensures Fields(n, minPlusOne, newMax, Below(s, x + 1), parts', sum')
  {
    UniverseSplits(n);
    CutLevel(ClusterSize(n), Clusters(n), s, Decrement(n, minPlusOne), parts, sum, x, parts', sum');
  }

  /** Something is left in the cluster of `x`: its maximum is the new one. */
  lemma CutMaxHere(n: nat, minPlusOne: nat, max: nat, s: set<nat>, parts: seq<set<nat>>, sum: set<nat>, x: nat, e: nat)
    requires Fields(n, minPlusOne, max, s, parts, sum) && s != {} && x < Pow2(n) && Decrement(n, minPlusOne) <= x
    requires High(x, ClusterSize(n)) < |parts|
    requires IsMax(Below(parts[High(x, ClusterSize(n))], Low(x, ClusterSize(n)) + 1), e)
    ensures IsMax(Below(s, x + 1), Join(High(x, ClusterSize(n)), e, ClusterSize(n)))
  {
    var k, i := ClusterSize(n), High(x, ClusterSize(n));
    var y := Join(i, e, k);
    FromPart(k, Clusters(n), s, Decrement(n, minPlusOne), parts, sum, i, e);
    SplitOrder(x, y, k);
    forall z | z in s && z <= x
      ensures z <= y
    {
      if z != Decrement(n, minPlusOne) {
        NotAlone(k, Clusters(n), s, Decrement(n, minPlusOne), parts, sum, z);
        SplitOrder(x, z, k);
        SplitOrder(y, z, k);
        if High(z, k) == i {
          assert Low(z, k) in Below(parts[i], Low(x, k) + 1);
        }
      }
    }
  }

  /** Nothing is left in it: the last member before it is the new maximum. */
  lemma CutMaxBefore(n: nat, minPlusOne: nat, max: nat, s: set<nat>, parts: seq<set<nat>>, sum: set<nat>, x: nat, sum': set<nat>, p: nat, e: nat)
    requires Fields(n, minPlusOne, max, s, parts, sum) && s != {} && x < Pow2(n) && Decrement(n, minPlusOne) <= x
    requires High(x, ClusterSize(n)) < |parts|
    requires Below(parts[High(x, ClusterSize(n))], Low(x, ClusterSize(n)) + 1) == {}
    requires sum' == sum - {High(x, ClusterSize(n))} && IsPredecessor(sum', High(x, ClusterSize(n)), p, Clusters(n) - 1)
    requires p != Clusters(n) - 1 ==> p < |parts| && IsMax(parts[p], e)
    ensures IsMax(Below(s, x + 1), if p == Clusters(n) - 1 then Decrement(n, minPlusOne) else Join(p, e, ClusterSize(n)))
  {
    var k, i := ClusterSize(n), High(x, ClusterSize(n));
    forall z | z in s && z <= x && z != Decrement(n, minPlusOne)
      ensures High(z, k) in sum' && High(z, k) < i && Low(z, k) in parts[High(z, k)]
    {
      NotAlone(k, Clusters(n), s, Decrement(n, minPlusOne), parts, sum, z);
      SplitOrder(x, z, k);
      assert High(z, k) == i ==> Low(z, k) in Below(parts[i], Low(x, k) + 1);
    }
    if p != Clusters(n) - 1 {
      FromPart(k, Clusters(n), s, Decrement(n, minPlusOne), parts, sum, p, e);
      SplitOrder(Join(p, e, k), x, k);
      forall z | z in s && z <= x && z != Decrement(n, minPlusOne)
        ensures z <= Join(p, e, k)
      {
        SplitOrder(Join(p, e, k), z, k);
      }
    }
  }

  /** The exceptions and the wrap of FDeleteAllAfter, in terms of the clusters and the summary. */
  lemma DeleteAfterFields(n: nat, minPlusOne: nat, max: nat, s: set<nat>, parts: seq<set<nat>>, sum: set<nat>, x: nat, c: nat, e: nat)
    requires 9 < n && Fields(n, minPlusOne, max, s, parts, sum) && s != {} && x < Pow2(n)
    requires Decrement(n, minPlusOne) <= x <= max && c == High(x, ClusterSize(n)) && e == Low(x, ClusterSize(n))
    ensures c < |parts| && e < ClusterSize(n)
    ensures DeleteAfterThrows(n, s, x) <==>
      (e + 1 != ClusterSize(n) && DeleteAfterThrows(n - n / 2, parts[c], e)) || CheckDeleteThrows(n / 2, sum, c)
    ensures CheckDeleteThrows(n / 2, sum, c) ==> c !in sum && parts[c] == {}
    ensures DeleteAfterWraps(n, s, x) <==>
      (e + 1 != ClusterSize(n) && DeleteAfterWraps(n - n / 2, parts[c], e))
      || DeleteAfterWraps(n / 2, if Below(parts[c], e + 1) == {} then sum - {c} else sum, c)
  {
    UniverseSplits(n);
    SplitInjective(x, ClusterSize(n));
    NextInWord(x, ClusterSize(n));
    ClusterIsPart(n, minPlusOne, max, s, parts, sum, c);
    SummaryIsSum(n, minPlusOne, max, s, parts, sum);
    StraddlesFields(n, minPlusOne, max, s, parts, sum, x);
    assert CheckDeleteThrows(n / 2, sum, c) ==> c !in sum;
  }

  /** The names the summary has in the end. */
  lemma CutNamed(n: nat, minPlusOne: nat, max: nat, s: set<nat>, parts: seq<set<nat>>, sum: set<nat>, x: nat,
                 parts': seq<set<nat>>, left: set<nat>)
    requires Fields(n, minPlusOne, max, s, parts, sum) && High(x, ClusterSize(n)) < |parts| == |parts'|
    requires forall i :: 0 <= i < |parts| ==> parts'[i] == CutPart(parts, ClusterSize(n), x, i)
    requires left == if parts'[High(x, ClusterSize(n))] == {} then sum - {High(x, ClusterSize(n))} else sum
    ensures Named(parts', Below(left, High(x, ClusterSize(n)) + 1))
  {
  }

  class Tree {
    /** log2 of the universe. */
    const n: nat
    /** The word mask, when the universe is small enough to be a leaf. */
    const leaf: Leaf?
    /** The clusters (`m_rgstSubtrees`) and the summary (`m_stSummary`), which are parts of this object. */
    const subtrees: seq<Tree>
    const summary: Tree?
    var minPlusOne: nat
    var max: nat

    /** The objects this tree is made of. */
    ghost const Repr: set<object>
    /** The set this tree holds, and the sets its clusters hold. */
    ghost var s: set<nat>
    ghost var parts: seq<set<nat>>

    /** How the parts lie in memory, which never changes. */
    ghost predicate Shape()
      decreases n
    {
      && 5 <= n < 64
      && this in Repr
      && if n <= 9 then
        leaf != null && leaf.Shape() && leaf.n == n && leaf in Repr && leaf.words in Repr
      else
        && summary != null && summary.n == n / 2 && summary.Shape()
        && summary in summary.Repr && summary.Repr <= Repr && this !in summary.Repr
        && |subtrees| == Clusters(n)
        && (forall i :: 0 <= i < |subtrees| ==>
          && subtrees[i].n == n - n / 2 && subtrees[i].Shape()
          && subtrees[i] in subtrees[i].Repr && subtrees[i].Repr <= Repr && this !in subtrees[i].Repr
          && subtrees[i].Repr !! summary.Repr)
        && (forall i, j {:trigger subtrees[i].Repr, subtrees[j].Repr} :: 0 <= i < |subtrees| && 0 <= j < |subtrees| && i != j ==>
          subtrees[i].Repr !! subtrees[j].Repr)
    }

    ghost predicate Valid()
      reads this, Repr
      decreases n, 1
    {
      && Shape()
      && if n <= 9 then
        leaf.Valid() && s == leaf.S()
      else
        && Kids()
        && Fields(n, minPlusOne, max, s, parts, summary.s)
    }

    /** The clusters and the summary are valid, and `parts` is what the clusters hold. */
    ghost predicate Kids()
      requires Shape() && n > 9
      reads this`parts, Repr - {this}
      decreases n, 0
    {
      && summary.Valid()
      && |parts| == |subtrees|
      && (forall i :: 0 <= i < |subtrees| ==> subtrees[i].Valid() && subtrees[i].s == parts[i])
    }

    /** A zero-filled tree. */
    constructor (n: nat)
      requires 5 <= n < 64
      ensures Valid() && this.n == n && s == {} && fresh(Repr)
      decreases n, 1
    {
      this.n := n;
      ghost var all: set<object> := {};
      minPlusOne, max, s := 0, 0, {};
      if n <= 9 {
        var l := new Leaf(n);
        leaf, summary, subtrees, parts := l, null, [], [];
        Repr := {this, l, l.words};
      } else {
        var sum := new Tree(n / 2);
        var clusters;
        clusters, all := MakeClusters(n - n / 2, Clusters(n));
        leaf, summary, subtrees := null, sum, clusters;
        parts := seq(|clusters|, _ => {});
        Repr := {this} + sum.Repr + all;
      }
      new;
      if n > 9 {
        Assembled(all);
      }
    }

    /** Empty clusters and an empty summary, apart from each other, make an empty tree. */
    lemma Assembled(all: set<object>)
      requires 9 < n < 64 && minPlusOne == max == 0 && s == {} && this !in all
      requires summary != null && summary.Valid() && summary.n == n / 2 && summary.s == {} && summary.Repr !! all
      requires this !in summary.Repr && Repr == {this} + summary.Repr + all
      requires |subtrees| == Clusters(n) && parts == seq(|subtrees|, _ => {})
      requires forall i :: 0 <= i < |subtrees| ==>
        subtrees[i].Valid() && subtrees[i].n == n - n / 2 && subtrees[i].s == {} && subtrees[i].Repr <= all
      requires forall i, j :: 0 <= i < |subtrees| && 0 <= j < |subtrees| && i != j ==> subtrees[i].Repr !! subtrees[j].Repr
      ensures Valid()
    {
      assert Shape();
      assert Kids();
      assert Fields(n, 0, 0, {}, parts, summary.s);
    }

    static method MakeClusters(k: nat, count: nat) returns (ts: seq<Tree>, ghost all: set<object>)
      requires 5 <= k < 64
      ensures |ts| == count && fresh(all)
      ensures forall i :: 0 <= i < |ts| ==> ts[i].Valid() && ts[i].n == k && ts[i].s == {} && ts[i].Repr <= all
      ensures forall i, j :: 0 <= i < |ts| && 0 <= j < |ts| && i != j ==> ts[i].Repr !! ts[j].Repr
      decreases k, 2
    {
      ts, all := [], {};
      while |ts| < count
        invariant |ts| <= count && fresh(all)
        invariant forall i :: 0 <= i < |ts| ==> ts[i].Valid() && ts[i].n == k && ts[i].s == {} && ts[i].Repr <= all
        invariant forall i, j :: 0 <= i < |ts| && 0 <= j < |ts| && i != j ==> ts[i].Repr !! ts[j].Repr
      {
        var t := new Tree(k);
        ts, all := ts + [t], all + t.Repr;
      }
    }

    lemma Holds()
      requires n > 9 && Shape() && Kids() && Fields(n, minPlusOne, max, s, parts, summary.s)
      ensures Valid()
    {
    }

    /** The universe, `s_kstUniverse`. */
    function U(): nat {
      Pow2(n)
    }

    function NMin(): nat
      reads this
    {
      Decrement(n, minPlusOne)
    }

    /** Every member is in the universe. */
    lemma Bounded()
      requires Valid()
      ensures forall x :: x in s ==> x < U()
    {
      if n <= 9 {
        leaf.UniverseIsWords();
        MembersFacts(leaf.words[..], leaf.k);
      } else {
        FieldTests(n, minPlusOne, max, s, parts, summary.s);
      }
    }

    // Queries

    method FHasAnyElements() returns (f: bool)
      requires Valid()
      ensures f <==> s != {}
    {
      if n <= 9 {
        f := leaf.FHasAnyElements();
      } else {
        FieldTests(n, minPlusOne, max, s, parts, summary.s);
        f := max >= NMin();
      }
    }

    method FHasMin() returns (f: bool, m: nat)
      requires Valid()
      ensures f <==> s != {}
      ensures f ==> IsMin(s, m)
    {
      if n <= 9 {
        f, m := leaf.FHasMin();
      } else {
        FieldTests(n, minPlusOne, max, s, parts, summary.s);
        f, m := max >= NMin(), NMin();
      }
    }

    method FHasMax() returns (f: bool, m: nat)
      requires Valid()
      ensures f <==> s != {}
      ensures f ==> IsMax(s, m)
    {
      if n <= 9 {
        f, m := leaf.FHasMax();
      } else {
        FieldTests(n, minPlusOne, max, s, parts, summary.s);
        f, m := max >= NMin(), max;
      }
    }

    method FHasElement(x: nat) returns (f: bool)
      requires Valid() && x < U()
      ensures f <==> x in s
      decreases n
    {
      if n <= 9 {
        f := leaf.FHasElement(x);
        return;
      }
      FieldTests(n, minPlusOne, max, s, parts, summary.s);
      if max < NMin() {
        return false;
      }
      if x == NMin() || x == max {
        return true;
      }
      if NMin() == max {
        return false;
      }
      UniverseSplits(n);
      SplitInjective(x, ClusterSize(n));
      f := subtrees[High(x, ClusterSize(n))].FHasElement(Low(x, ClusterSize(n)));
      assert f <==> InPart(parts, x, ClusterSize(n));
    }

    // Calls on one cluster or on the summary

    /** After a call that changed cluster `c` only, everything else is as it was. */
    twostate lemma SubFrame(c: nat)
      requires n > 9 && Shape() && old(Kids()) && c < |subtrees|
      requires unchanged(Repr - subtrees[c].Repr - {this})
      requires subtrees[c].Valid() && parts == old(parts)[c := subtrees[c].s]
      ensures Kids() && summary.s == old(summary.s)
    {
      assert summary.Repr !! subtrees[c].Repr;
      forall i | 0 <= i < |subtrees| && i != c
        ensures subtrees[i].Valid() && subtrees[i].s == old(subtrees[i].s)
      {
        assert subtrees[i].Repr !! subtrees[c].Repr;
        assert old(subtrees[i].Valid());
      }
    }

    /** A tree none of whose objects changed is as it was. */
    twostate lemma Untouched()
      requires n > 9 && Shape() && old(Kids()) && unchanged(Repr)
      ensures Kids() && parts == old(parts) && summary.s == old(summary.s)
    {
    }

    method SubInsert(c: nat, e: nat)
      requires n > 9 && Shape() && Kids() && c < |subtrees| && e < ClusterSize(n) && e !in parts[c]
      modifies subtrees[c].Repr, this`parts
      ensures Kids() && summary.s == old(summary.s)
      ensures parts == old(parts)[c := old(parts)[c] + {e}]
      decreases n, 0
    {
      var t := subtrees[c];
      assert t.Valid() && t.U() == ClusterSize(n);
      t.Insert(e);
      parts := parts[c := t.s];
      SubFrame(c);
    }

    method SubCheckInsert(c: nat, e: nat) returns (f: bool)
      requires n > 9 && Shape() && Kids() && c < |subtrees| && e < ClusterSize(n)
      modifies subtrees[c].Repr, this`parts
      ensures Kids() && summary.s == old(summary.s)
      ensures parts == old(parts)[c := old(parts)[c] + {e}]
      ensures f <==> e !in old(parts)[c]
      decreases n, 0
    {
      var t := subtrees[c];
      assert t.Valid() && t.U() == ClusterSize(n);
      f := t.FCheckInsert(e);
      parts := parts[c := t.s];
      SubFrame(c);
    }

    method SubHasAny(c: nat) returns (f: bool)
      requires n > 9 && Shape() && Kids() && c < |subtrees|
      ensures f <==> parts[c] != {}
    {
      assert subtrees[c].Valid();
      f := subtrees[c].FHasAnyElements();
    }

    method SubDelete(c: nat, e: nat) returns (ghost cost: nat)
      requires n > 9 && Shape() && Kids() && c < |subtrees| && e in parts[c]
      modifies subtrees[c].Repr, this`parts
      ensures Kids() && summary.s == old(summary.s)
      ensures parts == old(parts)[c := old(parts)[c] - {e}]
      ensures 1 <= cost <= DeleteCost(n - n / 2)
      ensures parts[c] == {} ==> cost == 1
      decreases n, 0
    {
      var t := subtrees[c];
      assert t.Valid() && t.U() == ClusterSize(n);
      cost := t.Delete(e);
      parts := parts[c := t.s];
      SubFrame(c);
    }

    method SubCheckDelete(c: nat, e: nat) returns (r: Checked)
      requires n > 9 && Shape() && Kids() && c < |subtrees| && e < ClusterSize(n)
      modifies subtrees[c].Repr, this`parts
      ensures Kids() && summary.s == old(summary.s)
      ensures parts == old(parts)[c := if r.Thrown? then old(parts)[c] else old(parts)[c] - {e}]
      ensures r.Thrown? <==> CheckDeleteThrows(n - n / 2, old(parts)[c], e)
      ensures r.Answer? ==> (r.f <==> e in old(parts)[c])
      decreases n, 0
    {
      var t := subtrees[c];
      assert t.Valid() && t.U() == ClusterSize(n);
      r := t.FCheckDelete(e);
      parts := parts[c := t.s];
      SubFrame(c);
    }

    method SubSuccessorDelete(c: nat, e: nat) returns (r: nat)
      requires n > 9 && Shape() && Kids() && c < |subtrees| && e < ClusterSize(n)
      modifies subtrees[c].Repr, this`parts
      ensures Kids() && summary.s == old(summary.s)
      ensures IsSuccessor(old(parts)[c], e, r)
      ensures parts == old(parts)[c := if r == 0 then old(parts)[c] else old(parts)[c] - {r}]
      decreases n, 0
    {
      var t := subtrees[c];
      assert t.Valid() && t.U() == ClusterSize(n);
      r := t.NSuccessorDelete(e);
      parts := parts[c := t.s];
      SubFrame(c);
    }

    method SubPredecessorDelete(c: nat, e: nat) returns (r: nat)
      requires n > 9 && Shape() && Kids() && c < |subtrees| && e < ClusterSize(n)
      modifies subtrees[c].Repr, this`parts
      ensures Kids() && summary.s == old(summary.s)
      ensures IsPredecessor(old(parts)[c], e, r, ClusterSize(n) - 1)
      ensures parts == old(parts)[c := if r == ClusterSize(n) - 1 then old(parts)[c] else old(parts)[c] - {r}]
      decreases n, 0
    {
      var t := subtrees[c];
      assert t.Valid() && t.U() == ClusterSize(n);
      r := t.NPredecessorDelete(e);
      parts := parts[c := t.s];
      SubFrame(c);
    }

    method SubZero(c: nat)
      requires n > 9 && Shape() && Kids() && c < |subtrees|
      modifies subtrees[c].Repr, this`parts
      ensures Kids() && summary.s == old(summary.s)
      ensures parts == old(parts)[c := {}]
      decreases n, 0
    {
      var t := subtrees[c];
      assert t.Valid() && t.U() == ClusterSize(n);
      t.ZeroFill();
      parts := parts[c := t.s];
      SubFrame(c);
    }

    lemma ClusterOk(c: nat)
      requires n > 9 && Shape() && Kids() && c < |subtrees|
      ensures subtrees[c].Valid() && subtrees[c].n == n - n / 2 && subtrees[c].U() == ClusterSize(n) && subtrees[c].s == parts[c]
    {
    }

    method SubInsertAll(c: nat, first: nat, limit: Limit)
      requires n > 9 && Shape() && Kids() && c < |subtrees|
      requires first + Depth(n - n / 2) < 32 && first <= limit.Last(ClusterSize(n))
      requires limit.Upto? ==> limit.last < ClusterSize(n) - 1
      requires forall e :: e in parts[c] ==> first <= e <= limit.Last(ClusterSize(n))
      modifies subtrees[c].Repr, this`parts
      ensures Kids() && summary.s == old(summary.s)
      ensures parts == old(parts)[c := Interval(first, limit.Last(ClusterSize(n)))]
      decreases n, 0
    {
      var t := subtrees[c];
      ClusterOk(c);
      ghost var u := t.U();
      assert forall e :: e in t.s ==> first <= e <= limit.Last(u);
      t.InsertAll(first, limit);
      parts := parts[c := t.s];
      SubFrame(c);
    }

    method SumInsertAll(limit: Limit)
      requires n > 9 && Shape() && Kids()
      requires limit.Upto? ==> limit.last < Clusters(n) - 1
      requires forall i :: i in summary.s ==> i <= limit.Last(Clusters(n))
      modifies summary.Repr
      ensures Kids() && summary.s == Interval(0, limit.Last(Clusters(n)))
      decreases n, 0
    {
      DepthSmall(n / 2);
      summary.InsertAll(0, limit);
    }

    method SumZero()
      requires n > 9 && Shape() && Kids()
      modifies summary.Repr
      ensures Kids() && summary.s == {}
      decreases n, 0
    {
      summary.ZeroFill();
    }

    method SumClear()
      requires n > 9 && Shape() && Kids()
      modifies summary.Repr
      ensures Kids() && summary.s == {}
      decreases n, 0
    {
      summary.Clear();
    }

    method SubInvert(c: nat, limit: Limit)
      requires n > 9 && Shape() && Kids() && c < |subtrees|
      requires limit.Upto? ==> limit.last < ClusterSize(n) - 1
      requires forall e :: e in parts[c] ==> e <= limit.Last(ClusterSize(n))
      modifies subtrees[c].Repr, this`parts
      ensures Kids() && summary.s == old(summary.s)
      ensures parts == old(parts)[c := Interval(0, limit.Last(ClusterSize(n))) - old(parts)[c]]
      decreases n, 0
    {
      var t := subtrees[c];
      ClusterOk(c);
      t.BitwiseInvert(limit);
      parts := parts[c := t.s];
      SubFrame(c);
    }

    method SubOr(c: nat, that: Tree)
      requires n > 9 && Shape() && Kids() && c < |subtrees|
      requires that.Valid() && that.n == n - n / 2 && that.Repr !! Repr
      modifies subtrees[c].Repr, this`parts
      ensures Kids() && summary.s == old(summary.s)
      ensures parts == old(parts)[c := old(parts)[c] + that.s]
      decreases n, 0
    {
      var t := subtrees[c];
      assert t.n == n - n / 2;
      t.OrEquals(that);
      parts := parts[c := t.s];
      SubFrame(c);
    }

    method SumInsert(c: nat)
      requires n > 9 && Shape() && Kids() && c < Clusters(n) && c !in summary.s
      modifies summary.Repr
      ensures Kids() && summary.s == old(summary.s) + {c}
      decreases n, 0
    {
      summary.Insert(c);
    }

    method SumDelete(c: nat) returns (ghost cost: nat)
      requires n > 9 && Shape() && Kids() && c in summary.s
      modifies summary.Repr
      ensures Kids() && summary.s == old(summary.s) - {c}
      ensures 1 <= cost <= DeleteCost(n - n / 2)
      decreases n, 0
    {
      DepthMono(n / 2, n - n / 2);
      cost := summary.Delete(c);
    }

    method SumCheckInsert(c: nat)
      requires n > 9 && Shape() && Kids() && c < Clusters(n)
      modifies summary.Repr
      ensures Kids() && summary.s == old(summary.s) + {c}
      decreases n, 0
    {
      var _ := summary.FCheckInsert(c);
    }

    /** The two calls of Insert below the top: name the cluster in the summary, put the element in it. */
    method PutNew(y: nat)
      requires n > 9 && Shape() && Kids() && High(y, ClusterSize(n)) < Clusters(n)
      requires !InPart(parts, y, ClusterSize(n))
      modifies Repr - {this}, this`parts
      ensures Kids() && summary.s == old(summary.s) + {High(y, ClusterSize(n))}
      ensures parts == With(old(parts), y, ClusterSize(n))
      decreases n, 2
    {
      SplitInjective(y, ClusterSize(n));
      SumCheckInsert(High(y, ClusterSize(n)));
      SubInsert(High(y, ClusterSize(n)), Low(y, ClusterSize(n)));
    }

    method PutChecked(y: nat) returns (f: bool)
      requires n > 9 && Shape() && Kids() && High(y, ClusterSize(n)) < Clusters(n)
      modifies Repr - {this}, this`parts
      ensures Kids() && summary.s == old(summary.s) + {High(y, ClusterSize(n))}
      ensures parts == With(old(parts), y, ClusterSize(n))
      ensures f <==> !InPart(old(parts), y, ClusterSize(n))
      decreases n, 2
    {
      SplitInjective(y, ClusterSize(n));
      SumCheckInsert(High(y, ClusterSize(n)));
      f := SubCheckInsert(High(y, ClusterSize(n)), Low(y, ClusterSize(n)));
    }

    // Insert

    /** Writes the two extremes; with them the fields describe `s'`. */
    method Settled(minPlusOne': nat, max': nat, ghost s': set<nat>)
      requires n > 9 && Shape() && Kids() && Fields(n, minPlusOne', max', s', parts, summary.s)
      modifies this`minPlusOne, this`max, this`s
      ensures Valid() && s == s'
    {
      minPlusOne, max, s := minPlusOne', max', s';
      KidsKept();
      Sound();
    }

    /** The subtrees do not depend on the fields of this node. */
    twostate lemma KidsKept()
      requires n > 9 && Shape() && old(Kids()) && parts == old(parts) && unchanged(Repr - {this})
      ensures Kids() && summary.s == old(summary.s)
    {
    }

    lemma Sound()
      requires n > 9 && Shape() && Kids() && Fields(n, minPlusOne, max, s, parts, summary.s)
      ensures Valid()
    {
    }

    method SetOnly(x: nat)
      requires Valid() && n > 9 && x < U() && s == {}
      modifies this`minPlusOne, this`max, this`s
      ensures Valid() && s == {x}
    {
      FirstFields(n, minPlusOne, max, s, parts, summary.s, x);
      Settled(Increment(n, x), x, {x});
    }

    /** Adds `x`, which must not be a member. */
    method Insert(x: nat)
      requires Valid() && x < U() && x !in s
      modifies Repr
      ensures Valid() && s == old(s) + {x}
      decreases n, 4
    {
      if n <= 9 {
        leaf.Insert(x);
        s := s + {x};
        return;
      }
      var any := FHasAnyElements();
      if !any {
        SetOnly(x);
      } else {
        InsertNode(x);
      }
    }

    /** Insert in a node that has a minimum. */
    method InsertNode(x: nat)
      requires Valid() && n > 9 && x < U() && x !in s && s != {}
      modifies Repr
      ensures Valid() && s == old(s) + {x}
      decreases n, 3
    {
      var y := x;
      if x < NMin() {
        y := NMin();
      }
      InsertFields(n, minPlusOne, max, s, parts, summary.s, x, y);
      if x < NMin() {
        minPlusOne := Increment(n, x);
      }
      PutNew(y);
      if y > max {
        max := y;
      }
      s := s + {x};
      Holds();
    }

    /** Adds `x` if it is not a member, and says whether it was added. */
    method FCheckInsert(x: nat) returns (f: bool)
      requires Valid() && x < U()
      modifies Repr
      ensures Valid() && s == old(s) + {x}
      ensures f <==> x !in old(s)
      decreases n, 4
    {
      if n <= 9 {
        f := leaf.FCheckInsert(x);
        s := s + {x};
        return;
      }
      var any := FHasAnyElements();
      if !any {
        SetOnly(x);
        return true;
      }
      if NMin() == x {
        return false;
      }
      if x < NMin() {
        InsertNode(x);
        return true;
      }
      f := CheckInsertAbove(x);
    }

    /** Checked insert above the minimum. */
    method CheckInsertAbove(x: nat) returns (f: bool)
      requires Valid() && n > 9 && x < U() && s != {} && NMin() < x
      modifies Repr
      ensures Valid() && s == old(s) + {x}
      ensures f <==> x !in old(s)
      decreases n, 3
    {
      CheckInsertFields(n, minPlusOne, max, s, parts, summary.s, x);
      f := PutChecked(x);
      if x > max {
        max := x;
      }
      s := s + {x};
      Holds();
    }

    // Delete

    method SetEmpty()
      requires Valid() && n > 9 && s <= {max}
      modifies this`minPlusOne, this`max, this`s
      ensures Valid() && s == {}
    {
      EmptyFields(n, minPlusOne, max, s, parts, summary.s);
      Settled(0, 0, {});
    }

    /** Takes cluster `c` out of the summary if it is empty. */
    method Unname(c: nat) returns (emptied: bool, ghost cost: nat)
      requires n > 9 && Shape() && Kids() && c < |subtrees| && c in summary.s
      modifies summary.Repr
      ensures Kids() && summary.s == SumWithout(parts, old(summary.s), c)
      ensures emptied <==> parts[c] == {}
      ensures cost <= if emptied then DeleteCost(n - n / 2) else 0
      decreases n, 1
    {
      var any := SubHasAny(c);
      if any {
        return false, 0;
      }
      cost := SumDelete(c);
      emptied := true;
    }

    /** Takes `y` out of its cluster, and the cluster out of the summary if that leaves it empty. */
    method TakeOut(y: nat) returns (emptied: bool, ghost cost: nat)
      requires n > 9 && Shape() && Kids() && InPart(parts, y, ClusterSize(n))
      requires High(y, ClusterSize(n)) in summary.s
      modifies Repr - {this}, this`parts
      ensures Kids() && parts == Without(old(parts), y, ClusterSize(n))
      ensures summary.s == SumWithout(parts, old(summary.s), High(y, ClusterSize(n)))
      ensures emptied <==> parts[High(y, ClusterSize(n))] == {}
      ensures 1 <= cost < DeleteCost(n)
      decreases n, 2
    {
      cost := SubDelete(High(y, ClusterSize(n)), Low(y, ClusterSize(n)));
      ghost var more;
      emptied, more := Unname(High(y, ClusterSize(n)));
      cost := cost + more;
    }

    /** Finds the maximum again after the old one has been taken out of its cluster. */
    method RepairMax(emptied: bool)
      requires n > 9 && Shape() && Kids() && High(max, ClusterSize(n)) < Clusters(n)
      requires MaxStale(n, minPlusOne, max, s, parts, summary.s)
      requires emptied <==> parts[High(max, ClusterSize(n))] == {}
      modifies this`max
      ensures IsMax(s, max)
    {
      if emptied {
        var any, c := summary.FHasMax();
        if !any {
          MaxOfMin(n, minPlusOne, max, s, parts, summary.s);
          max := NMin();
        } else {
          assert subtrees[c].Valid();
          var _, e := subtrees[c].FHasMax();
          MaxOfLast(n, minPlusOne, max, s, parts, summary.s, c, e);
          max := Join(c, e, ClusterSize(n));
        }
      } else {
        var c := High(max, ClusterSize(n));
        assert subtrees[c].Valid();
        var _, e := subtrees[c].FHasMax();
        MaxOfSame(n, minPlusOne, max, s, parts, summary.s, e);
        max := Join(c, e, ClusterSize(n));
      }
    }

    /** The least member after the minimum. */
    method Promoted() returns (y: nat)
      requires Valid() && n > 9 && s != {} && NMin() != max
      ensures IsMin(s - {NMin()}, y) && y < U() && Decrement(n, Increment(n, y)) == y
    {
      FieldTests(n, minPlusOne, max, s, parts, summary.s);
      var _, c := summary.FHasMin();
      assert subtrees[c].Valid();
      var _, e := subtrees[c].FHasMin();
      PromoteFields(n, minPlusOne, max, s, parts, summary.s, c, e);
      y := Join(c, e, ClusterSize(n));
    }

    /** Removes `x`, which must be a member. `cost` counts the levels visited. */
    method Delete(x: nat) returns (ghost cost: nat)
      requires Valid() && x in s
      modifies Repr
      ensures Valid() && s == old(s) - {x}
      ensures 1 <= cost <= DeleteCost(n)
      ensures s == {} ==> cost == 1
      decreases n, 4
    {
      Bounded();
      if n <= 9 {
        leaf.Delete(x);
        s := s - {x};
        return 1;
      }
      FieldTests(n, minPlusOne, max, s, parts, summary.s);
      if NMin() == max {
        SetEmpty();
        return 1;
      }
      cost := DeleteNode(x);
    }

    /** Delete in a node with at least two members. */
    method DeleteNode(x: nat) returns (ghost cost: nat)
      requires Valid() && n > 9 && x in s && NMin() != max
      modifies Repr
      ensures Valid() && s == old(s) - {x} && s != {}
      ensures 1 <= cost <= DeleteCost(n)
      decreases n, 3
    {
      var y, min' := x, minPlusOne;
      if x == NMin() {
        y := Promoted();
        min' := Increment(n, y);
      }
      DeleteFields(n, minPlusOne, max, s, parts, summary.s, x, y, min');
      minPlusOne := min';
      var emptied;
      emptied, cost := TakeOut(y);
      cost := cost + 1;
      Settle(x, y, emptied);
    }

    /** Removes `x` if it is a member, and says whether it was; throws exactly as CheckDeleteThrows says,
        and then nothing has changed. */
    method FCheckDelete(x: nat) returns (r: Checked)
      requires Valid() && x < U()
      modifies Repr
      ensures Valid()
      ensures r.Thrown? <==> CheckDeleteThrows(n, old(s), x)
      ensures s == if r.Thrown? then old(s) else old(s) - {x}
      ensures r.Answer? ==> (r.f <==> x in old(s))
      decreases n, 4
    {
      if n <= 9 {
        var f := leaf.FCheckDelete(x);
        s := s - {x};
        return Answer(f);
      }
      FieldTests(n, minPlusOne, max, s, parts, summary.s);
      if s != {} {
        CardOne(s, max);
      }
      if NMin() == max {
        if x == max {
          SetEmpty();
          return Answer(true);
        }
        return Answer(false);
      }
      if x == NMin() {
        var any, _ := summary.FHasMin();
        if !any {
          return Thrown;
        }
        MinAloneIfEmpty();
        var _ := DeleteNode(x);
        return Answer(true);
      }
      r := CheckDeleteBelow(x);
    }

    lemma MinAloneIfEmpty()
      requires Valid() && n > 9 && summary.s != {}
      ensures s != {}
    {
      if s == {} {
        MinAlone(ClusterSize(n), Clusters(n), s, NMin(), parts, summary.s, NMin());
      }
    }

    /** Checked delete of an element that is not the minimum. */
    method CheckDeleteBelow(x: nat) returns (r: Checked)
      requires Valid() && n > 9 && x < U() && x != NMin() && NMin() != max && |s| != 1
      modifies Repr
      ensures Valid()
      ensures r.Thrown? <==> CheckDeleteThrows(n, old(s), x)
      ensures s == if r.Thrown? then old(s) else old(s) - {x}
      ensures r.Answer? ==> (r.f <==> x in old(s))
      decreases n, 3
    {
      CheckDeleteFields(n, minPlusOne, max, s, parts, summary.s, x);
      r := SubCheckDelete(High(x, ClusterSize(n)), Low(x, ClusterSize(n)));
      if r.Thrown? || !r.f {
        Holds();
        return;
      }
      var emptied, _ := Unname(High(x, ClusterSize(n)));
      Settle(x, x, emptied);
    }

    /** The end of every delete: `y` has left its cluster, and `max` is found again if it was `y`. */
    method Settle(ghost x: nat, y: nat, emptied: bool)
      requires n > 9 && Shape() && Kids() && High(y, ClusterSize(n)) < Clusters(n)
      requires MaxStale(n, minPlusOne, max, s - {x}, parts, summary.s)
      requires y != max ==> IsMax(s - {x}, max)
      requires emptied <==> parts[High(y, ClusterSize(n))] == {}
      modifies this`max, this`s
      ensures Valid() && s == old(s) - {x}
    {
      s := s - {x};
      if y == max {
        RepairMax(emptied);
      }
      Holds();
    }

    // Successor and predecessor

    /** The minimum and maximum of one cluster. */
    method SubMinMax(c: nat) returns (f: bool, first: nat, last: nat)
      requires n > 9 && Shape() && Kids() && c < |subtrees|
      ensures f <==> parts[c] != {}
      ensures f ==> IsMin(parts[c], first) && IsMax(parts[c], last)
    {
      assert subtrees[c].Valid();
      f, first := subtrees[c].FHasMin();
      f, last := subtrees[c].FHasMax();
    }

    /** The least member above `x`, or 0. At most one level is visited at each depth. */
    method NSuccessor(x: nat) returns (r: nat, ghost cost: nat)
      requires Valid() && x < U()
      ensures IsSuccessor(s, x, r)
      ensures cost <= Depth(n) + 1
      decreases n, 4
    {
      if n <= 9 {
        r := leaf.NSuccessor(x);
        return r, 1;
      }
      FieldTests(n, minPlusOne, max, s, parts, summary.s);
      if max < NMin() {
        return 0, 1;
      }
      if x < NMin() {
        return NMin(), 1;
      }
      UniverseSplits(n);
      SplitInjective(x, ClusterSize(n));
      r, cost := SuccessorFrom(High(x, ClusterSize(n)), x);
    }

    method SumSuccessor(c: nat) returns (i: nat, ghost cost: nat)
      requires n > 9 && Shape() && Kids() && c < Clusters(n)
      ensures IsSuccessor(summary.s, c, i) && cost <= Depth(n - n / 2) + 1
      decreases n, 0
    {
      DepthMono(n / 2, n - n / 2);
      i, cost := summary.NSuccessor(c);
    }

    method SumPredecessor(c: nat) returns (i: nat, ghost cost: nat)
      requires n > 9 && Shape() && Kids() && c < Clusters(n)
      ensures IsPredecessor(summary.s, c, i, Clusters(n) - 1) && cost <= Depth(n - n / 2) + 1
      decreases n, 0
    {
      DepthMono(n / 2, n - n / 2);
      i, cost := summary.NPredecessor(c);
    }

    method SuccessorFrom(c: nat, x: nat) returns (r: nat, ghost cost: nat)
      requires Valid() && n > 9 && s != {} && NMin() <= x < U()
      requires c == High(x, ClusterSize(n)) && c < Clusters(n) && Low(x, ClusterSize(n)) < ClusterSize(n)
      ensures IsSuccessor(s, x, r)
      ensures cost <= Depth(n - n / 2) + 2
      decreases n, 3
    {
      var f, _, last := SubMinMax(c);
      if f && Low(x, ClusterSize(n)) < last {
        assert subtrees[c].Valid();
        r, cost := subtrees[c].NSuccessor(Low(x, ClusterSize(n)));
        SuccessorInside(ClusterSize(n), Clusters(n), s, NMin(), parts, summary.s, x, last, r);
        return Join(c, r, ClusterSize(n)), cost + 1;
      }
      r, cost := SuccessorAfter(c, x);
    }

    method SuccessorAfter(c: nat, x: nat) returns (r: nat, ghost cost: nat)
      requires Valid() && n > 9 && s != {} && NMin() <= x < U() && c == High(x, ClusterSize(n)) && c < Clusters(n)
      requires forall e :: e in parts[c] ==> e <= Low(x, ClusterSize(n))
      ensures IsSuccessor(s, x, r)
      ensures cost <= Depth(n - n / 2) + 2
      decreases n, 2
    {
      var i;
      i, cost := SumSuccessor(c);
      cost := cost + 1;
      if i == 0 {
        SuccessorBeyond(ClusterSize(n), Clusters(n), s, NMin(), parts, summary.s, x, 0, 0);
        return 0, cost;
      }
      var _, first, _ := SubMinMax(i);
      SuccessorBeyond(ClusterSize(n), Clusters(n), s, NMin(), parts, summary.s, x, i, first);
      r := Join(i, first, ClusterSize(n));
    }

    /** The greatest member below `x`, or `U() - 1`. */
    method NPredecessor(x: nat) returns (r: nat, ghost cost: nat)
      requires Valid() && x < U()
      ensures IsPredecessor(s, x, r, U() - 1)
      ensures cost <= Depth(n) + 1
      decreases n, 4
    {
      if n <= 9 {
        r := leaf.NPredecessor(x);
        return r, 1;
      }
      FieldTests(n, minPlusOne, max, s, parts, summary.s);
      if max < NMin() {
        return U() - 1, 1;
      }
      if x > max {
        return max, 1;
      }
      UniverseSplits(n);
      SplitInjective(x, ClusterSize(n));
      r, cost := PredecessorFrom(High(x, ClusterSize(n)), x);
    }

    method PredecessorFrom(c: nat, x: nat) returns (r: nat, ghost cost: nat)
      requires Valid() && n > 9 && s != {} && x < U()
      requires c == High(x, ClusterSize(n)) && c < Clusters(n) && Low(x, ClusterSize(n)) < ClusterSize(n)
      ensures IsPredecessor(s, x, r, U() - 1)
      ensures cost <= Depth(n - n / 2) + 2
      decreases n, 3
    {
      var f, first, _ := SubMinMax(c);
      if f && Low(x, ClusterSize(n)) > first {
        assert subtrees[c].Valid();
        r, cost := subtrees[c].NPredecessor(Low(x, ClusterSize(n)));
        PredecessorInside(ClusterSize(n), Clusters(n), s, NMin(), parts, summary.s, x, first, r, ClusterSize(n) - 1, U() - 1);
        return Join(c, r, ClusterSize(n)), cost + 1;
      }
      r, cost := PredecessorBefore(c, x);
    }

    method PredecessorBefore(c: nat, x: nat) returns (r: nat, ghost cost: nat)
      requires Valid() && n > 9 && s != {} && x < U() && c == High(x, ClusterSize(n)) && c < Clusters(n)
      requires forall e :: e in parts[c] ==> Low(x, ClusterSize(n)) <= e
      ensures IsPredecessor(s, x, r, U() - 1)
      ensures cost <= Depth(n - n / 2) + 2
      decreases n, 2
    {
      var i;
      i, cost := SumPredecessor(c);
      cost := cost + 1;
      if i == Clusters(n) - 1 {
        PredecessorBeyond(ClusterSize(n), Clusters(n), s, NMin(), parts, summary.s, x, i, 0, i, U() - 1);
        r := if x > NMin() then NMin() else U() - 1;
        return;
      }
      var _, _, last := SubMinMax(i);
      PredecessorBeyond(ClusterSize(n), Clusters(n), s, NMin(), parts, summary.s, x, i, last, Clusters(n) - 1, U() - 1);
      r := Join(i, last, ClusterSize(n));
    }

    // Successor and predecessor, removed as they are found

    /** RepairMax as the ...Delete queries do it: through the summary's predecessor. */
    method RepairMaxBackward(emptied: bool)
      requires n > 9 && Shape() && Kids() && High(max, ClusterSize(n)) < Clusters(n)
      requires MaxStale(n, minPlusOne, max, s, parts, summary.s)
      requires emptied <==> parts[High(max, ClusterSize(n))] == {}
      modifies this`max
      ensures IsMax(s, max)
    {
      var c := High(max, ClusterSize(n));
      if emptied {
        var p, _ := summary.NPredecessor(c);
        MaxOfPredecessor(n, minPlusOne, max, s, parts, summary.s, c, p);
        if p == Clusters(n) - 1 {
          MaxOfMin(n, minPlusOne, max, s, parts, summary.s);
          max := NMin();
        } else {
          var _, _, e := SubMinMax(p);
          MaxOfLast(n, minPlusOne, max, s, parts, summary.s, p, e);
          max := Join(p, e, ClusterSize(n));
        }
      } else {
        var _, _, e := SubMinMax(c);
        MaxOfSame(n, minPlusOne, max, s, parts, summary.s, e);
        max := Join(c, e, ClusterSize(n));
      }
    }

    /** The end of a successor removal: the cluster of `y` leaves the summary if it was `single`, and the
        maximum is found again if it was `y`. */
    method SettleBackward(y: nat, single: bool)
      requires n > 9 && Shape() && Kids() && High(y, ClusterSize(n)) < Clusters(n)
      requires single <==> parts[High(y, ClusterSize(n))] == {}
      requires High(y, ClusterSize(n)) in summary.s
      requires MaxStale(n, minPlusOne, max, s - {y}, parts, SumWithout(parts, summary.s, High(y, ClusterSize(n))))
      requires y != max ==> IsMax(s - {y}, max)
      modifies summary.Repr, this`max, this`s
      ensures Valid() && s == old(s) - {y}
      decreases n, 1
    {
      if single {
        var _ := SumDelete(High(y, ClusterSize(n)));
      }
      s := s - {y};
      if y == max {
        RepairMaxBackward(single);
      }
      Holds();
    }

    /** Returns and removes the least member above `x`, or returns 0. */
    method NSuccessorDelete(x: nat) returns (r: nat)
      requires Valid() && x < U()
      modifies Repr
      ensures IsSuccessor(old(s), x, r)
      ensures Valid() && s == if r == 0 then old(s) else old(s) - {r}
      decreases n, 5
    {
      if n <= 9 {
        r := leaf.NSuccessorDelete(x);
        s := if r == 0 then s else s - {r};
        return;
      }
      FieldTests(n, minPlusOne, max, s, parts, summary.s);
      if max < NMin() {
        return 0;
      }
      if x < NMin() {
        r := NMin();
        var _ := Delete(r);
        return;
      }
      UniverseSplits(n);
      SplitInjective(x, ClusterSize(n));
      var c := High(x, ClusterSize(n));
      var f, first, last := SubMinMax(c);
      if f && Low(x, ClusterSize(n)) < last {
        r := SuccessorDeleteInside(c, x, first, last);
      } else {
        r := SuccessorDeleteBeyond(c, x);
      }
    }

    method SuccessorDeleteInside(c: nat, x: nat, first: nat, last: nat) returns (r: nat)
      requires Valid() && n > 9 && s != {} && NMin() <= x < U()
      requires c == High(x, ClusterSize(n)) && c < Clusters(n) && Low(x, ClusterSize(n)) < last
      requires IsMin(parts[c], first) && IsMax(parts[c], last)
      modifies Repr
      ensures IsSuccessor(old(s), x, r) && r > 0
      ensures Valid() && s == old(s) - {r}
      decreases n, 3
    {
      ghost var was := parts;
      ghost var m := NMin();
      assert Low(x, ClusterSize(n)) < ClusterSize(n) by {
        SplitInjective(x, ClusterSize(n));
      }
      var e := SubSuccessorDelete(c, Low(x, ClusterSize(n)));
      SuccessorInside(ClusterSize(n), Clusters(n), s, m, was, summary.s, x, last, e);
      r := Join(c, e, ClusterSize(n));
      FromPart(ClusterSize(n), Clusters(n), s, m, was, summary.s, c, e);
      EmptiedIfSingle(was[c], first, last, e);
      DeleteFields(n, minPlusOne, max, s, was, summary.s, r, r, minPlusOne);
      SettleBackward(r, first == last);
    }

    /** Takes `r`, which is `e` in cluster `i`, away. */
    method TakeAway(i: nat, e: nat, first: nat, last: nat, r: nat)
      requires Valid() && n > 9 && i < |subtrees| && e in parts[i] && r == Join(i, e, ClusterSize(n))
      requires IsMin(parts[i], first) && IsMax(parts[i], last)
      modifies Repr
      ensures Valid() && s == old(s) - {r}
      decreases n, 2
    {
      FieldTests(n, minPlusOne, max, s, parts, summary.s);
      FromPart(ClusterSize(n), Clusters(n), s, NMin(), parts, summary.s, i, e);
      EmptiedIfSingle(parts[i], first, last, e);
      DeleteFields(n, minPlusOne, max, s, parts, summary.s, r, r, minPlusOne);
      var _ := SubDelete(i, e);
      SettleBackward(r, first == last);
    }

    method SuccessorDeleteBeyond(c: nat, x: nat) returns (r: nat)
      requires Valid() && n > 9 && s != {} && NMin() <= x < U()
      requires c == High(x, ClusterSize(n)) && c < Clusters(n)
      requires forall e :: e in parts[c] ==> e <= Low(x, ClusterSize(n))
      modifies Repr
      ensures IsSuccessor(old(s), x, r)
      ensures Valid() && s == if r == 0 then old(s) else old(s) - {r}
      decreases n, 3
    {
      var i, _ := summary.NSuccessor(c);
      if i == 0 {
        SuccessorBeyond(ClusterSize(n), Clusters(n), s, NMin(), parts, summary.s, x, 0, 0);
        return 0;
      }
      var _, first, last := SubMinMax(i);
      SuccessorBeyond(ClusterSize(n), Clusters(n), s, NMin(), parts, summary.s, x, i, first);
      r := Join(i, first, ClusterSize(n));
      TakeAway(i, first, first, last, r);
    }

    /** Returns and removes the greatest member below `x`, or returns `U() - 1`. */
    method NPredecessorDelete(x: nat) returns (r: nat)
      requires Valid() && x < U()
      modifies Repr
      ensures IsPredecessor(old(s), x, r, U() - 1)
      ensures Valid() && s == if r == U() - 1 then old(s) else old(s) - {r}
      decreases n, 5
    {
      if n <= 9 {
        r := leaf.NPredecessorDelete(x);
        s := if r == U() - 1 then s else s - {r};
        return;
      }
      FieldTests(n, minPlusOne, max, s, parts, summary.s);
      if max < NMin() {
        return U() - 1;
      }
      if x > max {
        r := max;
        var _ := Delete(r);
        return;
      }
      UniverseSplits(n);
      SplitInjective(x, ClusterSize(n));
      var c := High(x, ClusterSize(n));
      var f, first, last := SubMinMax(c);
      if f && Low(x, ClusterSize(n)) > first {
        r := PredecessorDeleteInside(c, x, first, last);
      } else {
        r := PredecessorDeleteBeyond(c, x);
      }
    }

    method PredecessorDeleteInside(c: nat, x: nat, first: nat, last: nat) returns (r: nat)
      requires Valid() && n > 9 && s != {} && x < U() && x <= max
      requires c == High(x, ClusterSize(n)) && c < Clusters(n) && first < Low(x, ClusterSize(n))
      requires IsMin(parts[c], first) && IsMax(parts[c], last)
      modifies Repr
      ensures IsPredecessor(old(s), x, r, U() - 1) && r < U() - 1
      ensures Valid() && s == old(s) - {r}
      decreases n, 3
    {
      ghost var was := parts;
      ghost var m := NMin();
      assert Low(x, ClusterSize(n)) < ClusterSize(n) by {
        SplitInjective(x, ClusterSize(n));
      }
      var e := SubPredecessorDelete(c, Low(x, ClusterSize(n)));
      PredecessorInside(ClusterSize(n), Clusters(n), s, m, was, summary.s, x, first, e, ClusterSize(n) - 1, U() - 1);
      r := Join(c, e, ClusterSize(n));
      FromPart(ClusterSize(n), Clusters(n), s, m, was, summary.s, c, e);
      EmptiedIfSingle(was[c], first, last, e);
      DeleteFields(n, minPlusOne, max, s, was, summary.s, r, r, minPlusOne);
      SettleBackward(r, first == last);
    }

    method PredecessorDeleteBeyond(c: nat, x: nat) returns (r: nat)
      requires Valid() && n > 9 && s != {} && x < U() && x <= max
      requires c == High(x, ClusterSize(n)) && c < Clusters(n)
      requires forall e :: e in parts[c] ==> Low(x, ClusterSize(n)) <= e
      modifies Repr
      ensures IsPredecessor(old(s), x, r, U() - 1)
      ensures Valid() && s == if r == U() - 1 then old(s) else old(s) - {r}
      decreases n, 5, 0
    {
      var i, _ := summary.NPredecessor(c);
      if i == Clusters(n) - 1 {
        PredecessorBeyond(ClusterSize(n), Clusters(n), s, NMin(), parts, summary.s, x, i, 0, i, U() - 1);
        if x > NMin() {
          r := NMin();
          var _ := Delete(r);
          return;
        }
        return U() - 1;
      }
      var _, first, last := SubMinMax(i);
      PredecessorBeyond(ClusterSize(n), Clusters(n), s, NMin(), parts, summary.s, x, i, last, Clusters(n) - 1, U() - 1);
      r := Join(i, last, ClusterSize(n));
      TakeAway(i, last, first, last, r);
    }

    // Whole-tree operations

    /** `memset( this, 0, sizeof *this )` */
    method ZeroFill()
      requires Valid()
      modifies Repr
      ensures Valid() && s == {}
      decreases n, 4
    {
      if n <= 9 {
        leaf.Clear();
        s := {};
        return;
      }
      ZeroParts();
      Settled(0, 0, {});
    }

    method ZeroParts()
      requires n > 9 && Shape() && Kids()
      modifies Repr - {this}, this`parts
      ensures Kids() && Fields(n, 0, 0, {}, parts, summary.s)
      decreases n, 3
    {
      ZeroClusters();
      SumZero();
    }

    /** Zeroes the array of clusters. */
    method ZeroClusters()
      requires n > 9 && Shape() && Kids()
      modifies Repr - {this}, this`parts
      ensures Kids() && summary.s == old(summary.s)
      ensures forall j :: 0 <= j < |parts| ==> parts[j] == {}
      decreases n, 2
    {
      for i := 0 to |subtrees|
        invariant Kids() && summary.s == old(summary.s)
        invariant forall j :: 0 <= j < i ==> parts[j] == {}
      {
        SubZero(i);
      }
    }

    /** Removes every member. */
    method Clear()
      requires Valid()
      modifies Repr
      ensures Valid() && s == {}
      decreases n, 4
    {
      if n <= 9 {
        leaf.Clear();
        s := {};
        return;
      }
      FieldTests(n, minPlusOne, max, s, parts, summary.s);
      if max >= NMin() {
        if NMin() != max {
          ClearClusters();
        } else {
          EmptyFields(n, minPlusOne, max, s, parts, summary.s);
        }
        Settled(0, 0, {});
      }
    }

    /** Zeroes the array of clusters and clears the summary. */
    method ClearClusters()
      requires n > 9 && Shape() && Kids()
      modifies Repr - {this}, this`parts
      ensures Kids() && Fields(n, 0, 0, {}, parts, summary.s)
      decreases n, 3
    {
      ZeroClusters();
      SumClear();
    }

    /** Makes this the interval `[first, last]`. `first` is 0, or the small number of minima that the levels
        above have taken from their first clusters. */
    method InsertAll(first: nat, limit: Limit)
      requires Valid() && first + Depth(n) < 32 && first <= limit.Last(U())
      requires limit.Upto? ==> limit.last < U() - 1
      requires forall x :: x in s ==> first <= x <= limit.Last(U())
      modifies Repr
      ensures Valid() && s == Interval(first, limit.Last(U()))
      decreases n, 5
    {
      if n <= 9 {
        InsertAllLeaf(first, limit);
      } else if first == limit.Last(U()) {
        InsertLone(first);
      } else {
        InsertRange(first, limit, limit.Last(U()));
      }
    }

    method InsertRange(first: nat, limit: Limit, last: nat)
      requires Valid() && n > 9 && first + Depth(n) < 32 && first < last && last == limit.Last(U())
      requires limit.Upto? ==> limit.last < U() - 1
      requires forall x :: x in s ==> first <= x <= last
      modifies Repr
      ensures Valid() && s == Interval(first, last)
      decreases n, 4
    {
      FillClusters(first, limit);
      SetRange(first, limit, last);
    }

    method SetRange(first: nat, limit: Limit, last: nat)
      requires n > 9 && Shape() && Kids() && first + Depth(n) < 32 && first < last && last == limit.Last(U())
      requires limit.Upto? ==> limit.last < U() - 1
      requires summary.s == Interval(0, ClustersTo(n, limit) - 1)
      requires forall j :: 0 <= j < |parts| ==>
        parts[j] == if j < ClustersTo(n, limit) then FilledPart(n, first, limit, j) else {}
      modifies this`minPlusOne, this`max, this`s
      ensures Valid() && s == Interval(first, last)
    {
      ClusterWide(n);
      FullFields(n, first, limit, last, Interval(first, last), parts, summary.s);
      Settled(Increment(n, first), last, Interval(first, last));
    }

    method InsertAllLeaf(first: nat, limit: Limit)
      requires Valid() && n <= 9 && first < 32 && first <= limit.Last(U())
      requires limit.Upto? ==> limit.last < U() - 1
      requires forall x :: x in s ==> x <= limit.Last(U())
      modifies this`s, leaf.words
      ensures Valid() && s == Interval(first, limit.Last(U()))
    {
      leaf.InsertAll(first, limit);
      s := leaf.S();
    }

    /** InsertAll of a single element, which is all there can be here already. */
    method InsertLone(x: nat)
      requires Valid() && n > 9 && x < U() && s <= {x}
      modifies this`minPlusOne, this`max, this`s
      ensures Valid() && s == Interval(x, x)
    {
      if s != {} {
        assert max in s;
      }
      EmptyFields(n, minPlusOne, max, s, parts, summary.s);
      FirstFields(n, 0, 0, {}, parts, summary.s, x);
      assert Interval(x, x) == {x};
      Settled(Increment(n, x), x, Interval(x, x));
    }

    /** The cluster and summary calls of InsertAll. */
    method FillClusters(first: nat, limit: Limit)
      requires Valid() && n > 9 && first + Depth(n) < 32 && first < limit.Last(U())
      requires limit.Upto? ==> limit.last < U() - 1
      requires forall x :: x in s ==> first <= x <= limit.Last(U())
      modifies Repr - {this}, this`parts
      ensures Kids() && summary.s == Interval(0, ClustersTo(n, limit) - 1)
      ensures forall j :: 0 <= j < |parts| ==>
        parts[j] == if j < ClustersTo(n, limit) then FilledPart(n, first, limit, j) else {}
      decreases n, 3
    {
      var clusters := ClustersTo(n, limit);
      LimitFacts(n, limit);
      FillEach(clusters, first, limit);
      FillSummary(clusters);
    }

    /** Names the first clusters, and no other. */
    method FillSummary(clusters: nat)
      requires n > 9 && Shape() && Kids() && 0 < clusters <= Clusters(n)
      requires forall i :: i in summary.s ==> i < clusters
      modifies summary.Repr
      ensures Kids() && summary.s == Interval(0, clusters - 1)
      decreases n, 2, 0
    {
      ClusterWide(n);
      SumInsertAll(if clusters != Clusters(n) then Upto(clusters - 1) else Whole);
    }

    /** The loop of InsertAll over the clusters. */
    method FillEach(clusters: nat, first: nat, limit: Limit)
      requires Valid() && n > 9 && first + Depth(n) < 32 && first < limit.Last(U())
      requires limit.Upto? ==> limit.last < U() - 1
      requires forall x :: x in s ==> first <= x <= limit.Last(U())
      requires clusters == ClustersTo(n, limit) <= Clusters(n)
      modifies Repr - {this}, this`parts
      ensures Kids() && clusters > 0 && forall i :: i in summary.s ==> i < clusters
      ensures forall j :: 0 <= j < |parts| ==>
        parts[j] == if j < clusters then FilledPart(n, first, limit, j) else {}
      decreases n, 2, 1
    {
      LimitFacts(n, limit);
      ClusterWide(n);
      Confined(first, limit);
      for i := 0 to clusters
        invariant Kids() && summary.s == old(summary.s)
        invariant forall j :: 0 <= j < i ==> parts[j] == FilledPart(n, first, limit, j)
        invariant forall j :: i <= j < |parts| ==> parts[j] == old(parts)[j]
      {
        FillCluster(i, first, limit);
      }
    }

    method FillCluster(i: nat, first: nat, limit: Limit)
      requires n > 9 && Shape() && Kids() && first + Depth(n) < 32 && first < limit.Last(U())
      requires (limit.Upto? ==> limit.last < U() - 1) && i < ClustersTo(n, limit) && i < |subtrees|
      requires forall e :: e in parts[i] ==> e <= LimitOf(n, limit, i).Last(ClusterSize(n)) && (i == 0 ==> first < e)
      modifies subtrees[i].Repr, this`parts
      ensures Kids() && summary.s == old(summary.s)
      ensures parts == old(parts)[i := FilledPart(n, first, limit, i)]
      decreases n, 1
    {
      var start := if i == 0 then first + 1 else 0;
      var end := LimitOf(n, limit, i);
      assert start + Depth(n - n / 2) < 32 && start <= end.Last(ClusterSize(n)) && (end.Upto? ==> end.last < ClusterSize(n) - 1)
             && FilledPart(n, first, limit, i) == Interval(start, end.Last(ClusterSize(n))) by {
        LimitFacts(n, limit);
        ClusterWide(n);
        FullPart(n, first, limit, i);
      }
      SubInsertAll(i, start, end);
    }

    /** Members within the limit lie in the clusters within the limit. */
    lemma Confined(first: nat, limit: Limit)
      requires Valid() && n > 9 && first + 1 < ClusterSize(n)
      requires limit.Upto? ==> limit.last < U() - 1
      requires forall x :: x in s ==> first <= x <= limit.Last(U())
      ensures forall i, e :: 0 <= i < |parts| && e in parts[i] ==>
        i < ClustersTo(n, limit) && e <= LimitOf(n, limit, i).Last(ClusterSize(n)) && (i == 0 ==> first < e)
      ensures forall i :: i in summary.s ==> i < ClustersTo(n, limit)
    {
      LimitFacts(n, limit);
      forall i, e | 0 <= i < |parts| && e in parts[i]
        ensures i < ClustersTo(n, limit) && e <= LimitOf(n, limit, i).Last(ClusterSize(n)) && (i == 0 ==> first < e)
      {
        FromPart(ClusterSize(n), Clusters(n), s, NMin(), parts, summary.s, i, e);
      }
    }

    /** Complements the members within `[0, last]`. */
    method BitwiseInvert(limit: Limit)
      requires Valid() && (limit.Upto? ==> limit.last < U() - 1)
      requires forall x :: x in s ==> x <= limit.Last(U())
      modifies Repr
      ensures Valid() && s == Interval(0, limit.Last(U())) - old(s)
      decreases n, 8
    {
      if n <= 9 {
        InvertLeaf(limit);
        return;
      }
      FieldTests(n, minPlusOne, max, s, parts, summary.s);
      DepthSmall(n);
      if max < NMin() {
        InsertAll(0, limit);
      } else if NMin() == max {
        var x := NMin();
        InsertAll(0, limit);
        var _ := Delete(x);
      } else {
        InvertNode(limit, limit.Last(U()));
      }
    }

    method InvertLeaf(limit: Limit)
      requires Valid() && n <= 9 && (limit.Upto? ==> limit.last < U() - 1)
      requires forall x :: x in s ==> x <= limit.Last(U())
      modifies this`s, leaf.words
      ensures Valid() && s == Interval(0, limit.Last(U())) - old(s)
    {
      leaf.BitwiseInvert(limit);
      s := leaf.S();
    }

    method InvertNode(limit: Limit, last: nat)
      requires Valid() && n > 9 && s != {} && (limit.Upto? ==> limit.last < U() - 1) && last == limit.Last(U())
      requires forall x :: x in s ==> x <= last
      modifies Repr
      ensures Valid() && s == Interval(0, last) - old(s)
      decreases n, 7
    {
      var m := NMin();
      InvertClusters(limit, last);
      ghost var was := s;
      s := InvertGoal(s, m, last);
      Holds();
      var _ := Delete(m);
      assert s == Interval(0, last) - was;
    }

    /** The loop of BitwiseInvert over the clusters, from its start to its end. */
    method InvertClusters(limit: Limit, last: nat)
      requires Valid() && n > 9 && s != {} && (limit.Upto? ==> limit.last < U() - 1) && last == limit.Last(U())
      requires forall x :: x in s ==> x <= last
      modifies Repr - {this}, this`parts, this`minPlusOne, this`max
      ensures Kids() && Fields(n, minPlusOne, max, InvertGoal(s, old(NMin()), last), parts, summary.s)
      decreases n, 6
    {
      ghost var was, min1, max1, s0, sum := parts, minPlusOne, max, s, summary.s;
      ghost var t := InvertGoal(s, Decrement(n, min1), last);
      Confined(0, limit);
      minPlusOne, max := Increment(n, U() - 1), 0;
      var found := InvertLoop(limit, last, was, min1, max1, sum, t);
      InvertFinish(n, limit, last, min1, max1, s0, was, sum, t, found, minPlusOne, max, parts, summary.s);
    }

    method InvertLoop(limit: Limit, last: nat,
                      ghost was: seq<set<nat>>, ghost min1: nat, ghost max1: nat, ghost sum: set<nat>, ghost t: set<nat>)
      returns (found: bool)
      requires n > 9 && Shape() && Kids() && (limit.Upto? ==> limit.last < U() - 1) && last == limit.Last(U())
      requires Fields(n, min1, max1, s, was, sum) && s != {} && parts == was && summary.s == sum && max == 0
      requires t == InvertGoal(s, Decrement(n, min1), last) && forall x :: x in s ==> x <= last
      requires forall i, e :: 0 <= i < |was| && e in was[i] ==> e <= LimitOf(n, limit, i).Last(ClusterSize(n))
      modifies Repr - {this}, this`parts, this`minPlusOne, this`max
      ensures Kids() && Inverting(ClusterSize(n), was, t, ClustersTo(n, limit), found, NMin(), max, parts, summary.s)
      decreases n, 5
    {
      assert 0 < ClustersTo(n, limit) <= Clusters(n) by {
        LimitFacts(n, limit);
      }
      found := false;
      for i := 0 to ClustersTo(n, limit)
        invariant Kids() && Inverting(ClusterSize(n), was, t, i, found, NMin(), max, parts, summary.s)
      {
        found := InvertNext(i, limit, last, found, was, min1, max1, sum, t);
      }
    }

    /** One turn of that loop, as the loop sees it. */
    method InvertNext(i: nat, limit: Limit, last: nat, found: bool,
                      ghost was: seq<set<nat>>, ghost min1: nat, ghost max1: nat, ghost sum: set<nat>, ghost t: set<nat>)
      returns (found': bool)
      requires n > 9 && Shape() && Kids() && (limit.Upto? ==> limit.last < U() - 1) && last == limit.Last(U())
      requires Fields(n, min1, max1, s, was, sum) && s != {} && i < ClustersTo(n, limit) <= |subtrees|
      requires t == InvertGoal(s, Decrement(n, min1), last) && forall x :: x in s ==> x <= last
      requires forall e :: e in was[i] ==> e <= LimitOf(n, limit, i).Last(ClusterSize(n))
      requires Inverting(ClusterSize(n), was, t, i, found, NMin(), max, parts, summary.s)
      modifies Repr - {this}, this`parts, this`minPlusOne, this`max
      ensures Kids()
      ensures Inverting(ClusterSize(n), was, t, i + 1, found', NMin(), max, parts, summary.s)
      decreases n, 4
    {
      ghost var parts0, sum0, m0, mx0, lo, hi := parts, summary.s, NMin(), max, 0, 0;
      assert (LimitOf(n, limit, i).Upto? ==> LimitOf(n, limit, i).last < ClusterSize(n) - 1) by {
        LimitFacts(n, limit);
      }
      found', lo, hi := InvertCluster(i, LimitOf(n, limit, i), found);
      InvertAdvance(n, limit, last, min1, max1, s, was, sum, i, lo, hi,
        found, m0, mx0, parts0, sum0, found', NMin(), max, parts, summary.s);
    }

    /** One turn of that loop. */
    method InvertCluster(i: nat, limit: Limit, found: bool) returns (found': bool, ghost lo: nat, ghost hi: nat)
      requires n > 9 && Shape() && Kids() && i < |subtrees| && (i in summary.s <==> parts[i] != {})
      requires limit.Upto? ==> limit.last < ClusterSize(n) - 1
      requires forall e :: e in parts[i] ==> e <= limit.Last(ClusterSize(n))
      modifies Repr - {this}, this`parts, this`minPlusOne, this`max
      ensures Kids()
      ensures InvertTurn(ClusterSize(n), i, Interval(0, limit.Last(ClusterSize(n))) - old(parts)[i], lo, hi,
                found, old(NMin()), old(max), old(parts), old(summary.s), found', NMin(), max, parts, summary.s)
      decreases n, 3
    {
      InvertPart(i, limit);
      var f, first, last := SubMinMax(i);
      lo, hi := first, last;
      found' := found;
      if f {
        if Join(i, last, ClusterSize(n)) > max {
          max := Join(i, last, ClusterSize(n));
        }
        if !found {
          found' := true;
          TakeMinimum(i, first, last);
        }
      } else {
        var _ := SumDelete(i);
      }
    }

    method InvertPart(i: nat, limit: Limit)
      requires n > 9 && Shape() && Kids() && i < |subtrees|
      requires limit.Upto? ==> limit.last < ClusterSize(n) - 1
      requires forall e :: e in parts[i] ==> e <= limit.Last(ClusterSize(n))
      modifies Repr - {this}, this`parts
      ensures Kids() && summary.s == old(summary.s) + {i}
      ensures parts == old(parts)[i := Interval(0, limit.Last(ClusterSize(n))) - old(parts)[i]]
      decreases n, 2
    {
      var inSummary := summary.FHasElement(i);
      SubInvert(i, limit);
      if !inSummary {
        SumInsert(i);
      }
    }

    /** The first non-empty cluster of the result gives up its minimum to this node. */
    method TakeMinimum(i: nat, first: nat, last: nat)
      requires n > 9 && Shape() && Kids() && i < |subtrees| && i in summary.s
      requires IsMin(parts[i], first) && IsMax(parts[i], last) && first < ClusterSize(n)
      modifies Repr - {this}, this`parts, this`minPlusOne
      ensures Kids() && NMin() == Join(i, first, ClusterSize(n))
      ensures parts == old(parts)[i := old(parts)[i] - {first}]
      ensures summary.s == SumWithout(parts, old(summary.s), i)
      decreases n, 2
    {
      EmptiedIfSingle(parts[i], first, last, first);
      JoinFits(n, i, first);
      minPlusOne := Increment(n, Join(i, first, ClusterSize(n)));
      var _ := SubDelete(i, first);
      if first == last {
        var _ := SumDelete(i);
      }
    }

    /** `operator|=`: adds every member of `r`, another tree of the same size. */
    method OrEquals(r: Tree)
      requires Valid() && r.Valid() && r.n == n && Repr !! r.Repr
      modifies Repr
      ensures Valid() && s == old(s) + r.s
      decreases n, 7
    {
      if n <= 9 {
        leaf.OrEquals(r.leaf);
        s := s + r.s;
        return;
      }
      r.Bounded();
      FieldTests(n, r.minPlusOne, r.max, r.s, r.parts, r.summary.s);
      if r.max >= r.NMin() {
        OrNode(r);
      }
    }

    method OrNode(r: Tree)
      requires Valid() && n > 9 && r.Valid() && r.n == n && Repr !! r.Repr && r.s != {}
      modifies Repr
      ensures Valid() && s == old(s) + r.s
      decreases n, 6
    {
      FieldTests(n, r.minPlusOne, r.max, r.s, r.parts, r.summary.s);
      AddMinimum(r);
      if r.NMin() != r.max {
        UnionNode(r);
      }
    }

    /** The minimum of `r` is in none of its clusters, so it is added by itself. */
    method AddMinimum(r: Tree)
      requires Valid() && n > 9 && r.Valid() && r.n == n && Repr !! r.Repr && r.s != {}
      modifies Repr
      ensures Valid() && s == old(s) + {r.NMin()}
      decreases n, 5
    {
      FieldTests(n, r.minPlusOne, r.max, r.s, r.parts, r.summary.s);
      var has := FHasElement(r.NMin());
      if !has {
        Insert(r.NMin());
      }
    }

    method UnionNode(r: Tree)
      requires Valid() && n > 9 && r.Valid() && r.n == n && Repr !! r.Repr
      requires r.s != {} && r.NMin() in s && r.summary.s != {}
      modifies Repr
      ensures Valid() && s == old(s) + r.s
      decreases n, 5
    {
      ghost var parts0, sum0 := parts, summary.s;
      UnionClusters(r);
      UnionFields(n, minPlusOne, max, s, parts0, sum0, r.minPlusOne, r.max, r.s, r.parts, r.summary.s, parts, summary.s);
      Settled(minPlusOne, if r.max > max then r.max else max, s + r.s);
    }

    /** The loop of `operator|=` over the clusters that the summary of `r` names. */
    method UnionClusters(r: Tree)
      requires n > 9 && Shape() && Kids() && r.Shape() && r.n == n && r.Kids() && Repr !! r.Repr
      requires Named(parts, summary.s) && Named(r.parts, r.summary.s) && r.summary.s != {}
      modifies Repr - {this}, this`parts
      ensures Kids() && Named(parts, summary.s) && Uniting(old(parts), r.parts, |parts|, parts)
      decreases n, 4
    {
      var _, c := r.summary.FHasMin();
      UniteStart(parts, r.parts, r.summary.s, c);
      while true
        invariant Kids() && r.Kids() && r.parts == old(r.parts) && r.summary.s == old(r.summary.s)
        invariant Named(parts, summary.s) && c in r.summary.s && Uniting(old(parts), r.parts, c, parts)
        decreases |r.parts| - c
      {
        var next := UnionTurn(r, c, old(parts));
        if next == 0 {
          break;
        }
        c := next;
      }
    }

    /** One turn of that loop; `next` is the next cluster to join, or 0. */
    method UnionTurn(r: Tree, c: nat, ghost was: seq<set<nat>>) returns (next: nat)
      requires n > 9 && Shape() && Kids() && r.Shape() && r.n == n && r.Kids() && Repr !! r.Repr
      requires Named(parts, summary.s) && Named(r.parts, r.summary.s) && c in r.summary.s && Uniting(was, r.parts, c, parts)
      modifies Repr - {this}, this`parts
      ensures Kids() && Named(parts, summary.s)
      ensures r.Kids() && r.parts == old(r.parts) && r.summary.s == old(r.summary.s)
      ensures Uniting(was, r.parts, if next == 0 then |parts| else next, parts)
      ensures next != 0 ==> c < next && next in r.summary.s
      decreases n, 3
    {
      ghost var parts0, rparts, rsum := parts, r.parts, r.summary.s;
      UnionCluster(r, c);
      ghost var cost;
      next, cost := r.SumSuccessor(c);
      UniteStep(was, rparts, rsum, c, next, parts0, parts);
    }

    /** Joins cluster `c`. */
    method UnionCluster(r: Tree, c: nat)
      requires n > 9 && Shape() && Kids() && r.Shape() && r.n == n && r.Kids() && Repr !! r.Repr
      requires c < |parts| && Named(parts, summary.s) && r.parts[c] != {}
      modifies Repr - {this}, this`parts
      ensures Kids() && Named(parts, summary.s)
      ensures parts == old(parts)[c := old(parts)[c] + r.parts[c]]
      ensures r.Kids() && r.parts == old(r.parts) && r.summary.s == old(r.summary.s)
      decreases n, 2
    {
      assert r.subtrees[c].Valid() && r.subtrees[c].n == n - n / 2;
      JoinCluster(c, r.subtrees[c]);
      r.Untouched();
    }

    method JoinCluster(c: nat, that: Tree)
      requires n > 9 && Shape() && Kids() && c < |subtrees| && Named(parts, summary.s)
      requires that.Valid() && that.n == n - n / 2 && that.Repr !! Repr && that.s != {}
      modifies Repr - {this}, this`parts
      ensures Kids() && Named(parts, summary.s)
      ensures parts == old(parts)[c := old(parts)[c] + that.s]
      decreases n, 1
    {
      var any := SubHasAny(c);
      if !any {
        SumInsert(c);
      }
      SubOr(c, that);
    }

    // FDeleteAllAfter

    /** Kids, except that cluster `c` may be broken; `parts` says what it should hold. */
    ghost predicate KidsBut(c: nat)
      requires Shape() && n > 9
      reads this`parts, Repr - {this}
    {
      summary.Valid() && ClustersBut(c)
    }

    ghost predicate ClustersBut(c: nat)
      requires Shape() && n > 9
      reads this`parts, Repr - {this}
    {
      && |parts| == |subtrees|
      && (forall i :: 0 <= i < |subtrees| ==> subtrees[i].s == parts[i] && (i != c ==> subtrees[i].Valid()))
    }

    lemma AllKids(c: nat)
      requires n > 9 && Shape() && KidsBut(c) && c < |subtrees| && subtrees[c].Valid()
      ensures Kids()
    {
    }

    /** With sound fields, this tree is sound exactly when its cluster `c` and its summary are. */
    lemma SoundIff(c: nat)
      requires n > 9 && Shape() && ClustersBut(c) && c < |subtrees|
      requires Fields(n, minPlusOne, max, s, parts, summary.s)
      ensures Valid() <==> subtrees[c].Valid() && summary.Valid()
    {
    }

    /** After a call that changed cluster `c` only, and may have broken it, the others are as they were. */
    twostate lemma SubFrameBut(c: nat)
      requires n > 9 && Shape() && old(Kids()) && c < |subtrees|
      requires unchanged(Repr - subtrees[c].Repr - {this})
      requires parts == old(parts)[c := subtrees[c].s]
      ensures KidsBut(c) && summary.s == old(summary.s)
    {
      assert summary.Repr !! subtrees[c].Repr;
      forall i | 0 <= i < |subtrees| && i != c
        ensures subtrees[i].Valid() && subtrees[i].s == old(subtrees[i].s)
      {
        assert subtrees[i].Repr !! subtrees[c].Repr;
        assert old(subtrees[i].Valid());
      }
    }

    /** Clears cluster `i` beside a possibly broken cluster `c`. */
    method SubClearBut(i: nat, c: nat)
      requires n > 9 && Shape() && KidsBut(c) && i < |subtrees| && c < |subtrees| && i != c
      modifies subtrees[i].Repr, this`parts
      ensures KidsBut(c) && summary.s == old(summary.s)
      ensures subtrees[c].Valid() <==> old(subtrees[c].Valid())
      ensures parts == old(parts)[i := {}]
      decreases n, 0
    {
      var t := subtrees[i];
      assert t.Valid();
      t.Clear();
      parts := parts[i := t.s];
    }

    /** Clears every cluster after `c`. */
    method ClearAfter(c: nat)
      requires n > 9 && Shape() && KidsBut(c) && c < |subtrees|
      modifies Repr - {this}, this`parts
      ensures KidsBut(c) && summary.s == old(summary.s)
      ensures subtrees[c].Valid() <==> old(subtrees[c].Valid())
      ensures forall i :: 0 <= i < |parts| ==> parts[i] == if i <= c then old(parts)[i] else {}
      decreases n, 1
    {
      for i := c + 1 to |subtrees|
        invariant KidsBut(c) && summary.s == old(summary.s)
        invariant subtrees[c].Valid() <==> old(subtrees[c].Valid())
        invariant forall j :: 0 <= j < |parts| ==> parts[j] == if c < j < i then {} else old(parts)[j]
      {
        SubClearBut(i, c);
      }
    }

    /** FDeleteAllAfter in the cluster of `x`, when `x` does not end it. */
    method SubDeleteAfter(c: nat, e: nat) returns (r: Trimmed)
      requires n > 9 && Shape() && Kids() && c < |subtrees| && e + 1 < ClusterSize(n)
      modifies subtrees[c].Repr, this`parts
      ensures r.Raised? <==> DeleteAfterThrows(n - n / 2, old(parts)[c], e)
      ensures r.Raised? ==> Kids() && parts == old(parts) && summary.s == old(summary.s)
      ensures r.Done? ==> KidsBut(c) && summary.s == old(summary.s)
      ensures r.Done? ==> parts == old(parts)[c := Below(old(parts)[c], e + 1)]
      ensures r.Done? ==> (subtrees[c].Valid() <==> !DeleteAfterWraps(n - n / 2, old(parts)[c], e))
      ensures r.Done? ==> (r.emptied <==> parts[c] == {}) && (!r.emptied ==> IsMax(parts[c], r.newMax))
      ensures r.Done? && r.emptied ==> subtrees[c].Valid()
      decreases n, 0
    {
      var t := subtrees[c];
      assert t.Valid() && t.U() == ClusterSize(n);
      assert e != 255 || n - n / 2 != 8 by {
        assert Pow2(8) == 256;
      }
      r := t.FDeleteAllAfter(e);
      parts := parts[c := t.s];
      if r.Raised? {
        SubFrame(c);
      } else {
        SubFrameBut(c);
      }
    }

    method SumDeleteAfter(c: nat, ghost cc: nat)
      requires n > 9 && Shape() && KidsBut(cc) && c < Clusters(n) && cc < |subtrees|
      modifies summary.Repr
      ensures summary.s == Below(old(summary.s), c + 1)
      ensures summary.Valid() <==> !DeleteAfterWraps(n / 2, old(summary.s), c)
      ensures ClustersBut(cc)
      ensures subtrees[cc].Valid() <==> old(subtrees[cc].Valid())
      decreases n, 0
    {
      DeleteAfterNeverThrows(n / 2, summary.s, c);
      forall i | 0 <= i < |subtrees|
        ensures subtrees[i].Repr !! summary.Repr
      {
      }
      var _ := summary.FDeleteAllAfter(c);
    }

    method SumCheckDelete(c: nat) returns (r: Checked)
      requires n > 9 && Shape() && Kids() && c < Clusters(n)
      modifies summary.Repr
      ensures Kids()
      ensures r.Thrown? <==> CheckDeleteThrows(n / 2, old(summary.s), c)
      ensures summary.s == if r.Thrown? then old(summary.s) else old(summary.s) - {c}
      decreases n, 0
    {
      r := summary.FCheckDelete(c);
    }

    /** Removes every member above `x`. It throws exactly as DeleteAfterThrows says, and then nothing has
        changed; otherwise the tree it leaves is sound exactly when DeleteAfterWraps does not hold. */
    method FDeleteAllAfter(x: nat) returns (r: Trimmed)
      requires Valid() && x < U()
      modifies Repr
      ensures r.Raised? <==> DeleteAfterThrows(n, old(s), x)
      ensures r.Raised? ==> Valid() && s == old(s)
      ensures r.Done? ==> s == Below(old(s), x + 1) && (Valid() <==> !DeleteAfterWraps(n, old(s), x))
      ensures r.Done? && (n != 8 || x != 255) ==> (r.emptied <==> s == {}) && (!r.emptied ==> IsMax(s, r.newMax))
      ensures r.Done? && (n != 8 || x != 255) && r.emptied ==> Valid()
      decreases n, 7
    {
      if n <= 9 {
        r := DeleteAfterLeaf(x);
        return;
      }
      FieldTests(n, minPlusOne, max, s, parts, summary.s);
      ghost var was := s;
      if max < NMin() {
        assert Below(s, x + 1) == s;
        return Done(true, 0);
      }
      StraddlesFields(n, minPlusOne, max, s, parts, summary.s, x);
      if x < NMin() {
        Clear();
        assert Below(was, x + 1) == {};
        return Done(true, 0);
      }
      if x > max {
        assert Below(s, x + 1) == s;
        return Done(false, max);
      }
      r := DeleteAfterNode(x);
    }

    method DeleteAfterLeaf(x: nat) returns (r: Trimmed)
      requires Valid() && n <= 9 && x < U()
      modifies this`s, leaf.words
      ensures r.Done? && s == Below(old(s), x + 1) && (Valid() <==> !DeleteAfterWraps(n, old(s), x))
      ensures (n != 8 || x != 255) ==> Valid() && (r.emptied <==> s == {}) && (!r.emptied ==> IsMax(s, r.newMax))
    {
      if n < 8 {
        Pow2Mono(n, 7);
        assert Pow2(7) == 128;
      }
      assert forall y :: y in s ==> y < U() by {
        Bounded();
      }
      var e, m := leaf.FDeleteAllAfter(x);
      assert n == 8 && x == 255 ==> leaf.S() == {} && Below(s, x + 1) == s by {
        assert Pow2(8) == 256;
      }
      s := Below(s, x + 1);
      r := Done(e, m);
    }

    /** Cuts cluster `c` after `e`, and finds what is left in it; `e` may end the cluster, and then there is
        nothing to cut. `throws` and `sound` say how the cut goes. */
    method TrimCluster(c: nat, e: nat, ghost throws: bool, ghost sound: bool) returns (raised: bool, found: bool, m: nat)
      requires n > 9 && Shape() && Kids() && c < |subtrees| && e < ClusterSize(n)
      requires forall f :: f in parts[c] ==> f < ClusterSize(n)
      requires throws <==> e + 1 != ClusterSize(n) && DeleteAfterThrows(n - n / 2, parts[c], e)
      requires sound <==> !(e + 1 != ClusterSize(n) && DeleteAfterWraps(n - n / 2, parts[c], e))
      modifies Repr - {this}, this`parts
      ensures summary.s == old(summary.s)
      ensures raised <==> throws
      ensures raised ==> Kids() && parts == old(parts)
      ensures !raised ==> KidsBut(c) && (!found ==> Kids())
      ensures !raised ==> parts == old(parts)[c := Below(old(parts)[c], e + 1)]
      ensures !raised ==> (subtrees[c].Valid() <==> sound)
      ensures !raised ==> (found <==> parts[c] != {}) && (found ==> IsMax(parts[c], m))
      decreases n, 2
    {
      if e + 1 != ClusterSize(n) {
        raised, found, m := TrimInside(c, e);
      } else {
        assert Below(parts[c], e + 1) == parts[c];
        var f, _, last := SubMinMax(c);
        assert subtrees[c].Valid();
        raised, found, m := false, f, last;
      }
    }

    method TrimInside(c: nat, e: nat) returns (raised: bool, found: bool, m: nat)
      requires n > 9 && Shape() && Kids() && c < |subtrees| && e + 1 < ClusterSize(n)
      modifies Repr - {this}, this`parts
      ensures summary.s == old(summary.s)
      ensures raised <==> DeleteAfterThrows(n - n / 2, old(parts)[c], e)
      ensures raised ==> Kids() && parts == old(parts)
      ensures !raised ==> KidsBut(c) && (!found ==> Kids())
      ensures !raised ==> parts == old(parts)[c := Below(old(parts)[c], e + 1)]
      ensures !raised ==> (subtrees[c].Valid() <==> !DeleteAfterWraps(n - n / 2, old(parts)[c], e))
      ensures !raised ==> (found <==> parts[c] != {}) && (found ==> IsMax(parts[c], m))
      decreases n, 1
    {
      var r := SubDeleteAfter(c, e);
      if r.Raised? {
        return true, false, 0;
      }
      if r.emptied {
        AllKids(c);
      }
      raised, found, m := false, !r.emptied, r.newMax;
    }

    /** FDeleteAllAfter between the minimum and the maximum. */
    method DeleteAfterNode(x: nat) returns (r: Trimmed)
      requires Valid() && n > 9 && x < U() && s != {} && NMin() <= x <= max
      modifies Repr
      ensures r.Raised? <==> DeleteAfterThrows(n, old(s), x)
      ensures r.Raised? ==> Valid() && s == old(s)
      ensures r.Done? ==> s == Below(old(s), x + 1) && (Valid() <==> !DeleteAfterWraps(n, old(s), x))
      ensures r.Done? ==> !r.emptied && s != {} && IsMax(s, r.newMax)
      decreases n, 6
    {
      var c, e := High(x, ClusterSize(n)), Low(x, ClusterSize(n));
      DeleteAfterFields(n, minPlusOne, max, s, parts, summary.s, x, c, e);
      ghost var throws := e + 1 != ClusterSize(n) && DeleteAfterThrows(n - n / 2, parts[c], e);
      ghost var sound := !(e + 1 != ClusterSize(n) && DeleteAfterWraps(n - n / 2, parts[c], e));
      ghost var left := if Below(parts[c], e + 1) == {} then summary.s - {c} else summary.s;
      var raised := DeleteAfterAt(c, e, x, throws, sound, left);
      r := if raised then Raised else Done(false, max);
    }

    /** FDeleteAllAfter on the cluster `c` of `x`, the summary and the clusters after `c`. `throws` and `sound`
        say how the cut of cluster `c` goes, `left` what the summary names after it. */
    method DeleteAfterAt(c: nat, e: nat, x: nat, ghost throws: bool, ghost sound: bool, ghost left: set<nat>) returns (raised: bool)
      requires Valid() && n > 9 && x < U() && s != {} && NMin() <= x
      requires c == High(x, ClusterSize(n)) && e == Low(x, ClusterSize(n)) && c < |subtrees| && e < ClusterSize(n)
      requires throws <==> e + 1 != ClusterSize(n) && DeleteAfterThrows(n - n / 2, parts[c], e)
      requires sound <==> !(e + 1 != ClusterSize(n) && DeleteAfterWraps(n - n / 2, parts[c], e))
      requires left == if Below(parts[c], e + 1) == {} then summary.s - {c} else summary.s
      requires CheckDeleteThrows(n / 2, summary.s, c) ==> parts[c] == {}
      modifies Repr
      ensures raised <==> throws || CheckDeleteThrows(n / 2, old(summary.s), c)
      ensures raised ==> Valid() && s == old(s)
      ensures !raised ==> s == Below(old(s), x + 1) && IsMax(s, max)
      ensures !raised ==> (Valid() <==> sound && !DeleteAfterWraps(n / 2, left, c))
      decreases n, 5
    {
      ghost var parts0, sum0, max0 := parts, summary.s, max;
      raised := CutCluster(c, e, x, throws, sound, CheckDeleteThrows(n / 2, summary.s, c));
      if raised {
        Holds();
      } else {
        FinishAfter(c, x, parts0, sum0, max0);
      }
    }

    /** The state between the two halves: cluster `c` of `x` is cut, taken out of the summary if nothing is left
        in it, and the maximum is the new one; `parts0`, `sum0` and `max0` are what there was before. */
    ghost predicate CutAt(c: nat, x: nat, parts0: seq<set<nat>>, sum0: set<nat>, max0: nat)
      requires Shape() && n > 9
      reads this, Repr
    {
      && KidsBut(c) && c < |parts| == |parts0|
      && Fields(n, minPlusOne, max0, s, parts0, sum0)
      && parts == parts0[c := Below(parts0[c], Low(x, ClusterSize(n)) + 1)]
      && summary.s == (if parts[c] == {} then sum0 - {c} else sum0)
      && IsMax(Below(s, x + 1), max)
    }

    /** The state when only the cut has been made. */
    ghost predicate TrimAt(c: nat, x: nat, parts0: seq<set<nat>>)
      requires Shape() && n > 9
      reads this, Repr
    {
      && KidsBut(c) && c < |parts| == |parts0|
      && Fields(n, minPlusOne, max, s, parts0, summary.s)
      && parts == parts0[c := Below(parts0[c], Low(x, ClusterSize(n)) + 1)]
    }

    lemma TrimHolds(c: nat, e: nat, x: nat, parts0: seq<set<nat>>)
      requires n > 9 && Shape() && KidsBut(c) && Fields(n, minPlusOne, max, s, parts0, summary.s)
      requires e == Low(x, ClusterSize(n)) && c < |parts| == |parts0| && parts == parts0[c := Below(parts0[c], e + 1)]
      ensures TrimAt(c, x, parts0)
    {
    }

    /** Cuts the cluster of `x` and finds the new maximum. `throws` and `sound` say how the cut goes. */
    method CutCluster(c: nat, e: nat, x: nat, ghost throws: bool, ghost sound: bool, ghost sumThrows: bool) returns (raised: bool)
      requires Valid() && n > 9 && x < U() && s != {} && NMin() <= x
      requires c == High(x, ClusterSize(n)) && e == Low(x, ClusterSize(n)) && c < |subtrees| && e < ClusterSize(n)
      requires throws <==> e + 1 != ClusterSize(n) && DeleteAfterThrows(n - n / 2, parts[c], e)
      requires sound <==> !(e + 1 != ClusterSize(n) && DeleteAfterWraps(n - n / 2, parts[c], e))
      requires (sumThrows <==> CheckDeleteThrows(n / 2, summary.s, c)) && (sumThrows ==> parts[c] == {})
      modifies Repr - {this}, this`parts, this`max
      ensures raised <==> throws || sumThrows
      ensures raised ==> Kids() && parts == old(parts) && summary.s == old(summary.s) && max == old(max)
      ensures !raised ==> CutAt(c, x, old(parts), old(summary.s), old(max)) && (subtrees[c].Valid() <==> sound)
      ensures !raised ==> summary.s == if Below(old(parts)[c], e + 1) == {} then old(summary.s) - {c} else old(summary.s)
      decreases n, 4
    {
      ghost var parts0 := parts;
      var found, m;
      raised, found, m := TrimCluster(c, e, throws, sound);
      if !raised {
        TrimHolds(c, e, x, parts0);
        raised := NewMax(c, x, found, m, parts0, sumThrows);
      }
    }

    /** Finds the new maximum, in cluster `c` or before it. */
    method NewMax(c: nat, x: nat, found: bool, m: nat, ghost parts0: seq<set<nat>>, ghost sumThrows: bool) returns (raised: bool)
      requires n > 9 && Shape() && TrimAt(c, x, parts0) && (!found ==> Kids()) && x < U() && s != {} && NMin() <= x
      requires c == High(x, ClusterSize(n)) && c < |subtrees|
      requires (found <==> parts[c] != {}) && (found ==> IsMax(parts[c], m))
      requires (sumThrows <==> CheckDeleteThrows(n / 2, summary.s, c)) && (sumThrows ==> parts0[c] == {})
      modifies summary.Repr, this`max
      ensures KidsBut(c) && parts == old(parts) && (subtrees[c].Valid() <==> old(subtrees[c].Valid()))
      ensures raised <==> sumThrows
      ensures raised ==> Kids() && parts == parts0 && summary.s == old(summary.s) && max == old(max)
      ensures !raised ==> CutAt(c, x, parts0, old(summary.s), old(max))
      decreases n, 3
    {
      if found {
        NewMaxHere(c, x, m, parts0);
        raised := false;
      } else {
        raised := UnnameAndFind(c, x, parts0);
      }
    }

    method NewMaxHere(c: nat, x: nat, m: nat, ghost parts0: seq<set<nat>>)
      requires n > 9 && Shape() && TrimAt(c, x, parts0) && x < U() && s != {} && NMin() <= x
      requires c == High(x, ClusterSize(n)) && c < |subtrees| && IsMax(parts[c], m)
      modifies this`max
      ensures IsMax(Below(s, x + 1), max) && KidsBut(c) && (subtrees[c].Valid() <==> old(subtrees[c].Valid()))
    {
      CutMaxHere(n, minPlusOne, max, s, parts0, summary.s, x, m);
      max := Join(c, m, ClusterSize(n));
    }

    /** Nothing is left in cluster `c`: takes it out of the summary and finds the new maximum before it. */
    method UnnameAndFind(c: nat, x: nat, ghost parts0: seq<set<nat>>) returns (raised: bool)
      requires n > 9 && Shape() && Kids() && TrimAt(c, x, parts0) && x < U() && s != {} && NMin() <= x
      requires c == High(x, ClusterSize(n)) && c < |subtrees| && parts[c] == {}
      modifies summary.Repr, this`max
      ensures Kids() && parts == old(parts)
      ensures raised <==> CheckDeleteThrows(n / 2, old(summary.s), c)
      ensures raised ==> summary.s == old(summary.s) && max == old(max)
      ensures !raised ==> summary.s == old(summary.s) - {c} && IsMax(Below(s, x + 1), max)
      decreases n, 2
    {
      ghost var sum0 := summary.s;
      var r := SumCheckDelete(c);
      raised := r.Thrown?;
      if !raised {
        NewMaxBefore(c, x, parts0, sum0);
      }
    }

    method NewMaxBefore(c: nat, x: nat, ghost parts0: seq<set<nat>>, ghost sum0: set<nat>)
      requires n > 9 && Shape() && Kids() && x < U() && s != {} && NMin() <= x
      requires c == High(x, ClusterSize(n)) && c < |subtrees| && summary.s == sum0 - {c}
      requires Fields(n, minPlusOne, max, s, parts0, sum0)
      requires parts == parts0[c := {}] && Below(parts0[c], Low(x, ClusterSize(n)) + 1) == {}
      modifies this`max
      ensures IsMax(Below(s, x + 1), max)
      decreases n, 1
    {
      var p, _ := SumPredecessor(c);
      if p == Clusters(n) - 1 {
        CutMaxBefore(n, minPlusOne, max, s, parts0, sum0, x, summary.s, p, 0);
        max := NMin();
      } else {
        assert p in sum0 && p != c;
        assert parts0[p] != {};
        assert parts[p] == parts0[p];
        var _, _, last := SubMinMax(p);
        CutMaxBefore(n, minPlusOne, max, s, parts0, sum0, x, summary.s, p, last);
        max := Join(p, last, ClusterSize(n));
      }
    }

    /** Clears the clusters after that of `x` and cuts the summary. */
    method FinishAfter(c: nat, x: nat, ghost parts0: seq<set<nat>>, ghost sum0: set<nat>, ghost max0: nat)
      requires n > 9 && Shape() && x < U() && c == High(x, ClusterSize(n)) && c < Clusters(n)
      requires CutAt(c, x, parts0, sum0, max0) && s != {} && NMin() <= x
      modifies Repr - {this}, this`parts, this`s
      ensures s == Below(old(s), x + 1)
      ensures Valid() <==> old(subtrees[c].Valid()) && !DeleteAfterWraps(n / 2, old(summary.s), c)
      decreases n, 2
    {
      ghost var cut, left := parts, summary.s;
      ClearAfter(c);
      SumDeleteAfter(c, c);
      CutDone(c, x, parts0, cut, sum0, max0, left);
      Rename(c, Below(s, x + 1));
    }

    /** With sound fields for `s'`, this tree is a sound one for `s'` exactly when its cluster `c` and its
        summary are sound. */
    ghost method Rename(c: nat, s': set<nat>)
      requires n > 9 && Shape() && ClustersBut(c) && c < |subtrees|
      requires Fields(n, minPlusOne, max, s', parts, summary.s)
      modifies this`s
      ensures s == s'
      ensures Valid() <==> old(subtrees[c].Valid()) && old(summary.Valid())
    {
      s := s';
      SoundIff(c);
    }

    lemma CutDone(c: nat, x: nat, parts0: seq<set<nat>>, cut: seq<set<nat>>, sum0: set<nat>, max0: nat, left: set<nat>)
      requires n > 9 && Shape() && x < U() && c == High(x, ClusterSize(n)) && c < |parts| == |parts0|
      requires Fields(n, minPlusOne, max0, s, parts0, sum0) && s != {} && NMin() <= x
      requires cut == parts0[c := Below(parts0[c], Low(x, ClusterSize(n)) + 1)]
      requires forall i :: 0 <= i < |parts| ==> parts[i] == if i <= c then cut[i] else {}
      requires left == if cut[c] == {} then sum0 - {c} else sum0
      requires summary.s == Below(left, c + 1) && IsMax(Below(s, x + 1), max)
      ensures Fields(n, minPlusOne, max, Below(s, x + 1), parts, summary.s)
    {
      CutNamed(n, minPlusOne, max0, s, parts0, sum0, x, parts, left);
      CutFields(n, minPlusOne, max0, s, parts0, sum0, x, parts, summary.s, max);
    }
  }
}
