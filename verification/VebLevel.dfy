/** One level of a van Emde Boas tree, as sets.

    A node keeps its minimum to itself and spreads the other members over clusters of `k` elements each;
    a summary names the clusters that are not empty. `Level` is that relation between the node's set, its
    minimum, the sets of its clusters and the set of its summary. The lemmas say that what an operation
    of the tree does to minimum, clusters and summary is what it should do to the set.
  */
module VebLevel {
  import opened Split
  import opened VebSet

  /** The clusters hold `x`. */
  ghost predicate InPart(parts: seq<set<nat>>, x: nat, k: nat)
    requires k > 0
  {
    High(x, k) < |parts| && Low(x, k) in parts[High(x, k)]
  }

  /** `m` is the minimum, and is meaningless when `s` is empty. */
  ghost predicate Level(k: nat, c: nat, s: set<nat>, m: nat, parts: seq<set<nat>>, sum: set<nat>) {
    && k > 0
    && |parts| == c
    && (forall x :: x in s ==> High(x, k) < c)
    && (forall i, e :: 0 <= i < c && e in parts[i] ==> e < k)
    && (forall i :: i in sum <==> 0 <= i < c && parts[i] != {})
    && (forall x: nat :: InPart(parts, x, k) <==> x in s && x != m)
  }

  lemma SplitInjective(y: nat, k: nat)
    requires k > 0
    ensures Low(y, k) < k
    ensures forall z: nat :: High(z, k) == High(y, k) && Low(z, k) == Low(y, k) ==> z == y
  {
    JoinSplit(y, k);
    forall z: nat | High(z, k) == High(y, k) && Low(z, k) == Low(y, k)
      ensures z == y
    {
      JoinSplit(z, k);
    }
  }

  /** The clusters with `y` added, and with `y` removed. */
  ghost function With(parts: seq<set<nat>>, y: nat, k: nat): seq<set<nat>>
    requires k > 0 && High(y, k) < |parts|
  {
    parts[High(y, k) := parts[High(y, k)] + {Low(y, k)}]
  }

  ghost function Without(parts: seq<set<nat>>, y: nat, k: nat): seq<set<nat>>
    requires k > 0 && High(y, k) < |parts|
  {
    parts[High(y, k) := parts[High(y, k)] - {Low(y, k)}]
  }

  lemma WithMembers(parts: seq<set<nat>>, y: nat, k: nat)
    requires k > 0 && High(y, k) < |parts|
    ensures forall z: nat :: InPart(With(parts, y, k), z, k) <==> z == y || InPart(parts, z, k)
    ensures forall z: nat :: InPart(Without(parts, y, k), z, k) <==> z != y && InPart(parts, z, k)
  {
    SplitInjective(y, k);
  }

  /** The first member of an empty set is held as the minimum alone. */
  lemma InsertFirst(k: nat, c: nat, s: set<nat>, m: nat, parts: seq<set<nat>>, sum: set<nat>, x: nat)
    requires Level(k, c, s, m, parts, sum) && s == {} && High(x, k) < c
    ensures Level(k, c, {x}, x, parts, sum)
  {
  }

  /** Inserting `x` puts the greater of `x` and the old minimum into its cluster. */
  lemma InsertNext(k: nat, c: nat, s: set<nat>, m: nat, parts: seq<set<nat>>, sum: set<nat>, x: nat, y: nat)
    requires Level(k, c, s, m, parts, sum) && x !in s && High(x, k) < c && IsMin(s, m)
    requires y == if x < m then m else x
    ensures High(y, k) < c && !InPart(parts, y, k)
    ensures Level(k, c, s + {x}, if x < m then x else m, With(parts, y, k), sum + {High(y, k)})
    ensures IsMin(s + {x}, if x < m then x else m)
  {
    WithMembers(parts, y, k);
    SplitInjective(y, k);
  }

  /** With at most the minimum present, clusters and summary are empty. */
  lemma MinAlone(k: nat, c: nat, s: set<nat>, m: nat, parts: seq<set<nat>>, sum: set<nat>, m': nat)
    requires Level(k, c, s, m, parts, sum) && s <= {m}
    ensures forall i :: 0 <= i < c ==> parts[i] == {}
    ensures sum == {} && Level(k, c, {}, m', parts, sum)
  {
    forall i, e | 0 <= i < c && e in parts[i]
      ensures false
    {
      SplitJoin(i, e, k);
      assert InPart(parts, Join(i, e, k), k);
    }
  }

  /** A member other than the minimum is in the clusters, so the summary is not empty. */
  lemma NotAlone(k: nat, c: nat, s: set<nat>, m: nat, parts: seq<set<nat>>, sum: set<nat>, x: nat)
    requires Level(k, c, s, m, parts, sum) && x in s && x != m
    ensures InPart(parts, x, k) && High(x, k) in sum
  {
    assert InPart(parts, x, k);
  }

  /** The members of one cluster, read as members of the node. */
  lemma FromPart(k: nat, c: nat, s: set<nat>, m: nat, parts: seq<set<nat>>, sum: set<nat>, i: nat, e: nat)
    requires Level(k, c, s, m, parts, sum) && i < c && e in parts[i]
    ensures i in sum && InPart(parts, Join(i, e, k), k)
    ensures Join(i, e, k) in s && Join(i, e, k) != m
    ensures High(Join(i, e, k), k) == i && Low(Join(i, e, k), k) == e
  {
    SplitJoin(i, e, k);
    assert InPart(parts, Join(i, e, k), k);
  }

  /** The least member after the minimum is the minimum of the first cluster named by the summary. */
  lemma NextMin(k: nat, c: nat, s: set<nat>, m: nat, parts: seq<set<nat>>, sum: set<nat>, i: nat, e: nat)
    requires Level(k, c, s, m, parts, sum) && IsMin(s, m)
    requires IsMin(sum, i) && IsMin(parts[i], e)
    ensures IsMin(s - {m}, Join(i, e, k)) && InPart(parts, Join(i, e, k), k)
    ensures High(Join(i, e, k), k) == i && Low(Join(i, e, k), k) == e
  {
    FromPart(k, c, s, m, parts, sum, i, e);
    forall y | y in s && y != m
      ensures Join(i, e, k) <= y
    {
      NotAlone(k, c, s, m, parts, sum, y);
      SplitOrder(y, Join(i, e, k), k);
    }
  }

  /** The greatest member is the maximum of the last cluster named by the summary. */
  lemma LevelMax(k: nat, c: nat, s: set<nat>, m: nat, parts: seq<set<nat>>, sum: set<nat>, i: nat, e: nat)
    requires Level(k, c, s, m, parts, sum) && IsMin(s, m)
    requires IsMax(sum, i) && IsMax(parts[i], e)
    ensures IsMax(s, Join(i, e, k))
  {
    FromPart(k, c, s, m, parts, sum, i, e);
    forall y | y in s && y != m
      ensures y <= Join(i, e, k)
    {
      NotAlone(k, c, s, m, parts, sum, y);
      SplitOrder(Join(i, e, k), y, k);
    }
  }

  /** What is left in the summary once cluster `i` has lost a member. */
  ghost function SumWithout(parts: seq<set<nat>>, sum: set<nat>, i: nat): set<nat>
    requires i < |parts|
  {
    if parts[i] == {} then sum - {i} else sum
  }

  /** Deleting `x`: the minimum is replaced by the next member `y`, which leaves its cluster; any other
      member leaves its own cluster. */
  lemma DeleteNext(k: nat, c: nat, s: set<nat>, m: nat, parts: seq<set<nat>>, sum: set<nat>, x: nat, y: nat)
    requires Level(k, c, s, m, parts, sum) && IsMin(s, m) && x in s
    requires if x == m then IsMin(s - {m}, y) else y == x
    ensures InPart(parts, y, k)
    ensures var m', parts' := if x == m then y else m, Without(parts, y, k);
      IsMin(s - {x}, m') && Level(k, c, s - {x}, m', parts', SumWithout(parts', sum, High(y, k)))
  {
    NotAlone(k, c, s, m, parts, sum, y);
    WithMembers(parts, y, k);
  }

  /** After deleting the greatest member `y` of its cluster, the cluster's own maximum is the greatest of
      all if anything is left in it. */
  lemma MaxStays(k: nat, c: nat, s: set<nat>, m: nat, parts: seq<set<nat>>, sum: set<nat>, y: nat, e: nat)
    requires Level(k, c, s, m, parts, sum) && IsMin(s, m) && High(y, k) < c
    requires forall z :: z in s ==> z <= y
    requires IsMax(parts[High(y, k)], e)
    ensures IsMax(s, Join(High(y, k), e, k))
  {
    forall i | i in sum
      ensures i <= High(y, k)
    {
      var f :| f in parts[i];
      FromPart(k, c, s, m, parts, sum, i, f);
      SplitOrder(y, Join(i, f, k), k);
    }
    FromPart(k, c, s, m, parts, sum, High(y, k), e);
    LevelMax(k, c, s, m, parts, sum, High(y, k), e);
  }

  /** The successor is in the cluster of `x` when that cluster reaches beyond `x`. */
  lemma SuccessorInside(k: nat, c: nat, s: set<nat>, m: nat, parts: seq<set<nat>>, sum: set<nat>, x: nat, last: nat, r: nat)
    requires Level(k, c, s, m, parts, sum) && IsMin(s, m) && m <= x && High(x, k) < c
    requires IsMax(parts[High(x, k)], last) && Low(x, k) < last
    requires IsSuccessor(parts[High(x, k)], Low(x, k), r)
    ensures r in parts[High(x, k)]
    ensures Join(High(x, k), r, k) > 0 && IsSuccessor(s, x, Join(High(x, k), r, k))
    ensures Join(High(x, k), r, k) > m
  {
    var i := High(x, k);
    var y := Join(i, r, k);
    FromPart(k, c, s, m, parts, sum, i, r);
    SplitOrder(x, y, k);
    forall z | z in s && x < z
      ensures y <= z
    {
      NotAlone(k, c, s, m, parts, sum, z);
      SplitOrder(x, z, k);
      SplitOrder(z, y, k);
    }
  }

  /** Otherwise it is the minimum of the next cluster named by the summary, if there is one. */
  lemma SuccessorBeyond(k: nat, c: nat, s: set<nat>, m: nat, parts: seq<set<nat>>, sum: set<nat>, x: nat, i: nat, e: nat)
    requires Level(k, c, s, m, parts, sum) && IsMin(s, m) && m <= x && High(x, k) < c
    requires forall f :: f in parts[High(x, k)] ==> f <= Low(x, k)
    requires IsSuccessor(sum, High(x, k), i) && (i != 0 ==> IsMin(parts[i], e))
    ensures i != 0 ==> i in sum && i < c && e in parts[i]
    ensures i != 0 ==> Join(i, e, k) > m && IsSuccessor(s, x, Join(i, e, k))
    ensures i == 0 ==> IsSuccessor(s, x, 0)
  {
    forall z | z in s && x < z
      ensures i != 0 && Join(i, e, k) <= z
    {
      NotAlone(k, c, s, m, parts, sum, z);
      SplitOrder(x, z, k);
      if i != 0 {
        FromPart(k, c, s, m, parts, sum, i, e);
        SplitOrder(z, Join(i, e, k), k);
      }
    }
    if i != 0 {
      FromPart(k, c, s, m, parts, sum, i, e);
      SplitOrder(x, Join(i, e, k), k);
    }
  }

  /** The predecessor is in the cluster of `x` when that cluster starts before `x`. */
  lemma PredecessorInside(k: nat, c: nat, s: set<nat>, m: nat, parts: seq<set<nat>>, sum: set<nat>, x: nat, first: nat, r: nat, none: nat, last: nat)
    requires Level(k, c, s, m, parts, sum) && IsMin(s, m) && High(x, k) < c
    requires IsMin(parts[High(x, k)], first) && first < Low(x, k)
    requires IsPredecessor(parts[High(x, k)], Low(x, k), r, none) && Low(x, k) <= none && x <= last
    ensures r in parts[High(x, k)]
    ensures m < Join(High(x, k), r, k) < x && IsPredecessor(s, x, Join(High(x, k), r, k), last)
  {
    var i := High(x, k);
    var y := Join(i, r, k);
    FromPart(k, c, s, m, parts, sum, i, r);
    SplitOrder(y, x, k);
    forall z | z in s && z < x
      ensures z <= y
    {
      if z != m {
        NotAlone(k, c, s, m, parts, sum, z);
        SplitOrder(z, x, k);
        SplitOrder(y, z, k);
      }
    }
  }

  /** Otherwise it is the maximum of the previous cluster named by the summary, if there is one, else the
      minimum of the node, if that is below `x`. */
  lemma PredecessorBeyond(k: nat, c: nat, s: set<nat>, m: nat, parts: seq<set<nat>>, sum: set<nat>, x: nat, i: nat, e: nat, none: nat, last: nat)
    requires Level(k, c, s, m, parts, sum) && IsMin(s, m) && High(x, k) < c
    requires forall f :: f in parts[High(x, k)] ==> Low(x, k) <= f
    requires IsPredecessor(sum, High(x, k), i, none) && (i != none ==> IsMax(parts[i], e))
    requires High(x, k) <= none && x <= last
    ensures i != none ==> i in sum && i < c && e in parts[i]
    ensures i != none ==> m < Join(i, e, k) < x && IsPredecessor(s, x, Join(i, e, k), last)
    ensures i == none ==> IsPredecessor(s, x, if m < x then m else last, last)
  {
    forall z | z in s && z < x && z != m
      ensures i != none && z <= Join(i, e, k)
    {
      NotAlone(k, c, s, m, parts, sum, z);
      SplitOrder(z, x, k);
      if i != none {
        FromPart(k, c, s, m, parts, sum, i, e);
        SplitOrder(Join(i, e, k), z, k);
      }
    }
    if i != none {
      FromPart(k, c, s, m, parts, sum, i, e);
      SplitOrder(Join(i, e, k), x, k);
    }
  }

  /** Word-wise union below the top: joining the clusters of `t` to those of `s` joins the sets, once the
      minimum of `t` is in `s`. */
  lemma UnionLevel(k: nat, c: nat, s: set<nat>, m: nat, parts: seq<set<nat>>, sum: set<nat>,
                   t: set<nat>, mt: nat, partst: seq<set<nat>>, sumt: set<nat>, joined: seq<set<nat>>)
    requires Level(k, c, s, m, parts, sum) && IsMin(s, m)
    requires Level(k, c, t, mt, partst, sumt) && IsMin(t, mt) && mt in s
    requires |joined| == c && forall i :: 0 <= i < c ==> joined[i] == parts[i] + partst[i]
    ensures Level(k, c, s + t, m, joined, sum + sumt) && IsMin(s + t, m)
  {
    forall x: nat
      ensures InPart(joined, x, k) <==> InPart(parts, x, k) || InPart(partst, x, k)
    {
    }
  }

  /** The state of an inversion after `i` clusters. `t` is the set the node will hold in the end, `was` what
      the clusters held at first; `m` is the minimum of `t` once `found`, `max` the greatest member so far. */
  ghost predicate Inverting(k: nat, was: seq<set<nat>>, t: set<nat>, i: nat, found: bool, m: nat, max: nat,
                            parts: seq<set<nat>>, sum: set<nat>)
    requires k > 0
  {
    && i <= |parts| == |was|
    && (forall j :: i <= j < |was| ==> parts[j] == was[j])
    && (forall j, e :: 0 <= j < |parts| && e in parts[j] ==> e < k)
    && (forall j :: j in sum <==> 0 <= j < |parts| && parts[j] != {})
    && (forall x: nat :: High(x, k) < i ==> (InPart(parts, x, k) <==> x in t && !(found && x == m)))
    && (forall x :: x in t && High(x, k) < i ==> found && x <= max)
    && (if found then IsMin(t, m) && High(m, k) < i && max in t && High(max, k) < i else max == 0)
  }

  /** What one turn of the loop does with cluster `i`, whose complement is `q`, least `lo` and greatest `hi`. */
  ghost predicate InvertTurn(k: nat, i: nat, q: set<nat>, lo: nat, hi: nat,
                             found: bool, m: nat, max: nat, parts: seq<set<nat>>, sum: set<nat>,
                             found': bool, m': nat, max': nat, parts': seq<set<nat>>, sum': set<nat>)
    requires i < |parts|
  {
    if q == {} then
      && found' == found && m' == m && max' == max
      && parts' == parts[i := {}] && sum' == sum - {i}
    else
      && found' && IsMin(q, lo) && IsMax(q, hi)
      && max' == (if Join(i, hi, k) > max then Join(i, hi, k) else max)
      && m' == (if found then m else Join(i, lo, k))
      && parts' == parts[i := if found then q else q - {lo}]
      && sum' == SumWithout(parts', sum + {i}, i)
  }

  lemma InvertStep(k: nat, was: seq<set<nat>>, t: set<nat>, i: nat, q: set<nat>, lo: nat, hi: nat,
                   found: bool, m: nat, max: nat, parts: seq<set<nat>>, sum: set<nat>,
                   found': bool, m': nat, max': nat, parts': seq<set<nat>>, sum': set<nat>)
    requires k > 0 && Inverting(k, was, t, i, found, m, max, parts, sum) && i < |parts|
    requires forall e :: e in q ==> e < k
    requires forall x: nat :: High(x, k) == i ==> (x in t <==> Low(x, k) in q)
    requires InvertTurn(k, i, q, lo, hi, found, m, max, parts, sum, found', m', max', parts', sum')
    ensures Inverting(k, was, t, i + 1, found', m', max', parts', sum')
  {
    if q != {} {
      SplitJoin(i, hi, k);
      SplitJoin(i, lo, k);
      forall x | x in t && High(x, k) < i + 1
        ensures x <= max'
      {
        SplitOrder(Join(i, hi, k), x, k);
      }
      if !found {
        forall x | x in t
          ensures Join(i, lo, k) <= x
        {
          SplitOrder(x, Join(i, lo, k), k);
        }
      }
    }
    forall x: nat | High(x, k) < i + 1
      ensures InPart(parts', x, k) <==> x in t && !(found' && x == m')
    {
      if High(x, k) < i {
        assert InPart(parts', x, k) <==> InPart(parts, x, k);
      } else if q != {} && !found {
        SplitInjective(m', k);
      }
    }
  }

  /** When every cluster that can hold a member of `t` has been turned, the node holds `t`. */
  lemma InvertDone(k: nat, was: seq<set<nat>>, t: set<nat>, i: nat, found: bool, m: nat, max: nat,
                   parts: seq<set<nat>>, sum: set<nat>)
    requires k > 0 && Inverting(k, was, t, i, found, m, max, parts, sum) && t != {}
    requires forall x :: x in t ==> High(x, k) < i
    requires forall j :: i <= j < |was| ==> was[j] == {}
    ensures Level(k, |parts|, t, m, parts, sum) && IsMin(t, m) && IsMax(t, max)
  {
    var x :| x in t;
    assert found;
  }

  /** What is left of cluster `i` when everything after `x` is cut. */
  ghost function CutPart(parts: seq<set<nat>>, k: nat, x: nat, i: nat): set<nat>
    requires k > 0 && i < |parts|
  {
    if i < High(x, k) then parts[i] else if i == High(x, k) then Below(parts[i], Low(x, k) + 1) else {}
  }

  /** Cutting everything after `x`: the clusters after that of `x` are emptied, its own is cut at its offset,
      and the summary keeps the clusters that still hold something. */
  lemma CutLevel(k: nat, c: nat, s: set<nat>, m: nat, parts: seq<set<nat>>, sum: set<nat>, x: nat, parts': seq<set<nat>>, sum': set<nat>)
    requires Level(k, c, s, m, parts, sum) && IsMin(s, m) && m <= x && High(x, k) < c
    requires |parts'| == c && forall i :: 0 <= i < c ==> parts'[i] == CutPart(parts, k, x, i)
    requires forall i :: i in sum' <==> 0 <= i < c && parts'[i] != {}
    ensures Level(k, c, Below(s, x + 1), m, parts', sum') && IsMin(Below(s, x + 1), m)
  {
    forall z: nat
      ensures InPart(parts', z, k) <==> InPart(parts, z, k) && z <= x
    {
      SplitOrder(x, z, k);
    }
  }
}
