/** A van Emde Boas tree over a chosen number of clusters (`VebTreeWrap`). */
module VebWrap {
  import opened Split
  import opened Bits
  import opened VebSet
  import opened VebLevel
  import opened VebLeaf
  import opened VebTree
  import opened VebBounds

  /** `numeric_limits< size_t >::max()`: as an argument it asks for the first or the last member, as an
      answer it says that there is none. */
  const NO_ELEMENT: nat := 0xffff_ffff_ffff_ffff

  /** What an operation returns, or the exception it throws: the argument is past the last element, "No
      elements in tree.", "Tree is not initialized.", or the sizes of two trees differ. */
  datatype Reply<T> = Returned(value: T) | OutOfRange | NoElements | NotInitialized | SizesDiffer

  /** `r` answers "least member above `x`", or "least member" if `x` is NO_ELEMENT. */
  ghost predicate IsNext(s: set<nat>, x: nat, r: nat) {
    if r == NO_ELEMENT then forall y :: y in s ==> x != NO_ELEMENT && y <= x
    else r in s && (x == NO_ELEMENT || x < r) && forall y :: y in s && (x == NO_ELEMENT || x < y) ==> r <= y
  }

  ghost predicate IsPrevious(s: set<nat>, x: nat, r: nat) {
    if r == NO_ELEMENT then forall y :: y in s ==> x <= y && x != NO_ELEMENT
    else r in s && r < x && forall y :: y in s && y < x ==> y <= r
  }

  /** The stored extremes, and the sets that the tree, its clusters and its summary hold; `cut` is what the
      clusters are to hold when one of them has been cut. */
  datatype Content = Content(min1: nat, max: nat, s: set<nat>, parts: seq<set<nat>>, sum: set<nat>, cut: seq<set<nat>>)

  class Wrap {
    /** log2 of the greatest universe; a cluster has half as many bits. */
    const n: nat
    const summary: Tree
    var subtrees: seq<Tree>
    /** Only meaningful when there are clusters. */
    var last: nat
    var min: nat
    var max: nat

    ghost var Repr: set<object>
    ghost var s: set<nat>
    /** What each cluster holds; nothing where no cluster was created. */
    ghost var parts: seq<set<nat>>

    ghost predicate Shape()
      reads this`subtrees, this`Repr
    {
      && 10 <= n < 64 && n % 2 == 0
      && this in Repr
      && summary.n == n / 2 && summary.Shape()
      && summary in summary.Repr && summary.Repr <= Repr && this !in summary.Repr
      && |subtrees| <= Clusters(n)
      && (forall i :: 0 <= i < |subtrees| ==>
        && subtrees[i].n == n - n / 2 && subtrees[i].Shape()
        && subtrees[i] in subtrees[i].Repr && subtrees[i].Repr <= Repr && this !in subtrees[i].Repr
        && subtrees[i].Repr !! summary.Repr)
      && (forall i, j {:trigger subtrees[i].Repr, subtrees[j].Repr} :: 0 <= i < |subtrees| && 0 <= j < |subtrees| && i != j ==>
        subtrees[i].Repr !! subtrees[j].Repr)
    }

    /** The clusters and the summary are valid, and `parts` is what the clusters hold. */
    ghost predicate Kids()
      requires Shape()
      reads this`parts, this`subtrees, this`Repr, Repr - {this}
    {
      && summary.Valid()
      && |parts| == Clusters(n)
      && (forall i :: 0 <= i < |subtrees| ==> subtrees[i].Valid() && subtrees[i].s == parts[i])
      && (forall i :: |subtrees| <= i < |parts| ==> parts[i] == {})
    }

    /** There are exactly the clusters needed for the last element. */
    ghost predicate Span()
      reads this`subtrees, this`last
    {
      10 <= n < 64 && last < Pow2(n) && |subtrees| == High(last, ClusterSize(n)) + 1
    }

    /** What the stored minimum says about `s`, in the form the fixed trees use. */
    ghost function MinPlusOne(): nat
      reads this`s, this`min
    {
      if s == {} then 0 else Increment(n, min)
    }

    ghost predicate Valid()
      reads this, Repr
    {
      && Shape() && Kids()
      && Fields(n, MinPlusOne(), max, s, parts, summary.s)
      && (if s == {} then min == U() - 1 && max == 0 else IsMin(s, min))
      && (forall x :: x in s ==> x <= last)
      && (subtrees == [] ==> s == {})
      && (subtrees != [] ==> Span())
    }

    function U(): nat {
      Pow2(n)
    }

    /** The stored extremes and the tests on them are exact. */
    lemma Opened()
      requires Valid()
      ensures s != {} ==> Decrement(n, MinPlusOne()) == min && IsMin(s, min) && IsMax(s, max)
      ensures max >= min <==> s != {}
      ensures min == max <==> s == {max}
      ensures s != {} && min != max ==> summary.s != {}
      ensures forall x :: x in s ==> x < U()
      ensures U() < NO_ELEMENT && s != {NO_ELEMENT}
    {
      FieldTests(n, MinPlusOne(), max, s, parts, summary.s);
      assert Pow2(1) == 2;
      Pow2Mono(1, n);
      Pow2Mono(n, 63);
      Huge();
    }

    static lemma Huge()
      ensures Pow2(63) < NO_ELEMENT
    {
      Pow2Add(16, 16);
      Pow2Add(32, 16);
      Pow2Add(48, 15);
      Pow2Add(8, 8);
      Pow2Add(8, 7);
      assert Pow2(8) == 256 && Pow2(7) == 128;
    }

    /** `VebTreeWrap()`, for clusters of 2^(n/2) elements: no cluster is created. */
    constructor (n: nat)
      requires 10 <= n < 64 && n % 2 == 0
      ensures Valid() && this.n == n && s == {} && subtrees == [] && fresh(Repr)
    {
      this.n := n;
      var sum := new Tree(n / 2);
      summary, subtrees := sum, [];
      last, min, max := 0, Pow2(n) - 1, 0;
      s, parts := {}, seq(Clusters(n), _ => {});
      Repr := {this} + sum.Repr;
      new;
      assert Shape() && Kids();
      assert Fields(n, 0, 0, {}, parts, summary.s);
    }

    /** After a call that changed cluster `c` only, everything else is as it was. */
    twostate lemma Framed(c: nat)
      requires Shape() && old(Shape()) && old(Kids()) && c < |subtrees| && subtrees == old(subtrees) && Repr == old(Repr)
      requires unchanged(Repr - subtrees[c].Repr - {this})
      requires subtrees[c].Valid() && parts == old(parts)[c := subtrees[c].s]
      ensures Kids() && summary.s == old(summary.s)
    {
      assert summary.Repr !! subtrees[c].Repr;
      forall i | 0 <= i < |subtrees| && i != c
        ensures subtrees[i].Valid() && subtrees[i].s == old(subtrees[i].s)
      {
        assert subtrees[i].Repr !! subtrees[c].Repr;
        assert old(subtrees[i].Valid());
      }
    }

    /** Writes the two extremes; with them the fields describe `s'`. */
    method Settled(min': nat, max': nat, ghost s': set<nat>)
      requires Shape() && Kids() && Span() && Fields(n, Increment(n, min'), max', s', parts, summary.s)
      requires s' != {} && min' < U() && forall x :: x in s' ==> x <= last
      modifies this`min, this`max, this`s
      ensures Valid() && s == s'
    {
      assert Decrement(n, Increment(n, min')) == min' by {
        IndexWide(n);
      }
      min, max, s := min', max', s';
      KidsKept();
      Sound();
    }

    /** The clusters do not depend on the other fields. */
    twostate lemma KidsKept()
      requires Shape() && old(Shape()) && old(Kids()) && parts == old(parts) && subtrees == old(subtrees) && Repr == old(Repr)
      requires unchanged(Repr - {this})
      ensures Kids() && summary.s == old(summary.s)
    {
    }

    lemma Sound()
      requires Shape() && Kids() && Span() && Fields(n, Increment(n, min), max, s, parts, summary.s)
      requires s != {} && min < U() && Decrement(n, Increment(n, min)) == min && forall x :: x in s ==> x <= last
      ensures Valid()
    {
    }

    /** `_SetEmptyMinMax` */
    method SetEmpty()
      requires Shape() && Kids() && Fields(n, 0, 0, {}, parts, summary.s) && (subtrees != [] ==> Span())
      modifies this`min, this`max, this`s
      ensures Valid() && s == {}
    {
      min, max, s := U() - 1, 0, {};
      assert Kids();
    }

    // Calls on one cluster or on the summary

    method SubInsert(c: nat, e: nat)
      requires Shape() && Kids() && c < |subtrees| && e < ClusterSize(n) && e !in parts[c]
      modifies subtrees[c].Repr, this`parts
      ensures Kids() && summary.s == old(summary.s)
      ensures parts == old(parts)[c := old(parts)[c] + {e}]
    {
      var t := subtrees[c];
      assert t.Valid() && t.U() == ClusterSize(n);
      t.Insert(e);
      parts := parts[c := t.s];
      Framed(c);
    }

    method SubCheckInsert(c: nat, e: nat) returns (f: bool)
      requires Shape() && Kids() && c < |subtrees| && e < ClusterSize(n)
      modifies subtrees[c].Repr, this`parts
      ensures Kids() && summary.s == old(summary.s)
      ensures parts == old(parts)[c := old(parts)[c] + {e}]
      ensures f <==> e !in old(parts)[c]
    {
      var t := subtrees[c];
      assert t.Valid() && t.U() == ClusterSize(n);
      f := t.FCheckInsert(e);
      parts := parts[c := t.s];
      Framed(c);
    }

    method SubDelete(c: nat, e: nat)
      requires Shape() && Kids() && c < |subtrees| && e in parts[c]
      modifies subtrees[c].Repr, this`parts
      ensures Kids() && summary.s == old(summary.s)
      ensures parts == old(parts)[c := old(parts)[c] - {e}]
    {
      var t := subtrees[c];
      assert t.Valid() && t.U() == ClusterSize(n);
      var _ := t.Delete(e);
      parts := parts[c := t.s];
      Framed(c);
    }

    method SubCheckDelete(c: nat, e: nat) returns (r: Checked)
      requires Shape() && Kids() && c < |subtrees| && e < ClusterSize(n)
      modifies subtrees[c].Repr, this`parts
      ensures Kids() && summary.s == old(summary.s)
      ensures parts == old(parts)[c := if r.Thrown? then old(parts)[c] else old(parts)[c] - {e}]
      ensures r.Thrown? <==> CheckDeleteThrows(n - n / 2, old(parts)[c], e)
      ensures r.Answer? ==> (r.f <==> e in old(parts)[c])
    {
      var t := subtrees[c];
      assert t.Valid() && t.U() == ClusterSize(n);
      r := t.FCheckDelete(e);
      parts := parts[c := t.s];
      Framed(c);
    }

    method SubSuccessorDelete(c: nat, e: nat) returns (r: nat)
      requires Shape() && Kids() && c < |subtrees| && e < ClusterSize(n)
      modifies subtrees[c].Repr, this`parts
      ensures Kids() && summary.s == old(summary.s)
      ensures IsSuccessor(old(parts)[c], e, r)
      ensures parts == old(parts)[c := if r == 0 then old(parts)[c] else old(parts)[c] - {r}]
    {
      var t := subtrees[c];
      assert t.Valid() && t.U() == ClusterSize(n);
      r := t.NSuccessorDelete(e);
      parts := parts[c := t.s];
      Framed(c);
    }

    method SubPredecessorDelete(c: nat, e: nat) returns (r: nat)
      requires Shape() && Kids() && c < |subtrees| && e < ClusterSize(n)
      modifies subtrees[c].Repr, this`parts
      ensures Kids() && summary.s == old(summary.s)
      ensures IsPredecessor(old(parts)[c], e, r, ClusterSize(n) - 1)
      ensures parts == old(parts)[c := if r == ClusterSize(n) - 1 then old(parts)[c] else old(parts)[c] - {r}]
    {
      var t := subtrees[c];
      assert t.Valid() && t.U() == ClusterSize(n);
      r := t.NPredecessorDelete(e);
      parts := parts[c := t.s];
      Framed(c);
    }

    method SubClear(c: nat)
      requires Shape() && Kids() && c < |subtrees|
      modifies subtrees[c].Repr, this`parts
      ensures Kids() && summary.s == old(summary.s)
      ensures parts == old(parts)[c := {}]
    {
      var t := subtrees[c];
      assert t.Valid() && t.U() == ClusterSize(n);
      t.Clear();
      parts := parts[c := t.s];
      Framed(c);
    }

    /** The minimum and maximum of one cluster. */
    method SubMinMax(c: nat) returns (f: bool, first: nat, last: nat)
      requires Shape() && Kids() && c < |subtrees|
      ensures f <==> parts[c] != {}
      ensures f ==> IsMin(parts[c], first) && IsMax(parts[c], last)
    {
      assert subtrees[c].Valid();
      f, first := subtrees[c].FHasMin();
      f, last := subtrees[c].FHasMax();
    }

    method SumSuccessor(c: nat) returns (i: nat)
      requires Shape() && Kids() && c < Clusters(n)
      ensures IsSuccessor(summary.s, c, i)
    {
      ghost var cost;
      i, cost := summary.NSuccessor(c);
    }

    method SumPredecessor(c: nat) returns (i: nat)
      requires Shape() && Kids() && c < Clusters(n)
      ensures IsPredecessor(summary.s, c, i, Clusters(n) - 1)
    {
      ghost var cost;
      i, cost := summary.NPredecessor(c);
    }

    method SumCheckInsert(c: nat)
      requires Shape() && Kids() && c < Clusters(n)
      modifies summary.Repr
      ensures Kids() && summary.s == old(summary.s) + {c}
    {
      var _ := summary.FCheckInsert(c);
    }

    method SumInsert(c: nat)
      requires Shape() && Kids() && c < Clusters(n) && c !in summary.s
      modifies summary.Repr
      ensures Kids() && summary.s == old(summary.s) + {c}
    {
      summary.Insert(c);
    }

    method SumDelete(c: nat)
      requires Shape() && Kids() && c in summary.s
      modifies summary.Repr
      ensures Kids() && summary.s == old(summary.s) - {c}
    {
      var _ := summary.Delete(c);
    }

    method SumClear()
      requires Shape() && Kids()
      modifies summary.Repr
      ensures Kids() && summary.s == {}
    {
      summary.Clear();
    }

    // Insert

    /** The first member of an empty tree is held as the minimum alone. */
    method SetOnly(x: nat)
      requires Valid() && subtrees != [] && x <= last && s == {}
      modifies this`min, this`max, this`s
      ensures Valid() && s == {x}
    {
      FirstFields(n, 0, max, s, parts, summary.s, x);
      Settled(x, x, {x});
    }

    /** Adds `x`, which must not be a member, unless it is past the last element. */
    method Insert(x: nat) returns (r: Reply<()>)
      requires Valid() && subtrees != [] && x !in s
      modifies Repr - {this}, this`min, this`max, this`parts, this`s
      ensures Valid()
      ensures r == if x > last then OutOfRange else Returned(())
      ensures s == if x > last then old(s) else old(s) + {x}
    {
      if x > last {
        return OutOfRange;
      }
      Opened();
      if max < min {
        SetOnly(x);
      } else {
        InsertNext(x);
      }
      r := Returned(());
    }

    /** Cluster of an element up to the last one. */
    lemma InSpan(x: nat)
      requires Shape() && Span() && x <= last
      ensures x < U() && High(x, ClusterSize(n)) < |subtrees| && Low(x, ClusterSize(n)) < ClusterSize(n)
    {
      SplitOrder(last, x, ClusterSize(n));
      SplitInjective(x, ClusterSize(n));
    }

    method InsertNext(x: nat)
      requires Valid() && subtrees != [] && x <= last && x !in s && s != {}
      modifies Repr - {this}, this`min, this`max, this`parts, this`s
      ensures Valid() && s == old(s) + {x}
    {
      Opened();
      var y, min' := if x < min then min else x, if x < min then x else min;
      InSpan(x);
      InSpan(y);
      InsertFields(n, MinPlusOne(), max, s, parts, summary.s, x, y);
      SumCheckInsert(High(y, ClusterSize(n)));
      SubInsert(High(y, ClusterSize(n)), Low(y, ClusterSize(n)));
      Settled(min', if y > max then y else max, s + {x});
    }

    /** Adds `x` if it is not a member, and says whether it was added. */
    method FCheckInsert(x: nat) returns (r: Reply<bool>)
      requires Valid() && subtrees != []
      modifies Repr - {this}, this`min, this`max, this`parts, this`s
      ensures Valid()
      ensures r == if x > last then OutOfRange else Returned(x !in old(s))
      ensures s == if x > last then old(s) else old(s) + {x}
    {
      if x > last {
        return OutOfRange;
      }
      Opened();
      if max < min {
        SetOnly(x);
        return Returned(true);
      }
      if min == x {
        return Returned(false);
      }
      if x < min {
        InsertNext(x);
        return Returned(true);
      }
      var f := CheckInsertAbove(x);
      r := Returned(f);
    }

    method CheckInsertAbove(x: nat) returns (f: bool)
      requires Valid() && subtrees != [] && x <= last && s != {} && min < x
      modifies Repr - {this}, this`min, this`max, this`parts, this`s
      ensures Valid() && s == old(s) + {x}
      ensures f <==> x !in old(s)
    {
      Opened();
      InSpan(x);
      CheckInsertFields(n, MinPlusOne(), max, s, parts, summary.s, x);
      SumCheckInsert(High(x, ClusterSize(n)));
      f := SubCheckInsert(High(x, ClusterSize(n)), Low(x, ClusterSize(n)));
      Settled(min, if x > max then x else max, s + {x});
    }

    // Delete

    /** Takes `y` out of its cluster, and the cluster out of the summary if that leaves it empty. */
    method TakeOut(y: nat) returns (emptied: bool)
      requires Shape() && Kids() && InPart(parts, y, ClusterSize(n)) && High(y, ClusterSize(n)) in summary.s
      requires High(y, ClusterSize(n)) < |subtrees|
      modifies Repr - {this}, this`parts
      ensures Kids() && parts == Without(old(parts), y, ClusterSize(n))
      ensures summary.s == SumWithout(parts, old(summary.s), High(y, ClusterSize(n)))
      ensures emptied <==> parts[High(y, ClusterSize(n))] == {}
    {
      SubDelete(High(y, ClusterSize(n)), Low(y, ClusterSize(n)));
      emptied := Unname(High(y, ClusterSize(n)));
    }

    method Unname(c: nat) returns (emptied: bool)
      requires Shape() && Kids() && c in summary.s && c < |subtrees|
      modifies summary.Repr
      ensures Kids() && summary.s == SumWithout(parts, old(summary.s), c)
      ensures emptied <==> parts[c] == {}
    {
      var f, _, _ := SubMinMax(c);
      emptied := !f;
      if emptied {
        SumDelete(c);
      }
    }

    /** The clusters named by the summary have been created. */
    lemma Created(minPlusOne: nat, max': nat, s': set<nat>)
      requires Shape() && Kids() && Level(ClusterSize(n), Clusters(n), s', Decrement(n, minPlusOne), parts, summary.s)
      ensures forall i :: i in summary.s ==> i < |subtrees|
    {
    }

    /** The maximum after the old one has been taken out of its cluster. */
    method NewMax(min': nat, ghost s': set<nat>, emptied: bool) returns (max': nat)
      requires Shape() && Kids() && Span() && High(max, ClusterSize(n)) < |subtrees| && min' < U()
      requires MaxStale(n, Increment(n, min'), max, s', parts, summary.s)
      requires emptied <==> parts[High(max, ClusterSize(n))] == {}
      ensures IsMax(s', max')
    {
      ghost var minPlusOne := Increment(n, min');
      IndexWide(n);
      if emptied {
        var any, c := summary.FHasMax();
        if !any {
          MaxOfMin(n, minPlusOne, max, s', parts, summary.s);
          max' := min';
        } else {
          var _, _, e := SubMinMax(c);
          MaxOfLast(n, minPlusOne, max, s', parts, summary.s, c, e);
          max' := Join(c, e, ClusterSize(n));
        }
      } else {
        var c := High(max, ClusterSize(n));
        var _, _, e := SubMinMax(c);
        MaxOfSame(n, minPlusOne, max, s', parts, summary.s, e);
        max' := Join(c, e, ClusterSize(n));
      }
    }

    /** The end of every delete: `y` has left its cluster for `x` to leave the set. */
    method Settle(ghost x: nat, min': nat, y: nat, emptied: bool)
      requires Shape() && Kids() && Span() && High(y, ClusterSize(n)) < |subtrees|
      requires min' < U() && MaxStale(n, Increment(n, min'), max, s - {x}, parts, summary.s)
      requires (y != max ==> IsMax(s - {x}, max)) && forall z :: z in s ==> z <= last
      requires emptied <==> parts[High(y, ClusterSize(n))] == {}
      modifies this`min, this`max, this`s
      ensures Valid() && s == old(s) - {x}
    {
      var max' := max;
      if y == max {
        max' := NewMax(min', s - {x}, emptied);
      }
      Settled(min', max', s - {x});
    }

    /** The least member after the minimum. */
    method Promoted() returns (y: nat)
      requires Valid() && s != {} && min != max
      ensures IsMin(s - {min}, y) && y < U() && Decrement(n, Increment(n, y)) == y
    {
      Opened();
      var _, c := summary.FHasMin();
      var _, e, _ := SubMinMax(c);
      PromoteFields(n, MinPlusOne(), max, s, parts, summary.s, c, e);
      y := Join(c, e, ClusterSize(n));
    }

    /** Removes `x`, which must be a member. */
    method Delete(x: nat)
      requires Valid() && x in s
      modifies Repr - {this}, this`min, this`max, this`parts, this`s
      ensures Valid() && s == old(s) - {x}
    {
      Opened();
      if min == max {
        EmptyFields(n, MinPlusOne(), max, s, parts, summary.s);
        SetEmpty();
      } else {
        DeleteNext(x);
      }
    }

    method DeleteNext(x: nat)
      requires Valid() && x in s && min != max
      modifies Repr - {this}, this`min, this`max, this`parts, this`s
      ensures Valid() && s == old(s) - {x}
    {
      Opened();
      var y, min' := x, min;
      if x == min {
        y := Promoted();
        min' := y;
      }
      DeleteAs(x, y, min');
    }

    method DeleteAs(ghost x: nat, y: nat, min': nat)
      requires Valid() && x in s && min != max
      requires if x == min then IsMin(s - {x}, y) && min' == y else y == x && min' == min
      modifies Repr - {this}, this`min, this`max, this`parts, this`s
      ensures Valid() && s == old(s) - {x}
    {
      Leaves(x, y, min');
      var emptied := TakeOut(y);
      Settle(x, min', y, emptied);
    }

    /** What taking `y` out of its cluster makes of the fields, for `x` to leave the set. */
    lemma Leaves(x: nat, y: nat, min': nat)
      requires Valid() && x in s && min != max
      requires if x == min then IsMin(s - {x}, y) && min' == y else y == x && min' == min
      ensures Span() && y < U() && min' < U() && High(y, ClusterSize(n)) < |subtrees| && High(y, ClusterSize(n)) in summary.s
      ensures InPart(parts, y, ClusterSize(n))
      ensures var parts' := Without(parts, y, ClusterSize(n));
        MaxStale(n, Increment(n, min'), max, s - {x}, parts', SumWithout(parts', summary.s, High(y, ClusterSize(n))))
      ensures y != max ==> IsMax(s - {x}, max)
    {
      Opened();
      IndexWide(n);
      InSpan(y);
      DeleteFields(n, MinPlusOne(), max, s, parts, summary.s, x, y, Increment(n, min'));
    }

    /** Removes `x` if it is a member, and says whether it was. It throws "No elements in tree." exactly as
        DeleteThrows says, and then nothing has changed. */
    method FCheckDelete(x: nat) returns (r: Reply<bool>)
      requires Valid() && subtrees != []
      modifies Repr - {this}, this`min, this`max, this`parts, this`s
      ensures Valid()
      ensures r == if x > last then OutOfRange else if DeleteThrows(n, old(s), x) then NoElements else Returned(x in old(s))
      ensures s == if r.Returned? then old(s) - {x} else old(s)
    {
      if x > last {
        return OutOfRange;
      }
      Opened();
      ghost var throws := DeleteThrows(n, s, x);
      ThrowsCases(x);
      if min == max {
        if x == min {
          EmptyFields(n, MinPlusOne(), max, s, parts, summary.s);
          SetEmpty();
          return Returned(true);
        }
        return Returned(false);
      }
      if x == min {
        r := CheckDeleteMin(x);
      } else {
        r := CheckDeleteBelow(x, throws);
      }
    }

    lemma ThrowsCases(x: nat)
      requires Valid() && subtrees != [] && x <= last
      ensures min == max ==> !DeleteThrows(n, s, x) && (x == min <==> x in s)
      ensures min != max && x == min ==> (DeleteThrows(n, s, x) <==> s == {})
      ensures min != max ==> |s| != 1
    {
      Opened();
      if s != {} {
        CardOne(s, max);
      }
    }

    /** Checked delete of the stored minimum, which an empty tree also stores. */
    method CheckDeleteMin(x: nat) returns (r: Reply<bool>)
      requires Valid() && subtrees != [] && x == min && min != max
      modifies Repr - {this}, this`min, this`max, this`parts, this`s
      ensures Valid()
      ensures r == if old(s) == {} then NoElements else Returned(true)
      ensures s == if r.Returned? then old(s) - {x} else old(s)
    {
      Opened();
      var any, _ := summary.FHasMin();
      if !any {
        return NoElements;
      }
      MinHere();
      DeleteNext(x);
      r := Returned(true);
    }

    lemma MinHere()
      requires Valid() && summary.s != {}
      ensures s != {}
    {
      if s == {} {
        MinAlone(ClusterSize(n), Clusters(n), s, Decrement(n, MinPlusOne()), parts, summary.s, 0);
      }
    }

    /** Checked delete of an element that is not the minimum. */
    method CheckDeleteBelow(x: nat, ghost throws: bool) returns (r: Reply<bool>)
      requires Valid() && subtrees != [] && x <= last && x != min && min != max && |s| != 1
      requires throws <==> DeleteThrows(n, s, x)
      modifies Repr - {this}, this`min, this`max, this`parts, this`s
      ensures Valid()
      ensures r == if throws then NoElements else Returned(x in old(s))
      ensures s == if r.Returned? then old(s) - {x} else old(s)
    {
      InSpan(x);
      BelowThrows(x);
      ghost var parts0 := parts;
      var c := SubCheckDelete(High(x, ClusterSize(n)), Low(x, ClusterSize(n)));
      if c.Thrown? || !c.f {
        assert parts == parts0;
        assert Fields(n, MinPlusOne(), max, s, parts, summary.s);
        return if c.Thrown? then NoElements else Returned(false);
      }
      var emptied := Unname(High(x, ClusterSize(n)));
      Settle(x, min, x, emptied);
      r := Returned(true);
    }

    lemma BelowThrows(x: nat)
      requires Valid() && subtrees != [] && x <= last && x != min && min != max && |s| != 1
      ensures x < U() && High(x, ClusterSize(n)) < |parts|
      ensures x in s <==> InPart(parts, x, ClusterSize(n))
      ensures DeleteThrows(n, s, x) <==>
        CheckDeleteThrows(n - n / 2, parts[High(x, ClusterSize(n))], Low(x, ClusterSize(n)))
      ensures var parts' := Without(parts, x, ClusterSize(n));
        if x in s then
          && min < U() && High(x, ClusterSize(n)) in summary.s
          && MaxStale(n, Increment(n, min), max, s - {x}, parts', SumWithout(parts', summary.s, High(x, ClusterSize(n))))
          && (x != max ==> IsMax(s - {x}, max))
        else parts' == parts && s - {x} == s
    {
      Opened();
      InSpan(x);
      IndexWide(n);
      ClusterIsPart(n, MinPlusOne(), max, s, parts, summary.s, High(x, ClusterSize(n)));
      CheckDeleteFields(n, MinPlusOne(), max, s, parts, summary.s, x);
    }

    // Queries

    method SubHasElement(c: nat, e: nat) returns (f: bool)
      requires Shape() && Kids() && c < |subtrees| && e < ClusterSize(n)
      ensures f <==> e in parts[c]
    {
      var t := subtrees[c];
      assert t.Valid() && t.U() == ClusterSize(n);
      f := t.FHasElement(e);
    }

    method SubSuccessor(c: nat, e: nat) returns (r: nat)
      requires Shape() && Kids() && c < |subtrees| && e < ClusterSize(n)
      ensures IsSuccessor(parts[c], e, r)
    {
      var t := subtrees[c];
      assert t.Valid() && t.U() == ClusterSize(n);
      ghost var cost;
      r, cost := t.NSuccessor(e);
    }

    method SubPredecessor(c: nat, e: nat) returns (r: nat)
      requires Shape() && Kids() && c < |subtrees| && e < ClusterSize(n)
      ensures IsPredecessor(parts[c], e, r, ClusterSize(n) - 1)
    {
      var t := subtrees[c];
      assert t.Valid() && t.U() == ClusterSize(n);
      ghost var cost;
      r, cost := t.NPredecessor(e);
    }

    method FHasElement(x: nat) returns (r: Reply<bool>)
      requires Valid() && subtrees != []
      ensures r == if x > last then OutOfRange else Returned(x in s)
    {
      if x > last {
        return OutOfRange;
      }
      Opened();
      if max < min {
        return Returned(false);
      }
      if x == min || x == max {
        return Returned(true);
      }
      if min == max {
        return Returned(false);
      }
      InSpan(x);
      var f := SubHasElement(High(x, ClusterSize(n)), Low(x, ClusterSize(n)));
      assert f <==> InPart(parts, x, ClusterSize(n));
      r := Returned(f);
    }

    /** The least member above `x`, or the least member if `x` is NO_ELEMENT. */
    method NSuccessor(x: nat) returns (r: Reply<nat>)
      requires Valid()
      ensures match r
        case OutOfRange => s != {} && x != NO_ELEMENT && x > last
        case Returned(y) => IsNext(s, x, y) && (s == {} || x == NO_ELEMENT || x <= last)
        case _ => false
    {
      Opened();
      if max < min {
        return Returned(NO_ELEMENT);
      }
      if x == NO_ELEMENT || x < min {
        return Returned(min);
      }
      if x > last {
        return OutOfRange;
      }
      InSpan(x);
      var y := SuccessorFrom(High(x, ClusterSize(n)), x);
      r := Returned(y);
    }

    method SuccessorFrom(c: nat, x: nat) returns (r: nat)
      requires Valid() && s != {} && min <= x <= last
      requires c == High(x, ClusterSize(n)) && c < |subtrees| && Low(x, ClusterSize(n)) < ClusterSize(n) && x < U()
      ensures IsNext(s, x, r)
    {
      Opened();
      var f, _, last := SubMinMax(c);
      if f && Low(x, ClusterSize(n)) < last {
        var e := SubSuccessor(c, Low(x, ClusterSize(n)));
        SuccessorInside(ClusterSize(n), Clusters(n), s, min, parts, summary.s, x, last, e);
        return Join(c, e, ClusterSize(n));
      }
      r := SuccessorAfter(c, x);
    }

    /** The successor when the cluster of `x` has none: the minimum of the next cluster, if there is one. */
    lemma NextBeyond(c: nat, x: nat, i: nat, e: nat)
      requires Valid() && s != {} && min <= x <= last && x < U() && c == High(x, ClusterSize(n)) && c < |subtrees|
      requires forall f :: f in parts[c] ==> f <= Low(x, ClusterSize(n))
      requires IsSuccessor(summary.s, c, i) && (i != 0 ==> i < |parts| && IsMin(parts[i], e))
      ensures IsNext(s, x, if i == 0 then NO_ELEMENT else Join(i, e, ClusterSize(n)))
      ensures i != 0 ==> Join(i, e, ClusterSize(n)) != NO_ELEMENT
    {
      Opened();
      SuccessorBeyond(ClusterSize(n), Clusters(n), s, min, parts, summary.s, x, i, e);
    }

    /** The next cluster named by the summary, with its extremes. */
    method ClusterAfter(c: nat, x: nat) returns (i: nat, first: nat, last': nat)
      requires Valid() && s != {} && min <= x <= last && c == High(x, ClusterSize(n)) && c < |subtrees| && x < U()
      requires forall e :: e in parts[c] ==> e <= Low(x, ClusterSize(n))
      ensures i == 0 ==> IsNext(s, x, NO_ELEMENT)
      ensures i != 0 ==> i < |subtrees| && IsMin(parts[i], first) && IsMax(parts[i], last')
      ensures i != 0 ==> IsNext(s, x, Join(i, first, ClusterSize(n))) && Join(i, first, ClusterSize(n)) != NO_ELEMENT
    {
      i := SumSuccessor(c);
      first, last' := 0, 0;
      if i != 0 {
        var any;
        any, first, last' := SubMinMax(i);
      }
      NextBeyond(c, x, i, first);
    }

    method SuccessorAfter(c: nat, x: nat) returns (r: nat)
      requires Valid() && s != {} && min <= x <= last && c == High(x, ClusterSize(n)) && c < |subtrees| && x < U()
      requires forall e :: e in parts[c] ==> e <= Low(x, ClusterSize(n))
      ensures IsNext(s, x, r)
    {
      var i, first, _ := ClusterAfter(c, x);
      r := if i == 0 then NO_ELEMENT else Join(i, first, ClusterSize(n));
    }

    /** The greatest member below `x`, or the greatest member if `x` is NO_ELEMENT. */
    method NPredecessor(x: nat) returns (r: Reply<nat>)
      requires Valid()
      ensures match r
        case OutOfRange => s != {} && x != NO_ELEMENT && x > last
        case Returned(y) => IsPrevious(s, x, y) && (s == {} || x == NO_ELEMENT || x <= last)
        case _ => false
    {
      Opened();
      if max < min {
        return Returned(NO_ELEMENT);
      }
      if x == NO_ELEMENT {
        return Returned(max);
      }
      if x > last {
        return OutOfRange;
      }
      if x > max {
        return Returned(max);
      }
      InSpan(x);
      var y := PredecessorFrom(High(x, ClusterSize(n)), x);
      r := Returned(y);
    }

    method PredecessorFrom(c: nat, x: nat) returns (r: nat)
      requires Valid() && s != {} && x <= last
      requires c == High(x, ClusterSize(n)) && c < |subtrees| && Low(x, ClusterSize(n)) < ClusterSize(n) && x < U()
      ensures IsPrevious(s, x, r)
    {
      Opened();
      var f, first, _ := SubMinMax(c);
      if f && Low(x, ClusterSize(n)) > first {
        var e := SubPredecessor(c, Low(x, ClusterSize(n)));
        PredecessorInside(ClusterSize(n), Clusters(n), s, min, parts, summary.s, x, first, e, ClusterSize(n) - 1, NO_ELEMENT);
        return Join(c, e, ClusterSize(n));
      }
      r := PredecessorBefore(c, x);
    }

    /** The predecessor when the cluster of `x` has none: the maximum of the cluster before, if there is one,
        or the minimum, if that is below `x`. */
    lemma PreviousBeyond(c: nat, x: nat, i: nat, e: nat)
      requires Valid() && s != {} && x <= last && x < U() && c == High(x, ClusterSize(n)) && c < |subtrees|
      requires forall f :: f in parts[c] ==> Low(x, ClusterSize(n)) <= f
      requires IsPredecessor(summary.s, c, i, Clusters(n) - 1)
      requires i != Clusters(n) - 1 ==> i < |parts| && IsMax(parts[i], e)
      ensures IsPrevious(s, x, if i != Clusters(n) - 1 then Join(i, e, ClusterSize(n)) else if x > min then min else NO_ELEMENT)
      ensures i != Clusters(n) - 1 ==> Join(i, e, ClusterSize(n)) < x && Join(i, e, ClusterSize(n)) != NO_ELEMENT
    {
      Opened();
      PredecessorBeyond(ClusterSize(n), Clusters(n), s, min, parts, summary.s, x, i, e, Clusters(n) - 1, NO_ELEMENT);
    }

    /** The cluster before that the summary names, with its extremes. */
    method ClusterBefore(c: nat, x: nat) returns (i: nat, first: nat, last': nat)
      requires Valid() && s != {} && x <= last && c == High(x, ClusterSize(n)) && c < |subtrees| && x < U()
      requires forall e :: e in parts[c] ==> Low(x, ClusterSize(n)) <= e
      ensures i == Clusters(n) - 1 ==> IsPrevious(s, x, if x > min then min else NO_ELEMENT)
      ensures i != Clusters(n) - 1 ==> i < |subtrees| && IsMin(parts[i], first) && IsMax(parts[i], last')
      ensures i != Clusters(n) - 1 ==>
        IsPrevious(s, x, Join(i, last', ClusterSize(n))) && Join(i, last', ClusterSize(n)) < x && Join(i, last', ClusterSize(n)) != NO_ELEMENT
    {
      i := SumPredecessor(c);
      first, last' := 0, 0;
      if i != Clusters(n) - 1 {
        var any;
        any, first, last' := SubMinMax(i);
      }
      PreviousBeyond(c, x, i, last');
    }

    method PredecessorBefore(c: nat, x: nat) returns (r: nat)
      requires Valid() && s != {} && x <= last && c == High(x, ClusterSize(n)) && c < |subtrees| && x < U()
      requires forall e :: e in parts[c] ==> Low(x, ClusterSize(n)) <= e
      ensures IsPrevious(s, x, r)
    {
      var i, _, last := ClusterBefore(c, x);
      if i == Clusters(n) - 1 {
        return if x > min then min else NO_ELEMENT;
      }
      r := Join(i, last, ClusterSize(n));
    }

    // Successor and predecessor, removed as they are found

    /** NewMax as the ...Delete queries do it: through the summary's predecessor. */
    method NewMaxBackward(ghost s': set<nat>, emptied: bool) returns (max': nat)
      requires Shape() && Kids() && Span() && High(max, ClusterSize(n)) < |subtrees| && min < U()
      requires MaxStale(n, Increment(n, min), max, s', parts, summary.s)
      requires emptied <==> parts[High(max, ClusterSize(n))] == {}
      ensures IsMax(s', max')
    {
      ghost var minPlusOne := Increment(n, min);
      IndexWide(n);
      var c := High(max, ClusterSize(n));
      if emptied {
        var p, _ := summary.NPredecessor(c);
        MaxOfPredecessor(n, minPlusOne, max, s', parts, summary.s, c, p);
        if p == Clusters(n) - 1 {
          MaxOfMin(n, minPlusOne, max, s', parts, summary.s);
          max' := min;
        } else {
          var _, _, e := SubMinMax(p);
          MaxOfLast(n, minPlusOne, max, s', parts, summary.s, p, e);
          max' := Join(p, e, ClusterSize(n));
        }
      } else {
        var _, _, e := SubMinMax(c);
        MaxOfSame(n, minPlusOne, max, s', parts, summary.s, e);
        max' := Join(c, e, ClusterSize(n));
      }
    }

    /** The end of a removal: `y` has left its cluster, which leaves the summary if `y` was `single` in it. */
    method SettleBackward(y: nat, single: bool)
      requires Shape() && Kids() && Span() && High(y, ClusterSize(n)) < |subtrees| && min < U()
      requires single <==> parts[High(y, ClusterSize(n))] == {}
      requires High(y, ClusterSize(n)) in summary.s
      requires MaxStale(n, Increment(n, min), max, s - {y}, parts, SumWithout(parts, summary.s, High(y, ClusterSize(n))))
      requires (y != max ==> IsMax(s - {y}, max)) && forall z :: z in s ==> z <= last
      modifies summary.Repr, this`min, this`max, this`s
      ensures Valid() && s == old(s) - {y}
    {
      if single {
        SumDelete(High(y, ClusterSize(n)));
      }
      var max' := max;
      if y == max {
        max' := NewMaxBackward(s - {y}, single);
      }
      Settled(min, max', s - {y});
    }

    /** Takes `r`, which is `e` in cluster `i`, away. */
    method TakeAway(i: nat, e: nat, first: nat, last': nat, r: nat)
      requires Valid() && i < |subtrees| && e in parts[i] && r == Join(i, e, ClusterSize(n))
      requires IsMin(parts[i], first) && IsMax(parts[i], last')
      modifies Repr - {this}, this`min, this`max, this`parts, this`s
      ensures Valid() && s == old(s) - {r}
    {
      FromCluster(i, e, r);
      EmptiedIfSingle(parts[i], first, last', e);
      Leaves(r, r, min);
      SubDelete(i, e);
      SettleBackward(r, first == last');
    }

    lemma FromCluster(i: nat, e: nat, r: nat)
      requires Valid() && i < |subtrees| && e in parts[i] && r == Join(i, e, ClusterSize(n))
      ensures r in s && r != min && min != max && High(r, ClusterSize(n)) == i && Low(r, ClusterSize(n)) == e
    {
      Opened();
      FromPart(ClusterSize(n), Clusters(n), s, Decrement(n, MinPlusOne()), parts, summary.s, i, e);
    }

    /** Returns and removes the least member above `x`, or the least member if `x` is NO_ELEMENT. */
    method NSuccessorDelete(x: nat) returns (r: Reply<nat>)
      requires Valid()
      modifies Repr - {this}, this`min, this`max, this`parts, this`s
      ensures Valid()
      ensures match r
        case OutOfRange => old(s) != {} && x != NO_ELEMENT && x > last
        case Returned(y) => IsNext(old(s), x, y) && (old(s) == {} || x == NO_ELEMENT || x <= last)
        case _ => false
      ensures s == if r.Returned? && r.value != NO_ELEMENT then old(s) - {r.value} else old(s)
    {
      Opened();
      if max < min {
        return Returned(NO_ELEMENT);
      }
      if x == NO_ELEMENT || x < min {
        r := Returned(min);
        Delete(min);
        return;
      }
      if x > last {
        return OutOfRange;
      }
      InSpan(x);
      var y := SuccessorDeleteFrom(High(x, ClusterSize(n)), x);
      r := Returned(y);
    }

    method SuccessorDeleteFrom(c: nat, x: nat) returns (r: nat)
      requires Valid() && s != {} && min <= x <= last
      requires c == High(x, ClusterSize(n)) && c < |subtrees| && Low(x, ClusterSize(n)) < ClusterSize(n) && x < U()
      modifies Repr - {this}, this`min, this`max, this`parts, this`s
      ensures IsNext(old(s), x, r)
      ensures Valid() && s == if r == NO_ELEMENT then old(s) else old(s) - {r}
    {
      var f, first, last := SubMinMax(c);
      if f && Low(x, ClusterSize(n)) < last {
        r := SuccessorDeleteInside(c, x, first, last);
      } else {
        r := SuccessorDeleteBeyond(c, x);
      }
    }

    method SuccessorDeleteInside(c: nat, x: nat, first: nat, last': nat) returns (r: nat)
      requires Valid() && s != {} && min <= x <= last && x < U()
      requires c == High(x, ClusterSize(n)) && c < |subtrees| && Low(x, ClusterSize(n)) < ClusterSize(n)
      requires IsMin(parts[c], first) && IsMax(parts[c], last') && Low(x, ClusterSize(n)) < last'
      modifies Repr - {this}, this`min, this`max, this`parts, this`s
      ensures IsNext(old(s), x, r) && r != NO_ELEMENT
      ensures Valid() && s == old(s) - {r}
    {
      ghost var e := HasSuccessor(parts[c], Low(x, ClusterSize(n)), last');
      SuccessorIn(c, x, last', e);
      EmptiedIfSingle(parts[c], first, last', e);
      var e' := SubSuccessorDelete(c, Low(x, ClusterSize(n)));
      assert e' == e;
      r := Join(c, e', ClusterSize(n));
      SettleBackward(r, first == last');
    }

    /** The successor of `x` inside its cluster, and what taking it out does. */
    lemma SuccessorIn(c: nat, x: nat, last': nat, e: nat)
      requires Valid() && s != {} && min <= x <= last && x < U() && c == High(x, ClusterSize(n)) && c < |subtrees|
      requires IsMax(parts[c], last') && Low(x, ClusterSize(n)) < last'
      requires IsSuccessor(parts[c], Low(x, ClusterSize(n)), e)
      ensures var y := Join(c, e, ClusterSize(n));
        && IsNext(s, x, y) && y != NO_ELEMENT && y in s && Span() && min < U()
        && High(y, ClusterSize(n)) == c && Low(y, ClusterSize(n)) == e && c in summary.s
        && (y != max ==> IsMax(s - {y}, max))
        && MaxStale(n, Increment(n, min), max, s - {y}, Without(parts, y, ClusterSize(n)),
             SumWithout(Without(parts, y, ClusterSize(n)), summary.s, c))
    {
      Opened();
      SuccessorInside(ClusterSize(n), Clusters(n), s, min, parts, summary.s, x, last', e);
      var y := Join(c, e, ClusterSize(n));
      FromCluster(c, e, y);
      Leaves(y, y, min);
    }

    method SuccessorDeleteBeyond(c: nat, x: nat) returns (r: nat)
      requires Valid() && s != {} && min <= x <= last && x < U() && c == High(x, ClusterSize(n)) && c < |subtrees|
      requires forall e :: e in parts[c] ==> e <= Low(x, ClusterSize(n))
      modifies Repr - {this}, this`min, this`max, this`parts, this`s
      ensures IsNext(old(s), x, r)
      ensures Valid() && s == if r == NO_ELEMENT then old(s) else old(s) - {r}
    {
      var i, first, last' := ClusterAfter(c, x);
      if i == 0 {
        return NO_ELEMENT;
      }
      r := Join(i, first, ClusterSize(n));
      TakeAway(i, first, first, last', r);
    }

    /** The end of the removal of a predecessor `y`, which is never the maximum. */
    method SettleBelow(y: nat, single: bool)
      requires Shape() && Kids() && Span() && High(y, ClusterSize(n)) < |subtrees| && min < U()
      requires single <==> parts[High(y, ClusterSize(n))] == {}
      requires High(y, ClusterSize(n)) in summary.s
      requires MaxStale(n, Increment(n, min), max, s - {y}, parts, SumWithout(parts, summary.s, High(y, ClusterSize(n))))
      requires IsMax(s - {y}, max) && forall z :: z in s ==> z <= last
      modifies summary.Repr, this`min, this`max, this`s
      ensures Valid() && s == old(s) - {y}
    {
      if single {
        SumDelete(High(y, ClusterSize(n)));
      }
      Settled(min, max, s - {y});
    }

    /** Returns and removes the greatest member below `x`, or the greatest member if `x` is NO_ELEMENT. */
    method NPredecessorDelete(x: nat) returns (r: Reply<nat>)
      requires Valid()
      modifies Repr - {this}, this`min, this`max, this`parts, this`s
      ensures Valid()
      ensures match r
        case OutOfRange => old(s) != {} && x != NO_ELEMENT && x > last
        case Returned(y) => IsPrevious(old(s), x, y) && (old(s) == {} || x == NO_ELEMENT || x <= last)
        case _ => false
      ensures s == if r.Returned? && r.value != NO_ELEMENT then old(s) - {r.value} else old(s)
    {
      Opened();
      if max < min {
        return Returned(NO_ELEMENT);
      }
      if x == NO_ELEMENT || (x > max && x <= last) {
        r := Returned(max);
        Delete(max);
        return;
      }
      if x > last {
        return OutOfRange;
      }
      InSpan(x);
      var y := PredecessorDeleteFrom(High(x, ClusterSize(n)), x);
      r := Returned(y);
    }

    method PredecessorDeleteFrom(c: nat, x: nat) returns (r: nat)
      requires Valid() && s != {} && x <= last && x <= max
      requires c == High(x, ClusterSize(n)) && c < |subtrees| && Low(x, ClusterSize(n)) < ClusterSize(n) && x < U()
      modifies Repr - {this}, this`min, this`max, this`parts, this`s
      ensures IsPrevious(old(s), x, r)
      ensures Valid() && s == if r == NO_ELEMENT then old(s) else old(s) - {r}
    {
      var f, first, last := SubMinMax(c);
      if f && Low(x, ClusterSize(n)) > first {
        r := PredecessorDeleteInside(c, x, first, last);
      } else {
        r := PredecessorDeleteBeyond(c, x);
      }
    }

    method PredecessorDeleteInside(c: nat, x: nat, first: nat, last': nat) returns (r: nat)
      requires Valid() && s != {} && x <= last && x <= max && x < U()
      requires c == High(x, ClusterSize(n)) && c < |subtrees| && Low(x, ClusterSize(n)) < ClusterSize(n)
      requires IsMin(parts[c], first) && IsMax(parts[c], last') && Low(x, ClusterSize(n)) > first
      modifies Repr - {this}, this`min, this`max, this`parts, this`s
      ensures IsPrevious(old(s), x, r) && r != NO_ELEMENT
      ensures Valid() && s == old(s) - {r}
    {
      ghost var e := HasPredecessor(parts[c], Low(x, ClusterSize(n)), first, ClusterSize(n) - 1);
      PredecessorIn(c, x, first, e);
      EmptiedIfSingle(parts[c], first, last', e);
      var e' := SubPredecessorDelete(c, Low(x, ClusterSize(n)));
      assert e' == e;
      r := Join(c, e', ClusterSize(n));
      SettleBelow(r, first == last');
    }

    lemma PredecessorIn(c: nat, x: nat, first: nat, e: nat)
      requires Valid() && s != {} && x <= last && x <= max && x < U() && c == High(x, ClusterSize(n)) && c < |subtrees|
      requires IsMin(parts[c], first) && first < Low(x, ClusterSize(n)) < ClusterSize(n)
      requires IsPredecessor(parts[c], Low(x, ClusterSize(n)), e, ClusterSize(n) - 1)
      ensures var y := Join(c, e, ClusterSize(n));
        && IsPrevious(s, x, y) && y != NO_ELEMENT && y in s && Span() && min < U()
        && High(y, ClusterSize(n)) == c && Low(y, ClusterSize(n)) == e && c in summary.s
        && IsMax(s - {y}, max)
        && MaxStale(n, Increment(n, min), max, s - {y}, Without(parts, y, ClusterSize(n)),
             SumWithout(Without(parts, y, ClusterSize(n)), summary.s, c))
    {
      Opened();
      PredecessorInside(ClusterSize(n), Clusters(n), s, min, parts, summary.s, x, first, e, ClusterSize(n) - 1, NO_ELEMENT);
      var y := Join(c, e, ClusterSize(n));
      FromCluster(c, e, y);
      Leaves(y, y, min);
    }

    method PredecessorDeleteBeyond(c: nat, x: nat) returns (r: nat)
      requires Valid() && s != {} && x <= last && x <= max && x < U() && c == High(x, ClusterSize(n)) && c < |subtrees|
      requires forall e :: e in parts[c] ==> Low(x, ClusterSize(n)) <= e
      modifies Repr - {this}, this`min, this`max, this`parts, this`s
      ensures IsPrevious(old(s), x, r)
      ensures Valid() && s == if r == NO_ELEMENT then old(s) else old(s) - {r}
    {
      var i, first, last' := ClusterBefore(c, x);
      if i == Clusters(n) - 1 {
        if x > min {
          r := min;
          Delete(min);
          return;
        }
        return NO_ELEMENT;
      }
      r := Join(i, last', ClusterSize(n));
      TakeBelow(i, last', first, last', r);
    }

    /** Takes `r`, which is `e` in cluster `i` and not the maximum, away. */
    method TakeBelow(i: nat, e: nat, first: nat, last': nat, r: nat)
      requires Valid() && i < |subtrees| && e in parts[i] && r == Join(i, e, ClusterSize(n)) && r != max
      requires IsMin(parts[i], first) && IsMax(parts[i], last')
      modifies Repr - {this}, this`min, this`max, this`parts, this`s
      ensures Valid() && s == old(s) - {r}
    {
      FromCluster(i, e, r);
      EmptiedIfSingle(parts[i], first, last', e);
      Leaves(r, r, min);
      SubDelete(i, e);
      SettleBelow(r, first == last');
    }

    // Whole-tree operations

    /** Removes every member, touching only the clusters that the summary names. */
    method Clear()
      requires Valid()
      modifies Repr - {this}, this`min, this`max, this`parts, this`s
      ensures Valid() && s == {}
    {
      Opened();
      if max >= min {
        if min != max {
          ClearNamed();
        } else {
          EmptyFields(n, MinPlusOne(), max, s, parts, summary.s);
        }
        SetEmpty();
      }
    }

    method ClearNamed()
      requires Shape() && Kids() && Named(parts, summary.s) && summary.s != {}
      modifies Repr - {this}, this`parts
      ensures Kids() && Fields(n, 0, 0, {}, parts, summary.s)
    {
      ghost var was := parts;
      ClearClusters();
      SumClear();
      ClearedFields(n, was, parts, summary.s);
    }

    method ClearClusters()
      requires Shape() && Kids() && Named(parts, summary.s) && summary.s != {}
      modifies Repr - {this}, this`parts
      ensures Kids() && Clearing(old(parts), |parts|, parts)
    {
      var _, c := summary.FHasMin();
      ghost var was := parts;
      ClearingStart(was, summary.s, c);
      while true
        invariant Kids() && summary.s == old(summary.s) && c in summary.s && Clearing(was, c, parts)
        decreases |was| - c
      {
        var next := ClearTurn(c, was);
        if next == 0 {
          break;
        }
        c := next;
      }
    }

    /** One turn of that loop; `next` is the next cluster to clear, or 0. */
    method ClearTurn(c: nat, ghost was: seq<set<nat>>) returns (next: nat)
      requires Shape() && Kids() && Named(was, summary.s) && c in summary.s && Clearing(was, c, parts)
      modifies Repr - {this}, this`parts
      ensures Kids() && summary.s == old(summary.s)
      ensures Clearing(was, if next == 0 then |was| else next, parts) && (next != 0 ==> c < next && next in summary.s)
    {
      SubClear(c);
      ghost var cost;
      next, cost := summary.NSuccessor(c);
      forall j | 0 <= j < |was| && c < j && (next == 0 || j < next)
        ensures was[j] == {}
      {
        assert j !in summary.s;
      }
    }

    // FDeleteAllAfter

    /** Kids, except that cluster `c` may be broken; `parts` says what it should hold. */
    ghost predicate KidsBut(c: nat)
      requires Shape()
      reads this`parts, this`subtrees, this`Repr, Repr - {this}
    {
      summary.Valid() && ClustersBut(c)
    }

    ghost predicate ClustersBut(c: nat)
      requires Shape()
      reads this`parts, this`subtrees, this`Repr, Repr - {this}
    {
      && |parts| == Clusters(n)
      && (forall i :: 0 <= i < |subtrees| ==> subtrees[i].s == parts[i] && (i != c ==> subtrees[i].Valid()))
      && (forall i :: |subtrees| <= i < |parts| ==> parts[i] == {})
    }

    /** After a call that changed cluster `c` only, and may have broken it, the others are as they were. */
    twostate lemma FramedBut(c: nat)
      requires Shape() && old(Shape()) && old(Kids()) && c < |subtrees| && subtrees == old(subtrees) && Repr == old(Repr)
      requires unchanged(Repr - subtrees[c].Repr - {this})
      requires parts == old(parts)[c := subtrees[c].s]
      ensures KidsBut(c) && summary.s == old(summary.s)
    {
      assert summary.Repr !! subtrees[c].Repr;
      forall i | 0 <= i < |subtrees| && i != c
        ensures subtrees[i].Valid() && subtrees[i].s == old(subtrees[i].s)
      {
        assert subtrees[i].Repr !! subtrees[c].Repr;
        assert old(subtrees[i].Valid());
      }
    }

    lemma AllKids(c: nat)
      requires Shape() && KidsBut(c) && c < |subtrees| && subtrees[c].Valid()
      ensures Kids()
    {
    }

    /** What the fields, the clusters and the summary describe when they hold what `b` says. */
    ghost predicate Described(b: Content)
      reads this`subtrees, this`last, this`min
    {
      && Span() && Fields(n, b.min1, b.max, b.s, b.parts, b.sum) && b.s != {} && b.min1 == Increment(n, min)
      && Decrement(n, b.min1) == min && min < U() && (forall y :: y in b.s ==> y <= last)
    }

    /** That is what they hold. */
    ghost predicate Holds(b: Content)
      reads this, summary
    {
      b.min1 == Increment(n, min) && b.max == max && b.s == s && b.parts == parts && b.sum == summary.s
    }

    lemma Describes(b: Content)
      requires Valid() && s != {} && Holds(b)
      ensures Described(b)
    {
      Opened();
    }

    method SubDeleteAfter(c: nat, e: nat) returns (r: Trimmed)
      requires Shape() && Kids() && c < |subtrees| && e + 1 < ClusterSize(n)
      modifies subtrees[c].Repr, this`parts
      ensures summary.s == old(summary.s)
      ensures r.Raised? <==> DeleteAfterThrows(n - n / 2, old(parts)[c], e)
      ensures r.Raised? ==> Kids() && parts == old(parts)
      ensures r.Done? ==> KidsBut(c) && parts == old(parts)[c := Below(old(parts)[c], e + 1)]
      ensures r.Done? ==> (subtrees[c].Valid() <==> !DeleteAfterWraps(n - n / 2, old(parts)[c], e))
      ensures r.Done? ==> (r.emptied <==> parts[c] == {}) && (!r.emptied ==> IsMax(parts[c], r.newMax))
      ensures r.Done? && r.emptied ==> Kids()
    {
      var t := subtrees[c];
      assert t.Valid() && t.U() == ClusterSize(n);
      assert e != 255 || n - n / 2 != 8 by {
        assert Pow2(8) == 256;
      }
      r := t.FDeleteAllAfter(e);
      parts := parts[c := t.s];
      if r.Raised? {
        Framed(c);
      } else {
        FramedBut(c);
        if r.emptied {
          AllKids(c);
        }
      }
    }

    method SubClearBut(i: nat, c: nat)
      requires Shape() && KidsBut(c) && i < |subtrees| && c < |subtrees| && i != c
      modifies subtrees[i].Repr, this`parts
      ensures KidsBut(c) && summary.s == old(summary.s) && parts == old(parts)[i := {}]
      ensures subtrees[c].Valid() <==> old(subtrees[c].Valid())
    {
      var t := subtrees[i];
      assert t.Valid();
      t.Clear();
      parts := parts[i := t.s];
    }

    /** Clears every cluster after `c`. */
    method ClearAfter(c: nat)
      requires Shape() && KidsBut(c) && c < |subtrees|
      modifies Repr - {this}, this`parts
      ensures KidsBut(c) && summary.s == old(summary.s)
      ensures subtrees[c].Valid() <==> old(subtrees[c].Valid())
      ensures forall i :: 0 <= i < |parts| ==> parts[i] == if i <= c then old(parts)[i] else {}
    {
      for i := c + 1 to |subtrees|
        invariant KidsBut(c) && summary.s == old(summary.s)
        invariant subtrees[c].Valid() <==> old(subtrees[c].Valid())
        invariant forall j :: 0 <= j < |parts| ==> parts[j] == if c < j < i then {} else old(parts)[j]
      {
        SubClearBut(i, c);
      }
    }

    method SumDeleteAfter(c: nat)
      requires Shape() && KidsBut(c) && c < |subtrees|
      modifies summary.Repr
      ensures summary.s == Below(old(summary.s), c + 1) && ClustersBut(c)
      ensures summary.Valid() <==> !DeleteAfterWraps(n / 2, old(summary.s), c)
      ensures subtrees[c].Valid() <==> old(subtrees[c].Valid())
    {
      DeleteAfterNeverThrows(n / 2, summary.s, c);
      forall i | 0 <= i < |subtrees|
        ensures subtrees[i].Repr !! summary.Repr
      {
      }
      var _ := summary.FDeleteAllAfter(c);
    }

    method SumCheckDelete(c: nat) returns (thrown: bool)
      requires Shape() && Kids() && c < Clusters(n)
      modifies summary.Repr
      ensures Kids() && (thrown <==> CheckDeleteThrows(n / 2, old(summary.s), c))
      ensures summary.s == if thrown then old(summary.s) else old(summary.s) - {c}
    {
      var r := summary.FCheckDelete(c);
      thrown := r.Thrown?;
    }

    /** Removes every member above `x`: the exception, and whether the tree that is left is sound, are those of the
        fixed tree. */
    method FDeleteAllAfter(x: nat) returns (r: Trimmed)
      requires Valid()
      modifies Repr - {this}, this`min, this`max, this`parts, this`s
      ensures r.Raised? <==> DeleteAfterThrows(n, old(s), x)
      ensures r.Raised? ==> Valid() && s == old(s)
      ensures r.Done? ==> s == Below(old(s), x + 1) && (Valid() <==> !DeleteAfterWraps(n, old(s), x))
      ensures r.Done? ==> (r.emptied <==> s == {}) && (!r.emptied ==> IsMax(s, r.newMax))
    {
      Opened();
      ghost var was := s;
      if max < min {
        assert Below(s, x + 1) == s;
        return Done(true, 0);
      }
      StraddlesFields(n, MinPlusOne(), max, s, parts, summary.s, x);
      if x < min {
        Clear();
        assert Below(was, x + 1) == {};
        return Done(true, 0);
      }
      if x > max {
        assert Below(s, x + 1) == s;
        return Done(false, max);
      }
      r := DeleteAfterNode(x, DeleteAfterThrows(n, s, x), DeleteAfterWraps(n, s, x));
    }

    /** FDeleteAllAfter between the minimum and the maximum. */
    method DeleteAfterNode(x: nat, ghost raises: bool, ghost wraps: bool) returns (r: Trimmed)
      requires Valid() && s != {} && min <= x <= max
      requires (raises <==> DeleteAfterThrows(n, s, x)) && (wraps <==> DeleteAfterWraps(n, s, x))
      modifies Repr - {this}, this`max, this`parts, this`s
      ensures r.Raised? <==> raises
      ensures r.Raised? ==> Valid() && s == old(s)
      ensures r.Done? ==> s == Below(old(s), x + 1) && (Valid() <==> !wraps)
      ensures r.Done? ==> !r.emptied && s != {} && IsMax(s, r.newMax)
    {
      var c, e := High(x, ClusterSize(n)), Low(x, ClusterSize(n));
      ghost var b := Found(x, c, e);
      ghost var throws, sound, sumThrows, sumWraps := DeleteAfterCases(n, b, x, c, e, raises, wraps);
      var raised := DeleteAfterAt(c, e, x, b, throws, sound, sumThrows, sumWraps);
      r := if raised then Raised else Done(false, max);
    }

    /** What FDeleteAllAfter finds. */
    lemma Found(x: nat, c: nat, e: nat) returns (b: Content)
      requires Valid() && s != {} && min <= x <= max && c == High(x, ClusterSize(n)) && e == Low(x, ClusterSize(n))
      ensures Described(b) && Holds(b) && Placed(c, x) && IsCut(b, c, x, n)
    {
      Opened();
      InSpan(x);
      b := Content(Increment(n, min), max, s, parts, summary.s, parts[c := Below(parts[c], Low(x, ClusterSize(n)) + 1)]);
      Describes(b);
    }

    /** FDeleteAllAfter on the cluster `c` of `x`, the summary and the clusters after `c`. */
    method DeleteAfterAt(c: nat, e: nat, x: nat, ghost b: Content, ghost throws: bool, ghost sound: bool,
                         ghost sumThrows: bool, ghost sumWraps: bool) returns (raised: bool)
      requires Valid() && Described(b) && Holds(b) && Placed(c, x) && s != {} && IsCut(b, c, x, n) && e == Low(x, ClusterSize(n))
      requires CutGoes(n, b, c, e, throws, sound) && SumGoes(n, b, c, e, sumThrows, sumWraps)
      modifies Repr - {this}, this`max, this`parts, this`s
      ensures raised <==> throws || sumThrows
      ensures raised ==> Valid() && s == old(s)
      ensures !raised ==> s == Below(old(s), x + 1) && IsMax(s, max) && (Valid() <==> sound && !sumWraps)
    {
      raised := CutCluster(c, e, x, b, throws, sound, sumThrows, sumWraps);
      if raised {
        Sound();
      } else {
        FinishAfter(c, x, b);
      }
    }

    /** `x`, in cluster `c`, is not below the minimum. */
    ghost predicate Placed(c: nat, x: nat)
      reads this`subtrees, this`min
    {
      c == High(x, ClusterSize(n)) && c < |subtrees| && x < Pow2(n) && min <= x
    }

    /** Cluster `c` of `x` has been cut; `b` is what there was before. */
    ghost predicate TrimAt(c: nat, x: nat, b: Content)
      requires Shape()
      reads this, Repr
    {
      && KidsBut(c) && Placed(c, x) && IsCut(b, c, x, n) && Described(b) && s == b.s && max == b.max
      && parts == b.cut && summary.s == b.sum
    }

    /** It has been taken out of the summary if nothing is left in it, and the maximum is the new one. */
    ghost predicate CutAt(c: nat, x: nat, b: Content)
      requires Shape()
      reads this, Repr
    {
      && KidsBut(c) && Placed(c, x) && IsCut(b, c, x, n) && Described(b) && s == b.s && parts == b.cut
      && summary.s == (if parts[c] == {} then b.sum - {c} else b.sum) && IsMax(Below(s, x + 1), max)
    }

    /** Cuts the cluster of `x` and finds the new maximum. `throws` and `sound` say how the cut goes. */
    method CutCluster(c: nat, e: nat, x: nat, ghost b: Content, ghost throws: bool, ghost sound: bool,
                      ghost sumThrows: bool, ghost sumWraps: bool) returns (raised: bool)
      requires Shape() && Kids() && Described(b) && Holds(b) && Placed(c, x) && IsCut(b, c, x, n) && e == Low(x, ClusterSize(n))
      requires CutGoes(n, b, c, e, throws, sound) && SumGoes(n, b, c, e, sumThrows, sumWraps)
      modifies Repr - {this}, this`parts, this`max
      ensures raised <==> throws || sumThrows
      ensures raised ==> Kids() && parts == old(parts) && summary.s == old(summary.s) && max == old(max)
      ensures !raised ==> CutAt(c, x, b) && (subtrees[c].Valid() <==> sound)
    {
      var found, m;
      CutAgrees(b, c, x, e, n);
      raised, found, m := TrimCluster(c, e, b, throws, sound);
      if !raised {
        raised := NewMaxAfter(c, x, found, m, b, sumThrows);
      }
    }

    method NewMaxAfter(c: nat, x: nat, found: bool, m: nat, ghost b: Content, ghost sumThrows: bool) returns (raised: bool)
      requires Shape() && TrimAt(c, x, b) && (!found ==> Kids()) && (found <==> parts[c] != {}) && (found ==> IsMax(parts[c], m))
      requires (sumThrows <==> CheckDeleteThrows(n / 2, b.sum, c)) && (sumThrows ==> b.parts[c] == {})
      requires sumThrows ==> !found
      modifies summary.Repr, this`max
      ensures raised <==> sumThrows
      ensures raised ==> Kids() && parts == b.parts && summary.s == b.sum && max == b.max
      ensures !raised ==> CutAt(c, x, b) && (subtrees[c].Valid() <==> old(subtrees[c].Valid()))
    {
      if found {
        NewMaxHere(c, x, m, b);
        raised := false;
      } else {
        raised := NewMaxBefore(c, x, b);
      }
    }

    /** Cuts cluster `c` after `e`, unless `e` ends it, and finds what is left in it. */
    method TrimCluster(c: nat, e: nat, ghost b: Content, ghost throws: bool, ghost sound: bool)
      returns (raised: bool, found: bool, m: nat)
      requires Shape() && Kids() && c < |subtrees| && parts == b.parts && b.cut == parts[c := Below(parts[c], e + 1)]
      requires CutGoes(n, b, c, e, throws, sound)
      modifies Repr - {this}, this`parts
      ensures summary.s == old(summary.s) && (raised <==> throws)
      ensures raised ==> Kids() && parts == old(parts)
      ensures !raised ==> KidsBut(c) && (!found ==> Kids()) && parts == b.cut
      ensures !raised ==> (subtrees[c].Valid() <==> sound)
      ensures !raised ==> (found <==> parts[c] != {}) && (found ==> IsMax(parts[c], m))
    {
      if e + 1 != ClusterSize(n) {
        var r := SubDeleteAfter(c, e);
        if r.Raised? {
          return true, false, 0;
        }
        raised, found, m := false, !r.emptied, r.newMax;
      } else {
        assert Below(parts[c], e + 1) == parts[c];
        var f, _, last := SubMinMax(c);
        assert subtrees[c].Valid();
        raised, found, m := false, f, last;
      }
    }

    method NewMaxHere(c: nat, x: nat, m: nat, ghost b: Content)
      requires Shape() && TrimAt(c, x, b) && IsMax(parts[c], m)
      modifies this`max
      ensures CutAt(c, x, b) && (subtrees[c].Valid() <==> old(subtrees[c].Valid()))
    {
      CutHere(n, b, c, x, m);
      max := Join(c, m, ClusterSize(n));
    }

    /** Nothing is left in cluster `c`: takes it out of the summary and finds the new maximum before it. */
    method NewMaxBefore(c: nat, x: nat, ghost b: Content) returns (raised: bool)
      requires Shape() && Kids() && TrimAt(c, x, b) && parts[c] == {}
      requires CheckDeleteThrows(n / 2, b.sum, c) ==> b.parts[c] == {}
      modifies summary.Repr, this`max
      ensures Kids() && (raised <==> CheckDeleteThrows(n / 2, b.sum, c))
      ensures raised ==> parts == b.parts && summary.s == b.sum && max == b.max
      ensures !raised ==> CutAt(c, x, b)
    {
      raised := SumCheckDelete(c);
      if raised {
        assert b.parts[c := {}] == b.parts;
      } else {
        MaxBefore(c, x, b);
      }
    }

    method MaxBefore(c: nat, x: nat, ghost b: Content)
      requires Shape() && Kids() && Placed(c, x) && IsCut(b, c, x, n) && Described(b)
      requires summary.s == b.sum - {c} && parts == b.cut && b.cut[c] == {}
      modifies this`max
      ensures IsMax(Below(b.s, x + 1), max) && Kids()
    {
      var p := SumPredecessor(c);
      var last := 0;
      if p != Clusters(n) - 1 {
        assert p in b.sum && p != c && b.parts[p] != {};
        var any, first;
        any, first, last := SubMinMax(p);
      }
      CutBefore(n, b, c, x, p, last);
      max := if p == Clusters(n) - 1 then min else Join(p, last, ClusterSize(n));
      KidsKept();
    }

    /** Clears the clusters after that of `x` and cuts the summary. */
    method FinishAfter(c: nat, x: nat, ghost b: Content)
      requires Shape() && CutAt(c, x, b)
      modifies Repr - {this}, this`parts, this`s
      ensures s == Below(old(s), x + 1)
      ensures Valid() <==> old(subtrees[c].Valid()) && !DeleteAfterWraps(n / 2, old(summary.s), c)
    {
      ghost var left := summary.s;
      ClearAfter(c);
      SumDeleteAfter(c);
      CutDone(c, x, b, left, Content(b.min1, max, Below(s, x + 1), parts, summary.s, parts));
      Rename(c, x);
    }

    lemma CutDone(c: nat, x: nat, b: Content, left: set<nat>, d: Content)
      requires Placed(c, x) && IsCut(b, c, x, n) && |d.parts| == |b.parts| && Described(b)
      requires forall i :: 0 <= i < |d.parts| ==> d.parts[i] == if i <= c then b.cut[i] else {}
      requires left == (if b.cut[c] == {} then b.sum - {c} else b.sum) && d.sum == Below(left, c + 1)
      requires d.s == Below(b.s, x + 1) && IsMax(d.s, d.max) && d.min1 == b.min1
      ensures Described(d)
    {
      CutNamed(n, b.min1, b.max, b.s, b.parts, b.sum, x, d.parts, left);
      CutFields(n, b.min1, b.max, b.s, b.parts, b.sum, x, d.parts, d.sum, d.max);
    }

    /** The tree that is left is sound exactly when its cluster `c` and its summary are. */
    ghost method Rename(c: nat, x: nat)
      requires Shape() && ClustersBut(c) && c < |subtrees|
      requires Described(Content(Increment(n, min), max, Below(s, x + 1), parts, summary.s, parts))
      modifies this`s
      ensures s == Below(old(s), x + 1) && (Valid() <==> old(subtrees[c].Valid()) && old(summary.Valid()))
    {
      s := Below(s, x + 1);
      SoundIff(c);
    }

    lemma SoundIff(c: nat)
      requires Shape() && ClustersBut(c) && c < |subtrees| && Described(Content(Increment(n, min), max, s, parts, summary.s, parts))
      ensures Valid() <==> subtrees[c].Valid() && summary.Valid()
    {
    }

    /** The limit on the last cluster. */
    function LastOf(): Limit
      reads this`last
    {
      if last + 1 == Pow2(n) then Whole else Upto(last)
    }

    lemma LimitSpan()
      requires Shape() && Span()
      ensures LastOf().Last(Pow2(n)) == last && (LastOf().Upto? ==> LastOf().last < Pow2(n) - 1)
      ensures ClustersTo(n, LastOf()) == |subtrees| && Depth(n - n / 2) <= 3
    {
      LastCluster(n, Pow2(n));
      DepthSmall(n - n / 2);
    }

    /** The members lie in the clusters within the limit. */
    lemma Confined()
      requires Valid() && subtrees != []
      ensures forall i, e :: 0 <= i < |parts| && e in parts[i] ==>
        i < |subtrees| && e <= LimitOf(n, LastOf(), i).Last(ClusterSize(n)) && (i == 0 ==> 0 < e)
      ensures forall i :: i in summary.s ==> i < |subtrees|
    {
      LimitSpan();
      LimitFacts(n, LastOf());
      Opened();
      forall i, e | 0 <= i < |parts| && e in parts[i]
        ensures i < |subtrees| && e <= LimitOf(n, LastOf(), i).Last(ClusterSize(n)) && (i == 0 ==> 0 < e)
      {
        FromPart(ClusterSize(n), Clusters(n), s, Decrement(n, MinPlusOne()), parts, summary.s, i, e);
      }
    }

    method SubInsertAll(c: nat, first: nat, limit: Limit)
      requires Shape() && Kids() && c < |subtrees|
      requires first + Depth(n - n / 2) < 32 && first <= limit.Last(ClusterSize(n))
      requires limit.Upto? ==> limit.last < ClusterSize(n) - 1
      requires forall e :: e in parts[c] ==> first <= e <= limit.Last(ClusterSize(n))
      modifies subtrees[c].Repr, this`parts
      ensures Kids() && summary.s == old(summary.s)
      ensures parts == old(parts)[c := Interval(first, limit.Last(ClusterSize(n)))]
    {
      var t := subtrees[c];
      assert t.Valid() && t.U() == ClusterSize(n);
      t.InsertAll(first, limit);
      parts := parts[c := t.s];
      Framed(c);
    }

    method SumInsertAll(limit: Limit)
      requires Shape() && Kids()
      requires limit.Upto? ==> limit.last < Clusters(n) - 1
      requires forall i :: i in summary.s ==> i <= limit.Last(Clusters(n))
      modifies summary.Repr
      ensures Kids() && summary.s == Interval(0, limit.Last(Clusters(n)))
    {
      DepthSmall(n / 2);
      summary.InsertAll(0, limit);
    }

    /** Makes this the interval `[0, last]`. */
    method InsertAll() returns (r: Reply<()>)
      requires Valid()
      modifies Repr - {this}, this`min, this`max, this`parts, this`s
      ensures Valid()
      ensures r == if subtrees == [] then NotInitialized else Returned(())
      ensures s == if subtrees == [] then old(s) else Interval(0, last)
    {
      if subtrees == [] {
        return NotInitialized;
      }
      LimitSpan();
      if last > 0 {
        FillClusters();
        FillFields();
        Settled(0, last, Interval(0, last));
      } else {
        InsertZero();
      }
      r := Returned(());
    }

    method InsertZero()
      requires Valid() && subtrees != [] && last == 0
      modifies this`min, this`max, this`s
      ensures Valid() && s == Interval(0, 0)
    {
      Opened();
      assert s <= {max};
      EmptyFields(n, MinPlusOne(), max, s, parts, summary.s);
      FirstFields(n, 0, 0, {}, parts, summary.s, 0);
      assert Interval(0, 0) == {0};
      Settled(0, 0, Interval(0, 0));
    }

    lemma FillFields()
      requires Shape() && Kids() && Span() && last > 0
      requires summary.s == Interval(0, |subtrees| - 1)
      requires forall j :: 0 <= j < |parts| ==> parts[j] == if j < |subtrees| then FilledPart(n, 0, LastOf(), j) else {}
      ensures Fields(n, Increment(n, 0), last, Interval(0, last), parts, summary.s)
    {
      LimitSpan();
      ClusterWide(n);
      FullFields(n, 0, LastOf(), last, Interval(0, last), parts, summary.s);
    }

    method FillClusters()
      requires Valid() && subtrees != [] && last > 0
      modifies Repr - {this}, this`parts
      ensures Kids() && summary.s == Interval(0, |subtrees| - 1)
      ensures forall j :: 0 <= j < |parts| ==> parts[j] == if j < |subtrees| then FilledPart(n, 0, LastOf(), j) else {}
    {
      Confined();
      for i := 0 to |subtrees|
        invariant Kids() && summary.s == old(summary.s)
        invariant forall j :: 0 <= j < i ==> parts[j] == FilledPart(n, 0, LastOf(), j)
        invariant forall j :: i <= j < |parts| ==> parts[j] == old(parts)[j]
      {
        FillCluster(i);
      }
      SumInsertAll(if |subtrees| != Clusters(n) then Upto(|subtrees| - 1) else Whole);
    }

    method FillCluster(i: nat)
      requires Shape() && Kids() && Span() && last > 0 && i < |subtrees|
      requires forall e :: e in parts[i] ==> e <= LimitOf(n, LastOf(), i).Last(ClusterSize(n)) && (i == 0 ==> 0 < e)
      modifies subtrees[i].Repr, this`parts
      ensures Kids() && summary.s == old(summary.s)
      ensures parts == old(parts)[i := FilledPart(n, 0, LastOf(), i)]
    {
      LimitSpan();
      LimitFacts(n, LastOf());
      ClusterWide(n);
      FullPart(n, 0, LastOf(), i);
      SubInsertAll(i, if i == 0 then 1 else 0, LimitOf(n, LastOf(), i));
    }

    /** Complements the members within `[0, last]`. */
    method BitwiseInvert() returns (r: Reply<()>)
      requires Valid()
      modifies Repr - {this}, this`min, this`max, this`parts, this`s
      ensures Valid()
      ensures r == if subtrees == [] then NotInitialized else Returned(())
      ensures s == if subtrees == [] then old(s) else Interval(0, last) - old(s)
    {
      Opened();
      if max < min {
        r := InsertAll();
      } else if min == max {
        var x := min;
        r := InsertAll();
        Delete(x);
      } else {
        InvertNode();
        r := Returned(());
      }
    }

    method InvertNode()
      requires Valid() && subtrees != [] && min != max && s != {}
      modifies Repr - {this}, this`min, this`max, this`parts, this`s
      ensures Valid() && s == Interval(0, last) - old(s)
    {
      var m := min;
      InvertClusters();
      Delete(m);
      assert s == Interval(0, last) - old(s);
    }

    /** The loop of BitwiseInvert over the clusters, from its start to its end. */
    method InvertClusters()
      requires Valid() && subtrees != [] && s != {}
      modifies Repr - {this}, this`min, this`max, this`parts, this`s
      ensures Valid() && s == InvertGoal(old(s), old(min), last)
    {
      Opened();
      LimitSpan();
      Confined();
      ghost var was, min1, max1, s0, sum := parts, MinPlusOne(), max, s, summary.s;
      ghost var t := InvertGoal(s, Decrement(n, min1), last);
      min, max := last, 0;
      var found := InvertLoop(was, min1, max1, s0, sum, t);
      InvertSettle(was, min1, max1, s0, sum, t, found);
    }

    ghost method InvertSettle(was: seq<set<nat>>, min1: nat, max1: nat, s0: set<nat>, sum: set<nat>, t: set<nat>, found: bool)
      requires Shape() && Kids() && Span() && Fields(n, min1, max1, s0, was, sum) && s0 != {}
      requires t == InvertGoal(s0, Decrement(n, min1), last) && forall x :: x in s0 ==> x <= last
      requires Inverting(ClusterSize(n), was, t, |subtrees|, found, min, max, parts, summary.s)
      modifies this`s
      ensures Valid() && s == t
    {
      InvertEnd(was, min1, max1, s0, sum, t, found);
      IndexWide(n);
      s := t;
      assert Kids();
    }

    lemma InvertEnd(was: seq<set<nat>>, min1: nat, max1: nat, s0: set<nat>, sum: set<nat>, t: set<nat>, found: bool)
      requires Shape() && Kids() && Span() && Fields(n, min1, max1, s0, was, sum) && s0 != {}
      requires t == InvertGoal(s0, Decrement(n, min1), last) && forall x :: x in s0 ==> x <= last
      requires Inverting(ClusterSize(n), was, t, |subtrees|, found, min, max, parts, summary.s)
      ensures Fields(n, Increment(n, min), max, t, parts, summary.s) && t != {} && min < U()
      ensures forall x :: x in t ==> x <= last
    {
      LimitSpan();
      IndexWide(n);
      var x := Decrement(n, min1);
      assert x in s0 && x in t;
      InSpan(x);
      assert found && min in t;
      InvertFinish(n, LastOf(), last, min1, max1, s0, was, sum, t, found, Increment(n, min), max, parts, summary.s);
      GoalUpto(s0, x, last);
    }

    /** What BitwiseInvert found, and what the clusters are to hold after it. */
    ghost predicate InvertTask(was: seq<set<nat>>, min1: nat, max1: nat, s0: set<nat>, sum: set<nat>, t: set<nat>)
      reads this`subtrees, this`last
    {
      && Span() && Fields(n, min1, max1, s0, was, sum) && s0 != {}
      && t == InvertGoal(s0, Decrement(n, min1), last) && (forall x :: x in s0 ==> x <= last)
      && (forall i, e :: 0 <= i < |was| && e in was[i] ==> e <= LimitOf(n, LastOf(), i).Last(ClusterSize(n)))
    }

    method InvertLoop(ghost was: seq<set<nat>>, ghost min1: nat, ghost max1: nat, ghost s0: set<nat>, ghost sum: set<nat>,
                      ghost t: set<nat>) returns (found: bool)
      requires Shape() && Kids() && InvertTask(was, min1, max1, s0, sum, t)
      requires parts == was && summary.s == sum && max == 0
      modifies Repr - {this}, this`parts, this`min, this`max
      ensures Kids() && Inverting(ClusterSize(n), was, t, |subtrees|, found, min, max, parts, summary.s)
    {
      found := false;
      for i := 0 to |subtrees|
        invariant Kids() && Inverting(ClusterSize(n), was, t, i, found, min, max, parts, summary.s)
      {
        found := InvertNext(i, found, was, min1, max1, s0, sum, t);
      }
    }

    /** One turn of that loop, as the loop sees it. */
    method InvertNext(i: nat, found: bool, ghost was: seq<set<nat>>, ghost min1: nat, ghost max1: nat, ghost s0: set<nat>,
                      ghost sum: set<nat>, ghost t: set<nat>) returns (found': bool)
      requires Shape() && Kids() && InvertTask(was, min1, max1, s0, sum, t) && i < |subtrees|
      requires Inverting(ClusterSize(n), was, t, i, found, min, max, parts, summary.s)
      modifies Repr - {this}, this`parts, this`min, this`max
      ensures Kids()
      ensures Inverting(ClusterSize(n), was, t, i + 1, found', min, max, parts, summary.s)
    {
      ghost var parts0, sum0, m0, mx0, lo, hi := parts, summary.s, min, max, 0, 0;
      LimitSpan();
      assert (LimitOf(n, LastOf(), i).Upto? ==> LimitOf(n, LastOf(), i).last < ClusterSize(n) - 1) by {
        LimitFacts(n, LastOf());
      }
      found', lo, hi := InvertCluster(i, LimitOf(n, LastOf(), i), found);
      InvertAdvance(n, LastOf(), last, min1, max1, s0, was, sum, i, lo, hi,
        found, m0, mx0, parts0, sum0, found', min, max, parts, summary.s);
    }

    /** One turn of that loop. */
    method InvertCluster(i: nat, limit: Limit, found: bool) returns (found': bool, ghost lo: nat, ghost hi: nat)
      requires Shape() && Kids() && i < |subtrees| && (i in summary.s <==> parts[i] != {})
      requires limit.Upto? ==> limit.last < ClusterSize(n) - 1
      requires forall e :: e in parts[i] ==> e <= limit.Last(ClusterSize(n))
      modifies Repr - {this}, this`parts, this`min, this`max
      ensures Kids()
      ensures InvertTurn(ClusterSize(n), i, Interval(0, limit.Last(ClusterSize(n))) - old(parts)[i], lo, hi,
                found, old(min), old(max), old(parts), old(summary.s), found', min, max, parts, summary.s)
    {
      InvertPart(i, limit);
      var f, first, last' := SubMinMax(i);
      lo, hi := first, last';
      found' := found;
      if f {
        if Join(i, last', ClusterSize(n)) > max {
          max := Join(i, last', ClusterSize(n));
        }
        if !found {
          found' := true;
          TakeMinimum(i, first, last');
        }
      } else {
        SumDelete(i);
      }
    }

    method InvertPart(i: nat, limit: Limit)
      requires Shape() && Kids() && i < |subtrees| && (i in summary.s <==> parts[i] != {})
      requires limit.Upto? ==> limit.last < ClusterSize(n) - 1
      requires forall e :: e in parts[i] ==> e <= limit.Last(ClusterSize(n))
      modifies Repr - {this}, this`parts
      ensures Kids() && summary.s == old(summary.s) + {i}
      ensures parts == old(parts)[i := Interval(0, limit.Last(ClusterSize(n))) - old(parts)[i]]
    {
      var inSummary, _, _ := SubMinMax(i);
      SubInvert(i, limit);
      if !inSummary {
        SumInsert(i);
      }
    }

    method SubInvert(c: nat, limit: Limit)
      requires Shape() && Kids() && c < |subtrees|
      requires limit.Upto? ==> limit.last < ClusterSize(n) - 1
      requires forall e :: e in parts[c] ==> e <= limit.Last(ClusterSize(n))
      modifies subtrees[c].Repr, this`parts
      ensures Kids() && summary.s == old(summary.s)
      ensures parts == old(parts)[c := Interval(0, limit.Last(ClusterSize(n))) - old(parts)[c]]
    {
      var t := subtrees[c];
      assert t.Valid() && t.U() == ClusterSize(n);
      t.BitwiseInvert(limit);
      parts := parts[c := t.s];
      Framed(c);
    }

    /** The first non-empty cluster of the result gives up its minimum to this object. */
    method TakeMinimum(i: nat, first: nat, last': nat)
      requires Shape() && Kids() && i < |subtrees| && i in summary.s
      requires IsMin(parts[i], first) && IsMax(parts[i], last')
      modifies Repr - {this}, this`parts, this`min
      ensures Kids() && min == Join(i, first, ClusterSize(n))
      ensures parts == old(parts)[i := old(parts)[i] - {first}]
      ensures summary.s == SumWithout(parts, old(summary.s), i)
    {
      EmptiedIfSingle(parts[i], first, last', first);
      min := Join(i, first, ClusterSize(n));
      SubDelete(i, first);
      if first == last' {
        SumDelete(i);
      }
    }

    /** `operator|=`: adds every member of `r`, another tree with the same clusters, unless the sizes differ. */
    method OrEquals(r: Wrap) returns (a: Reply<()>)
      requires Valid() && subtrees != [] && r.Valid() && r.subtrees != [] && r.n == n && Repr !! r.Repr
      modifies Repr - {this}, this`min, this`max, this`parts, this`s
      ensures Valid() && r.Valid()
      ensures a == if last != r.last then SizesDiffer else Returned(())
      ensures s == if last != r.last then old(s) else old(s) + r.s
    {
      if last != r.last {
        return SizesDiffer;
      }
      r.Opened();
      if r.max >= r.min {
        AddAll(r);
        r.Kept();
      }
      a := Returned(());
    }

    /** Two trees of the same size, apart from each other. */
    ghost predicate Paired(r: Wrap)
      reads this, Repr, r, r.Repr
    {
      Valid() && subtrees != [] && r.Valid() && r.subtrees != [] && r.n == n && r.last == last && Repr !! r.Repr
    }

    method AddAll(r: Wrap)
      requires Paired(r) && r.s != {}
      modifies Repr - {this}, this`min, this`max, this`parts, this`s
      ensures Valid() && s == old(s) + r.s
    {
      ghost var s0, t := s, r.s;
      AddMinimum(r);
      r.Opened();
      Absorb(s0, r.min, t);
      if r.min != r.max {
        UnionNode(r);
      }
    }

    /** A tree none of whose objects changed is as it was. */
    twostate lemma Kept()
      requires old(Valid()) && Repr == old(Repr) && unchanged(Repr)
      ensures Valid() && s == old(s) && min == old(min)
    {
    }

    /** The minimum of `r` is in none of its clusters, so it is added by itself. */
    method AddMinimum(r: Wrap)
      requires Paired(r) && r.s != {}
      modifies Repr - {this}, this`min, this`max, this`parts, this`s
      ensures Paired(r) && r.s == old(r.s) && r.min == old(r.min) && s == old(s) + {r.min}
    {
      r.Opened();
      AddOne(r.min);
      r.Kept();
    }

    method AddOne(x: nat)
      requires Valid() && subtrees != [] && x <= last
      modifies Repr - {this}, this`min, this`max, this`parts, this`s
      ensures Valid() && s == old(s) + {x}
    {
      var has := FHasElement(x);
      if !has.value {
        var _ := Insert(x);
      }
    }

    method UnionNode(r: Wrap)
      requires Paired(r) && r.s != {} && r.min in s && r.min != r.max
      modifies Repr - {this}, this`min, this`max, this`parts, this`s
      ensures Valid() && s == old(s) + r.s
    {
      PairedBeside(r);
      JoinClusters(r);
      Settled(min, if r.max > max then r.max else max, s + r.s);
    }

    method JoinClusters(r: Wrap)
      requires Beside(r) && r.summary.s != {} && s != {} && r.s != {}
      requires Fields(n, Increment(n, min), max, s, parts, summary.s)
      requires Fields(n, r.MinPlusOne(), r.max, r.s, r.parts, r.summary.s) && Decrement(n, r.MinPlusOne()) in s
      modifies Repr - {this}, this`parts
      ensures Shape() && Kids()
      ensures Fields(n, Increment(n, min), if r.max > max then r.max else max, s + r.s, parts, summary.s)
    {
      ghost var parts0, sum0, rmin, rparts, rsum := parts, summary.s, r.MinPlusOne(), r.parts, r.summary.s;
      UnionClusters(r);
      UnionFields(n, Increment(n, min), max, s, parts0, sum0, rmin, r.max, r.s, rparts, rsum, parts, summary.s);
    }

    lemma PairedBeside(r: Wrap)
      requires Paired(r) && r.s != {} && r.min in s && r.min != r.max
      ensures Beside(r) && r.summary.s != {} && Fields(n, Increment(n, min), max, s, parts, summary.s) && min < U()
      ensures Fields(n, r.MinPlusOne(), r.max, r.s, r.parts, r.summary.s) && Decrement(n, r.MinPlusOne()) in s
      ensures forall x :: x in r.s ==> x <= last
    {
      Opened();
      r.Opened();
    }

    /** Another tree of the same size, apart from this one. */
    ghost predicate Beside(r: Wrap)
      reads this, Repr, r, r.Repr
    {
      && Shape() && Kids() && Named(parts, summary.s)
      && r.Shape() && r.Kids() && Named(r.parts, r.summary.s)
      && r.n == n && Repr !! r.Repr && |r.subtrees| == |subtrees|
    }

    /** The loop of `operator|=` over the clusters that the summary of `r` names. */
    method UnionClusters(r: Wrap)
      requires Beside(r) && r.summary.s != {}
      modifies Repr - {this}, this`parts
      ensures Beside(r) && Uniting(old(parts), r.parts, |parts|, parts) && r.parts == old(r.parts)
    {
      var c := r.SumMin();
      ghost var was, that, sum := parts, r.parts, r.summary.s;
      UniteStart(was, that, sum, c);
      while true
        invariant Beside(r) && r.parts == that && r.summary.s == sum && c in sum && Uniting(was, that, c, parts)
        decreases |that| - c
      {
        var next := UnionTurn(r, c, was);
        if next == 0 {
          break;
        }
        c := next;
      }
    }

    /** One turn of that loop; `next` is the next cluster to join, or 0. */
    method UnionTurn(r: Wrap, c: nat, ghost was: seq<set<nat>>) returns (next: nat)
      requires Beside(r) && c in r.summary.s && Uniting(was, r.parts, c, parts)
      modifies Repr - {this}, this`parts
      ensures Beside(r) && r.parts == old(r.parts) && r.summary.s == old(r.summary.s)
      ensures Uniting(was, r.parts, if next == 0 then |parts| else next, parts)
      ensures next != 0 ==> c < next && next in r.summary.s
    {
      ghost var parts0, that, sum := parts, r.parts, r.summary.s;
      next := UnionNext(r, c);
      UniteStep(was, that, sum, c, next, parts0, parts);
    }

    method UnionNext(r: Wrap, c: nat) returns (next: nat)
      requires Beside(r) && c < |parts| && r.parts[c] != {}
      modifies Repr - {this}, this`parts
      ensures Beside(r) && r.parts == old(r.parts) && r.summary.s == old(r.summary.s)
      ensures parts == old(parts)[c := old(parts)[c] + r.parts[c]] && IsSuccessor(r.summary.s, c, next)
    {
      UnionCluster(r, c);
      next := r.SumSuccessor(c);
    }

    method SumMin() returns (c: nat)
      requires Shape() && Kids() && summary.s != {}
      ensures IsMin(summary.s, c)
    {
      var f;
      f, c := summary.FHasMin();
    }

    /** Joins cluster `c`. */
    method UnionCluster(r: Wrap, c: nat)
      requires Beside(r) && c < |parts| && r.parts[c] != {}
      modifies Repr - {this}, this`parts
      ensures Beside(r) && r.parts == old(r.parts) && r.summary.s == old(r.summary.s)
      ensures parts == old(parts)[c := old(parts)[c] + r.parts[c]]
    {
      assert c < |subtrees| && r.subtrees[c].Valid();
      ghost var parts0, sum0 := parts, summary.s;
      JoinCluster(c, r.subtrees[c]);
      r.Untouched();
      NamedJoin(parts0, sum0, c, r.parts[c], parts, summary.s);
    }

    /** Likewise for its clusters and summary. */
    twostate lemma Untouched()
      requires old(Shape()) && old(Kids()) && Repr == old(Repr) && unchanged(Repr)
      ensures Shape() && Kids() && parts == old(parts) && summary.s == old(summary.s)
    {
    }

    method JoinCluster(c: nat, that: Tree)
      requires Shape() && Kids() && c < |subtrees| && Named(parts, summary.s)
      requires that.Valid() && that.n == n - n / 2 && that.Repr !! Repr && that.s != {}
      modifies Repr - {this}, this`parts
      ensures Kids() && summary.s == old(summary.s) + {c}
      ensures parts == old(parts)[c := old(parts)[c] + that.s]
    {
      NameCluster(c);
      SubOr(c, that);
    }

    /** Puts cluster `c` in the summary if it is empty. */
    method NameCluster(c: nat)
      requires Shape() && Kids() && c < |subtrees| && Named(parts, summary.s)
      modifies summary.Repr
      ensures Kids() && summary.s == old(summary.s) + {c}
    {
      var any, _, _ := SubMinMax(c);
      if !any {
        SumInsert(c);
      }
    }

    method SubOr(c: nat, that: Tree)
      requires Shape() && Kids() && c < |subtrees|
      requires that.Valid() && that.n == n - n / 2 && that.Repr !! Repr
      modifies subtrees[c].Repr, this`parts
      ensures Kids() && summary.s == old(summary.s)
      ensures parts == old(parts)[c := old(parts)[c] + that.s]
    {
      var t := subtrees[c];
      t.OrEquals(that);
      parts := parts[c := t.s];
      Framed(c);
    }

    // Size

    /** `Init`: zeroed clusters for elements below `count`. If `count` is too great (or 0, whose predecessor
        wraps) it throws, after the old clusters are gone. The summary is not cleared: the tree is sound
        afterwards exactly when the summary named nothing before. */
    method Init(count: nat) returns (r: Reply<()>)
      requires Valid()
      modifies this
      ensures r == if 0 < count <= U() then Returned(()) else OutOfRange
      ensures s == {} && summary.s == old(summary.s) && fresh(Repr - old(Repr))
      ensures if r.Returned? then last == count - 1 && subtrees != [] else subtrees == []
      ensures Valid() <==> old(summary.s) == {}
    {
      Deinit();
      if count == 0 || count > U() {
        Emptied();
        return OutOfRange;
      }
      Create(count - 1);
      r := Returned(());
    }

    method Create(last': nat)
      requires Shape() && Kids() && subtrees == [] && s == {} && min == U() - 1 && max == 0 && last' < U()
      requires forall i :: 0 <= i < |parts| ==> parts[i] == {}
      modifies this`subtrees, this`Repr, this`last
      ensures last == last' && subtrees != [] && summary.s == old(summary.s) && fresh(Repr - old(Repr))
      ensures Valid() <==> summary.s == {}
    {
      MoreClusters(last', last');
      AddClusters(High(last', ClusterSize(n)) + 1);
      last := last';
      Emptied();
    }

    /** `_Deinit` */
    method Deinit()
      requires Shape() && summary.Valid()
      modifies this`subtrees, this`min, this`max, this`s, this`parts
      ensures Shape() && Kids() && subtrees == [] && s == {} && min == U() - 1 && max == 0
      ensures summary.s == old(summary.s) && forall i :: 0 <= i < |parts| ==> parts[i] == {}
    {
      assert this !in summary.Repr && summary.Valid();
      parts := seq(Clusters(n), _ => {});
      subtrees := [];
      min, max, s := U() - 1, 0, {};
    }

    lemma Emptied()
      requires Shape() && |parts| == Clusters(n) && s == {} && min == U() - 1 && max == 0 && summary.Valid()
      requires (forall i :: 0 <= i < |subtrees| ==> subtrees[i].Valid() && subtrees[i].s == {}) && (subtrees != [] ==> Span())
      requires forall i :: 0 <= i < |parts| ==> parts[i] == {}
      ensures Valid() <==> summary.s == {}
    {
      assert Kids();
      assert summary.s == {} ==> Fields(n, 0, 0, {}, parts, summary.s);
      assert Fields(n, 0, 0, {}, parts, summary.s) ==> summary.s == {};
    }

    /** The summary names nothing exactly when the tree has at most one member. */
    lemma SummaryEmpty()
      requires Valid()
      ensures summary.s == {} <==> |s| <= 1
    {
      Opened();
      if s != {} {
        CardOne(s, max);
        if s == {max} {
          MinAlone(ClusterSize(n), Clusters(n), s, Decrement(n, MinPlusOne()), parts, summary.s, 0);
        }
      } else {
        MinAlone(ClusterSize(n), Clusters(n), s, Decrement(n, MinPlusOne()), parts, summary.s, 0);
      }
    }

    /** Resize to a greater size keeps the members. */
    method Grow(count: nat) returns (r: Reply<()>)
      requires Valid() && subtrees != [] && count > last + 1
      modifies this`subtrees, this`Repr, this`last
      ensures Valid() && s == old(s) && fresh(Repr - old(Repr))
      ensures r == if count <= U() then Returned(()) else OutOfRange
      ensures last == if count <= U() then count - 1 else old(last)
      ensures old(subtrees) <= subtrees && forall i :: |old(subtrees)| <= i < |subtrees| ==> subtrees[i].s == {}
    {
      if count > U() {
        return OutOfRange;
      }
      MoreClusters(last, count - 1);
      GrowTo(High(count - 1, ClusterSize(n)) + 1, count - 1);
      r := Returned(());
    }

    lemma MoreClusters(x: nat, y: nat)
      requires x <= y < U()
      ensures High(x, ClusterSize(n)) <= High(y, ClusterSize(n)) < Clusters(n)
    {
      UniverseSplits(n);
      SplitOrder(y, x, ClusterSize(n));
    }

    method GrowTo(clusters: nat, last': nat)
      requires Valid() && |subtrees| <= clusters <= Clusters(n) && last <= last' < U()
      requires clusters == High(last', ClusterSize(n)) + 1
      modifies this`subtrees, this`Repr, this`last
      ensures Valid() && last == last' && fresh(Repr - old(Repr))
      ensures old(subtrees) <= subtrees && forall i :: |old(subtrees)| <= i < |subtrees| ==> subtrees[i].s == {}
    {
      AddClusters(clusters);
      Extended(last');
    }

    /** Moves the last element up to the end of the clusters. */
    method Extended(last': nat)
      requires Shape() && Kids() && Fields(n, MinPlusOne(), max, s, parts, summary.s)
      requires (if s == {} then min == U() - 1 && max == 0 else IsMin(s, min)) && forall x :: x in s ==> x <= last'
      requires last' < U() && |subtrees| == High(last', ClusterSize(n)) + 1
      modifies this`last
      ensures Valid() && last == last'
    {
      last := last';
      assert Kids();
    }

    method AddClusters(clusters: nat)
      requires Shape() && Kids() && |subtrees| <= clusters <= Clusters(n)
      modifies this`subtrees, this`Repr
      ensures Shape() && Kids() && |subtrees| == clusters && summary.s == old(summary.s) && fresh(Repr - old(Repr))
      ensures old(subtrees) <= subtrees && forall i :: |old(subtrees)| <= i < |subtrees| ==> subtrees[i].s == {}
    {
      var more;
      ghost var all;
      more, all := Tree.MakeClusters(n - n / 2, clusters - |subtrees|);
      subtrees, Repr := subtrees + more, Repr + all;
      assert Shape();
    }
  }

  /** The last element of the universe is in the last cluster. */
  /** `b.cut` is the clusters of `b` with cluster `c` cut after `x`. */
  ghost predicate IsCut(b: Content, c: nat, x: nat, n: nat) {
    c < |b.parts| && b.cut == b.parts[c := Below(b.parts[c], Low(x, ClusterSize(n)) + 1)]
  }

  /** `throws` and `sound` say how FDeleteAllAfter goes in cluster `c`, when there is a call for it. */
  ghost predicate CutGoes(n: nat, b: Content, c: nat, e: nat, throws: bool, sound: bool) {
    && c < |b.parts| && e < ClusterSize(n) && (forall f :: f in b.parts[c] ==> f < ClusterSize(n))
    && (throws <==> e + 1 != ClusterSize(n) && DeleteAfterThrows(n - n / 2, b.parts[c], e))
    && (sound <==> !(e + 1 != ClusterSize(n) && DeleteAfterWraps(n - n / 2, b.parts[c], e)))
  }

  /** `sumThrows` and `sumWraps` say how it goes in the summary. */
  ghost predicate SumGoes(n: nat, b: Content, c: nat, e: nat, sumThrows: bool, sumWraps: bool) {
    && c < |b.parts| && (sumThrows <==> CheckDeleteThrows(n / 2, b.sum, c)) && (sumThrows ==> b.parts[c] == {})
    && (sumWraps <==> DeleteAfterWraps(n / 2, if Below(b.parts[c], e + 1) == {} then b.sum - {c} else b.sum, c))
  }

  /** What is left in the cut cluster has the new maximum. */
  lemma CutHere(n: nat, b: Content, c: nat, x: nat, m: nat)
    requires Fields(n, b.min1, b.max, b.s, b.parts, b.sum) && b.s != {} && x < Pow2(n) && Decrement(n, b.min1) <= x
    requires IsCut(b, c, x, n) && c == High(x, ClusterSize(n)) && IsMax(b.cut[c], m)
    ensures IsMax(Below(b.s, x + 1), Join(c, m, ClusterSize(n)))
  {
    CutMaxHere(n, b.min1, b.max, b.s, b.parts, b.sum, x, m);
  }

  /** Nothing is left in it: the cluster before that the summary names has it, or it is the minimum. */
  lemma CutBefore(n: nat, b: Content, c: nat, x: nat, p: nat, last: nat)
    requires Fields(n, b.min1, b.max, b.s, b.parts, b.sum) && b.s != {} && x < Pow2(n) && Decrement(n, b.min1) <= x
    requires IsCut(b, c, x, n) && c == High(x, ClusterSize(n)) && b.cut[c] == {}
    requires IsPredecessor(b.sum - {c}, c, p, Clusters(n) - 1) && (p != Clusters(n) - 1 ==> p < |b.cut| && IsMax(b.cut[p], last))
    ensures IsMax(Below(b.s, x + 1), if p == Clusters(n) - 1 then Decrement(n, b.min1) else Join(p, last, ClusterSize(n)))
  {
    CutMaxBefore(n, b.min1, b.max, b.s, b.parts, b.sum, x, b.sum - {c}, p, last);
  }

  lemma CutAgrees(b: Content, c: nat, x: nat, e: nat, n: nat)
    requires IsCut(b, c, x, n) && e == Low(x, ClusterSize(n))
    ensures b.cut == b.parts[c := Below(b.parts[c], e + 1)] && b.cut[c] == Below(b.parts[c], e + 1)
  {
  }

  lemma DeleteAfterCases(n: nat, b: Content, x: nat, c: nat, e: nat, raises: bool, wraps: bool)
    returns (throws: bool, sound: bool, sumThrows: bool, sumWraps: bool)
    requires 9 < n && Fields(n, b.min1, b.max, b.s, b.parts, b.sum) && b.s != {} && x < Pow2(n)
    requires Decrement(n, b.min1) <= x <= b.max && c == High(x, ClusterSize(n)) && e == Low(x, ClusterSize(n)) && c < |b.parts|
    requires (raises <==> DeleteAfterThrows(n, b.s, x)) && (wraps <==> DeleteAfterWraps(n, b.s, x))
    ensures CutGoes(n, b, c, e, throws, sound) && SumGoes(n, b, c, e, sumThrows, sumWraps)
    ensures (raises <==> throws || sumThrows) && (wraps <==> !sound || sumWraps)
  {
    DeleteAfterFields(n, b.min1, b.max, b.s, b.parts, b.sum, x, c, e);
    throws := e + 1 != ClusterSize(n) && DeleteAfterThrows(n - n / 2, b.parts[c], e);
    sound := !(e + 1 != ClusterSize(n) && DeleteAfterWraps(n - n / 2, b.parts[c], e));
    sumThrows := CheckDeleteThrows(n / 2, b.sum, c);
    sumWraps := DeleteAfterWraps(n / 2, if Below(b.parts[c], e + 1) == {} then b.sum - {c} else b.sum, c);
  }

  lemma LastCluster(n: nat, u: nat)
    requires u == Pow2(n)
    ensures High(u - 1, ClusterSize(n)) == Clusters(n) - 1
  {
    Pow2Add(n / 2, n - n / 2);
    LastPart(Clusters(n), ClusterSize(n), u);
  }

  lemma LastPart(c: nat, k: nat, u: nat)
    requires c > 0 && k > 0 && u == c * k
    ensures u > 0 && High(u - 1, k) == c - 1
  {
    JoinIsMulAdd(c - 1, k - 1, k);
    SplitJoin(c - 1, k - 1, k);
    assert (c - 1) * k + k == c * k;
  }

  lemma Absorb(s: set<nat>, m: nat, t: set<nat>)
    requires m in t
    ensures s + {m} + t == s + t
    ensures t == {m} ==> s + {m} == s + t
  {
  }

  lemma NamedJoin(parts: seq<set<nat>>, sum: set<nat>, c: nat, more: set<nat>, parts': seq<set<nat>>, sum': set<nat>)
    requires Named(parts, sum) && c < |parts| && more != {}
    requires parts' == parts[c := parts[c] + more] && sum' == sum + {c}
    ensures Named(parts', sum')
  {
  }

  /** The clusters while those before `c` have been cleared. */
  ghost predicate Clearing(was: seq<set<nat>>, c: nat, parts: seq<set<nat>>) {
    && |parts| == |was|
    && forall j :: 0 <= j < |was| ==> parts[j] == if j < c then {} else was[j]
  }

  lemma ClearingStart(was: seq<set<nat>>, sum: set<nat>, c: nat)
    requires Named(was, sum) && IsMin(sum, c)
    ensures Clearing(was, c, was)
  {
    forall j | 0 <= j < |was| && j < c
      ensures was[j] == {}
    {
      assert j !in sum;
    }
  }

  lemma ClearedFields(n: nat, was: seq<set<nat>>, parts: seq<set<nat>>, sum: set<nat>)
    requires Clearing(was, |was|, parts) && |parts| == Clusters(n) && sum == {}
    ensures Fields(n, 0, 0, {}, parts, sum)
  {
  }

  lemma HasSuccessor(p: set<nat>, x: nat, last: nat) returns (e: nat)
    requires last in p && x < last
    ensures e in p && IsSuccessor(p, x, e) && forall f {:trigger IsSuccessor(p, x, f)} :: IsSuccessor(p, x, f) ==> f == e
  {
    var above := set f | f in p && x < f;
    assert last in above;
    e := HasMin(above);
    assert forall f :: f in p && x < f ==> f in above;
  }

  lemma HasPredecessor(p: set<nat>, x: nat, first: nat, none: nat) returns (e: nat)
    requires first in p && first < x <= none
    ensures e in p && IsPredecessor(p, x, e, none)
    ensures forall f {:trigger IsPredecessor(p, x, f, none)} :: IsPredecessor(p, x, f, none) ==> f == e
  {
    assert first in Below(p, x);
    e := HasMax(Below(p, x));
    assert forall f :: f in p && f < x ==> f in Below(p, x);
  }

  /** `answers` are the answers of NSuccessorDelete( NO_ELEMENT ), called until it finds nothing. */
  ghost predicate Drains(s: set<nat>, answers: seq<nat>)
    decreases |answers|
  {
    if answers == [] then IsNext(s, NO_ELEMENT, NO_ELEMENT)
    else answers[0] != NO_ELEMENT && IsNext(s, NO_ELEMENT, answers[0]) && Drains(s - {answers[0]}, answers[1..])
  }

  /** They are the members, each once, in ascending order. */
  lemma {:induction false} DrainSorts(s: set<nat>, answers: seq<nat>)
    requires Drains(s, answers)
    ensures forall x :: x in s <==> x in answers
    ensures forall i, j :: 0 <= i < j < |answers| ==> answers[i] < answers[j]
  {
    if answers != [] {
      var a, rest := answers[0], answers[1..];
      DrainSorts(s - {a}, rest);
      assert answers == [a] + rest;
      forall i, j | 0 <= i < j < |answers|
        ensures answers[i] < answers[j]
      {
        assert answers[j] in rest;
      }
    } else {
      assert forall x :: x in s ==> false;
    }
  }

  /** NSuccessorDelete( NO_ELEMENT ) called until it finds nothing: it empties the tree, and the answers are the
      members in ascending order. */
  method Drain(w: Wrap) returns (answers: seq<nat>)
    requires w.Valid()
    modifies w.Repr
    ensures w.Valid() && w.s == {}
    ensures forall x :: x in old(w.s) <==> x in answers
    ensures forall i, j :: 0 <= i < j < |answers| ==> answers[i] < answers[j]
  {
    answers := DrainFrom(w);
    DrainSorts(old(w.s), answers);
  }

  method DrainFrom(w: Wrap) returns (answers: seq<nat>)
    requires w.Valid()
    modifies w.Repr
    ensures w.Valid() && w.s == {} && Drains(old(w.s), answers)
    decreases w.s
  {
    ghost var was := w.s;
    var r := w.NSuccessorDelete(NO_ELEMENT);
    if r.value == NO_ELEMENT {
      return [];
    }
    assert w.s == was - {r.value} && w.s != was;
    var rest := DrainFrom(w);
    answers := [r.value] + rest;
    assert answers[1..] == rest;
  }

  /** A checked delete throws on the empty tree for the last element of the greatest universe, and where the
      checked delete in the cluster of `x` throws. */
  ghost predicate DeleteThrows(n: nat, s: set<nat>, x: nat) {
    |s| != 1
    && ((s == {} && x == Pow2(n) - 1)
        || (x !in s && CheckDeleteThrows(n - n / 2, ClusterOf(n, s, High(x, ClusterSize(n))), Low(x, ClusterSize(n)))))
  }

  /** With clusters of fewer than 2^16 elements a checked delete throws for one argument, in one state. */
  lemma ThrowsBelow32(n: nat, s: set<nat>, x: nat)
    requires 10 <= n < 32 && n % 2 == 0 && x < Pow2(n)
    ensures DeleteThrows(n, s, x) <==> s == {} && x == Pow2(n) - 1
  {
    SplitInjective(x, ClusterSize(n));
    CheckDeleteNeverThrows(n - n / 2, ClusterOf(n, s, High(x, ClusterSize(n))), Low(x, ClusterSize(n)));
  }

  /** With clusters of 2^16 elements it throws also for the last element of any empty cluster. */
  lemma ThrowsAt32(s: set<nat>, x: nat)
    requires x < 0x1_0000_0000
    ensures DeleteThrows(32, s, x) <==>
      |s| != 1
      && ((s == {} && x == 0xffff_ffff)
          || (x !in s && Low(x, 65536) == 65535 && forall y :: y in s && High(y, 65536) == High(x, 65536) ==> IsMin(s, y)))
  {
    Pow2Nibbles();
    VebBounds.ThrowsAt32(s, x);
    var c := ClusterOf(32, s, High(x, 65536));
    SplitInjective(x, 65536);
    ThrowsAt16(c, Low(x, 65536));
    if y :| y in s && High(y, 65536) == High(x, 65536) && !IsMin(s, y) {
      assert Low(y, 65536) in c;
    } else {
      assert c == {};
    }
  }
}
