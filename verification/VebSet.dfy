/** What the queries of the tree mean, said of plain sets of naturals. */
module VebSet {
  ghost predicate IsMin(s: set<nat>, m: nat) {
    m in s && forall y :: y in s ==> m <= y
  }

  ghost predicate IsMax(s: set<nat>, m: nat) {
    m in s && forall y :: y in s ==> y <= m
  }

  /** `r` answers "least member above `x`", where 0 stands for "none". */
  ghost predicate IsSuccessor(s: set<nat>, x: nat, r: nat) {
    if r == 0 then forall y :: y in s ==> y <= x
    else r in s && x < r && forall y :: y in s && x < y ==> r <= y
  }

  /** `r` answers "greatest member below `x`", where `none`, which no answer can reach, stands for "none". */
  ghost predicate IsPredecessor(s: set<nat>, x: nat, r: nat, none: nat) {
    if r == none then forall y :: y in s ==> x <= y
    else r in s && r < x && forall y :: y in s && y < x ==> y <= r
  }

  predicate InRange(first: nat, x: nat, last: int) {
    first <= x <= last
  }

  /** All of `[first, last]`. */
  ghost function Interval(first: nat, last: int): (s: set<nat>)
    ensures forall x: nat :: x in s <==> first <= x <= last
  {
    set x: nat | x <= last && InRange(first, x, last)
  }

  /** The members below `x`. */
  ghost function Below(s: set<nat>, x: nat): set<nat> {
    set y | y in s && y < x
  }

  lemma {:induction false} HasMin(s: set<nat>) returns (m: nat)
    requires s != {}
    ensures IsMin(s, m)
  {
    var x :| x in s;
    m := x;
    if s != {x} {
      var rest := s - {x};
      assert rest != {};
      var l := HasMin(rest);
      m := if x < l then x else l;
      assert forall y :: y in s ==> y == x || y in rest;
    }
  }

  lemma {:induction false} HasMax(s: set<nat>) returns (m: nat)
    requires s != {}
    ensures IsMax(s, m)
  {
    var x :| x in s;
    m := x;
    if s != {x} {
      var rest := s - {x};
      assert rest != {};
      var l := HasMax(rest);
      m := if x < l then l else x;
      assert forall y :: y in s ==> y == x || y in rest;
    }
  }
}
