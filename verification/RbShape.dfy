/** The shape of a red-black tree, apart from the nodes that carry it.

    A node is named by its place in the in-order sequence, so that order is built in: node `i` comes before
    node `j` exactly when `i < j`. `lo` and `hi` bound the places in the subtree of each node, which makes
    every condition on the links a condition between a node and its neighbours; `bh` counts the black nodes
    on every path down from a node. `NIL` is the absent child and, as a parent, the header.
  */
module RbShape {
  import opened Bits

  const NIL: int := -1

  datatype Color = Red | Black

  datatype Side = Left | Right {
    function Other(): Side {
      if this == Left then Right else Left
    }
  }

  datatype Shape = Shape(root: int, left: seq<int>, right: seq<int>, parent: seq<int>, color: seq<Color>,
                         lo: seq<int>, hi: seq<int>, bh: seq<nat>) {
    function Kid(d: Side, i: int): int
      requires Sized() && this.Has(i)
    {
      if d == Left then left[i] else right[i]
    }

    predicate Sized() {
      |right| == |left| && |parent| == |left| && |color| == |left| && |lo| == |left| && |hi| == |left| && |bh| == |left|
    }

    predicate Has(i: int) {
      0 <= i < |left|
    }

    /** `j` is a child of `i` and its subtree is the places from `a` to `b`. */
    predicate Child(i: int, j: int, a: int, b: int)
      requires Sized()
    {
      Has(j) && parent[j] == i && lo[j] == a && hi[j] == b
    }

    /** The links of node `i` agree with those of its neighbours. */
    predicate At(i: int)
      requires Sized() && Has(i)
    {
      && 0 <= lo[i] <= i < hi[i] <= |left|
      && (if left[i] == NIL then lo[i] == i else Child(i, left[i], lo[i], i))
      && (if right[i] == NIL then hi[i] == i + 1 else Child(i, right[i], i + 1, hi[i]))
      && (if parent[i] == NIL then i == root else Has(parent[i]) && (left[parent[i]] == i || right[parent[i]] == i))
    }

    /** The links make one search tree of all the places. */
    ghost predicate Linked() {
      && Sized()
      && (if |left| == 0 then root == NIL else Has(root) && parent[root] == NIL && lo[root] == 0 && hi[root] == |left|)
      && (forall i :: 0 <= i < |left| ==> At(i))
    }

    function Bh(j: int): nat
      requires Sized()
    {
      if Has(j) then bh[j] else 0
    }

    /** On each side of node `i` the paths down have as many black nodes; `short` is the child position, if
        any, where they have one less. */
    predicate Level(i: int, short: (int, Side))
      requires Sized() && Has(i)
    {
      && Bh(left[i]) + (if short == (i, Left) then 1 else 0) == Bh(right[i]) + (if short == (i, Right) then 1 else 0)
      && bh[i] == Bh(left[i]) + (if short == (i, Left) then 1 else 0) + (if color[i] == Black then 1 else 0)
    }

    ghost predicate Balanced(short: (int, Side)) {
      Sized() && forall i :: 0 <= i < |left| ==> Level(i, short)
    }

    /** Node `i` is not a red child of a red node. */
    predicate Calm(i: int)
      requires Sized() && Has(i)
    {
      color[i] == Red && Has(parent[i]) ==> color[parent[i]] == Black
    }

    /** No red node has a red child, except perhaps that `x` is one. */
    ghost predicate CalmBut(x: int) {
      Sized() && forall i :: 0 <= i < |left| && i != x ==> Calm(i)
    }

    /** No red node has a red child, except perhaps where one of the two is `x`. */
    ghost predicate CalmAround(x: int) {
      Sized() && forall i {:trigger Calm(i)} :: 0 <= i < |left| && i != x && parent[i] != x ==> Calm(i)
    }

    /** A red-black tree. */
    ghost predicate RedBlack() {
      && Linked() && Balanced((NIL, Left)) && CalmBut(NIL)
      && (Has(root) ==> color[root] == Black)
    }
  }

  /** Both children are in the subtree of their parent, on their side. */
  lemma ChildBounds(s: Shape, i: int)
    requires s.Linked() && s.Has(i)
    ensures s.left[i] != NIL ==> s.Has(s.left[i]) && s.lo[i] <= s.left[i] < i
    ensures s.right[i] != NIL ==> s.Has(s.right[i]) && i < s.right[i] < s.hi[i]
    ensures s.parent[i] != NIL ==> s.Has(s.parent[i]) && s.parent[i] != i && (s.left[s.parent[i]] == i <==> i < s.parent[i])
  {
    assert s.At(i);
    if s.left[i] != NIL {
      assert s.At(s.left[i]);
    }
    if s.right[i] != NIL {
      assert s.At(s.right[i]);
    }
    if s.parent[i] != NIL {
      assert s.At(s.parent[i]);
    }
  }

  /** `y` put where `x` is under its parent. */
  function Replanted(s: Shape, x: int, y: int): Shape
    requires s.Sized() && s.Has(x) && (s.parent[x] != NIL ==> s.Has(s.parent[x]))
  {
    var p := s.parent[x];
    if p == NIL then s.(root := y)
    else if s.left[p] == x then s.(left := s.left[p := y])
    else s.(right := s.right[p := y])
  }

  /** A rotation at `x`: its child `y` on the side opposite to `d` takes its place, and `x` becomes the child of
      `y` on side `d`. The writes are in the order of the program. */
  function Rotate(s: Shape, d: Side, x: int): (t: Shape)
    requires s.Linked() && s.Has(x) && s.Kid(d.Other(), x) != NIL
    ensures t.Sized() && |t.left| == |s.left|
  {
    assert s.At(x);
    var y := s.Kid(d.Other(), x);
    assert s.At(y);
    var b, p := s.Kid(d, y), s.parent[x];
    var s1 := if d == Left then s.(right := s.right[x := b]) else s.(left := s.left[x := b]);
    var s2 := s1.(parent := (if b != NIL then s.parent[b := x] else s.parent)[y := p]);
    var s3 := Replanted(s2, x, y);
    if d == Left then
      s3.(left := s3.left[y := x], parent := s3.parent[x := y], lo := s.lo[y := s.lo[x]], hi := s.hi[x := y])
    else
      s3.(right := s3.right[y := x], parent := s3.parent[x := y], hi := s.hi[y := s.hi[x]], lo := s.lo[x := y + 1])
  }

  /** The nodes around a rotation at `x`, and where they stand: `y` is to take the place of `x` under `p`, and
      `b` is to change from `y` to `x`. */
  ghost predicate Family(s: Shape, d: Side, x: int, y: int, b: int, p: int) {
    && s.Linked() && s.Has(x) && s.Has(y) && s.Kid(d.Other(), x) == y && s.parent[y] == x
    && s.At(x) && s.At(y) && b == s.Kid(d, y) && p == s.parent[x]
    && (b != NIL ==> s.Has(b) && s.At(b) && s.parent[b] == y)
    && (p != NIL ==> s.Has(p) && s.At(p) && s.parent[p] != x && s.parent[p] != y)
    && (if d == Left then x < y && s.lo[y] == x + 1 && s.hi[y] == s.hi[x] && (b != NIL ==> x < b < y)
        else y < x && s.hi[y] == x && s.lo[y] == s.lo[x] && (b != NIL ==> y < b < x))
    && (p != NIL ==> if s.left[p] == x then s.hi[x] == p && s.right[p] != x else p + 1 == s.lo[x] && s.right[p] == x)
  }

  lemma RotateFamily(s: Shape, d: Side, x: int) returns (y: int, b: int, p: int)
    requires s.Linked() && s.Has(x) && s.Kid(d.Other(), x) != NIL
    ensures Family(s, d, x, y, b, p)
  {
    assert s.At(x);
    y := s.Kid(d.Other(), x);
    assert s.At(y);
    b, p := s.Kid(d, y), s.parent[x];
    if b != NIL {
      assert s.At(b);
    }
    if p != NIL {
      assert s.At(p);
      if s.parent[p] != NIL {
        assert s.At(s.parent[p]);
      }
    }
  }

  /** Node `i` has the links in `t` that it has in `s`. */
  predicate Same(s: Shape, t: Shape, i: int)
    requires s.Sized() && t.Sized() && s.Has(i) && t.Has(i)
  {
    t.left[i] == s.left[i] && t.right[i] == s.right[i] && Placed(s, t, i)
  }

  predicate Placed(s: Shape, t: Shape, i: int)
    requires s.Sized() && t.Sized() && s.Has(i) && t.Has(i)
  {
    t.parent[i] == s.parent[i] && t.lo[i] == s.lo[i] && t.hi[i] == s.hi[i]
  }

  /** What the rotation makes of every node. */
  ghost predicate Rotated(s: Shape, t: Shape, d: Side, x: int, y: int, b: int, p: int)
    requires Family(s, d, x, y, b, p)
  {
    && t.Sized() && |t.left| == |s.left| && t.root == (if p == NIL then y else s.root)
    && t.Kid(d, x) == s.Kid(d, x) && t.Kid(d.Other(), x) == b && t.parent[x] == y
    && t.Kid(d, y) == x && t.Kid(d.Other(), y) == s.Kid(d.Other(), y) && t.parent[y] == p
    && t.lo[y] == s.lo[x] && t.hi[y] == s.hi[x]
    && (if d == Left then t.lo[x] == s.lo[x] && t.hi[x] == y else t.lo[x] == y + 1 && t.hi[x] == s.hi[x])
    && (b != NIL ==>
      t.left[b] == s.left[b] && t.right[b] == s.right[b] && t.parent[b] == x && t.lo[b] == s.lo[b] && t.hi[b] == s.hi[b])
    && (p != NIL ==>
      && t.left[p] == (if s.left[p] == x then y else s.left[p])
      && t.right[p] == (if s.left[p] == x then s.right[p] else y))
    && (forall i {:trigger Placed(s, t, i)} {:trigger Same(s, t, i)} :: s.Has(i) && i != x && i != y && i != b ==> Placed(s, t, i) && (i != p ==> Same(s, t, i)))
  }

  lemma RotateRotates(s: Shape, d: Side, x: int, y: int, b: int, p: int)
    requires Family(s, d, x, y, b, p)
    ensures Rotated(s, Rotate(s, d, x), d, x, y, b, p)
  {
  }

  lemma RotatedNear(s: Shape, t: Shape, d: Side, x: int, y: int, b: int, p: int)
    requires Family(s, d, x, y, b, p) && Rotated(s, t, d, x, y, b, p)
    ensures t.At(x) && t.At(y)
    ensures b != NIL ==> t.At(b)
  {
    var u, v := s.Kid(d, x), s.Kid(d.Other(), y);
    assert u != NIL ==> s.At(u) && Placed(s, t, u);
    assert v != NIL ==> s.At(v) && Placed(s, t, v);
    if b != NIL {
      assert s.left[b] != NIL ==> Placed(s, t, s.left[b]);
      assert s.right[b] != NIL ==> Placed(s, t, s.right[b]);
    }
  }

  lemma RotatedFar(s: Shape, t: Shape, d: Side, x: int, y: int, b: int, p: int, i: int)
    requires Family(s, d, x, y, b, p) && Rotated(s, t, d, x, y, b, p)
    requires s.Has(i) && i != x && i != y && i != b
    ensures t.At(i)
  {
    RotatedFarKids(s, t, d, x, y, b, p, i);
    RotatedFarParent(s, t, d, x, y, b, p, i);
  }

  lemma RotatedFarKids(s: Shape, t: Shape, d: Side, x: int, y: int, b: int, p: int, i: int)
    requires Family(s, d, x, y, b, p) && Rotated(s, t, d, x, y, b, p)
    requires s.Has(i) && i != x && i != y && i != b
    ensures 0 <= t.lo[i] <= i < t.hi[i] <= |t.left|
    ensures if t.left[i] == NIL then t.lo[i] == i else t.Child(i, t.left[i], t.lo[i], i)
    ensures if t.right[i] == NIL then t.hi[i] == i + 1 else t.Child(i, t.right[i], i + 1, t.hi[i])
  {
    assert s.At(i) && Placed(s, t, i);
    var u, v := s.left[i], s.right[i];
    assert u != NIL && u != x ==> Placed(s, t, u);
    assert v != NIL && v != x ==> Placed(s, t, v);
  }

  lemma RotatedFarParent(s: Shape, t: Shape, d: Side, x: int, y: int, b: int, p: int, i: int)
    requires Family(s, d, x, y, b, p) && Rotated(s, t, d, x, y, b, p)
    requires s.Has(i) && i != x && i != y && i != b
    ensures if t.parent[i] == NIL then i == t.root else t.Has(t.parent[i]) && (t.left[t.parent[i]] == i || t.right[t.parent[i]] == i)
  {
    assert s.At(i) && Placed(s, t, i);
    var q := s.parent[i];
    assert q != NIL && q != x && q != y && q != b && q != p ==> Same(s, t, q);
  }

  /** A rotation makes a search tree of the same places. */
  lemma RotateLinked(s: Shape, d: Side, x: int)
    requires s.Linked() && s.Has(x) && s.Kid(d.Other(), x) != NIL
    ensures Rotate(s, d, x).Linked()
  {
    var y, b, p := RotateFamily(s, d, x);
    var t := Rotate(s, d, x);
    RotateRotates(s, d, x, y, b, p);
    forall i | s.Has(i)
      ensures t.At(i)
    {
      if i == x || i == y || i == b {
        RotatedNear(s, t, d, x, y, b, p);
      } else {
        RotatedFar(s, t, d, x, y, b, p, i);
      }
    }
    assert p != NIL ==> Placed(s, t, s.root);
  }

  // Colours

  /** Same links, other colours and counts. */
  predicate Tinted(s: Shape, t: Shape) {
    && s.Sized() && t.Sized() && |t.left| == |s.left| && t.root == s.root
    && t.left == s.left && t.right == s.right && t.parent == s.parent && t.lo == s.lo && t.hi == s.hi
  }

  lemma TintLinked(s: Shape, t: Shape)
    requires Tinted(s, t) && s.Linked()
    ensures t.Linked()
  {
    forall i | t.Has(i)
      ensures t.At(i)
    {
      assert s.At(i);
    }
  }

  function Tint(s: Shape, i: int, c: Color, k: nat): (t: Shape)
    requires s.Sized() && s.Has(i)
    ensures Tinted(s, t)
  {
    s.(color := s.color[i := c], bh := s.bh[i := k])
  }

  const NO_SIDE: (int, Side) := (NIL, Left)

  /** Rotations do not look at colours. */
  lemma RotateTint(s: Shape, t: Shape, d: Side, x: int)
    requires s.Linked() && t.Linked() && Tinted(s, t) && s.Has(x) && s.Kid(d.Other(), x) != NIL
    ensures Rotate(t, d, x) == Rotate(s, d, x).(color := t.color, bh := t.bh)
  {
  }

  /** Colours and counts set, then a rotation: what the program does in every turn. */
  lemma TurnFacts(s: Shape, r: Shape, d: Side, x: int) returns (y: int, b: int, p: int)
    requires s.Linked() && Tinted(s, r) && s.Has(x) && s.Kid(d.Other(), x) != NIL
    ensures Family(s, d, x, y, b, p) && r.Linked()
    ensures var t := Rotate(r, d, x); t.Linked() && Rotated(s, t, d, x, y, b, p) && t.color == r.color && t.bh == r.bh
  {
    TintLinked(s, r);
    RotateTint(s, r, d, x);
    RotateLinked(r, d, x);
    y, b, p := RotateFamily(s, d, x);
    RotateRotates(s, d, x, y, b, p);
    RotatedTint(s, Rotate(s, d, x), Rotate(r, d, x), d, x, y, b, p);
  }

  // Insertion

  /** The state of a rebalancing insertion at `x`: nothing is wrong but that `x` may be a red child of a red
      node, or a red root. */
  ghost predicate Adding(s: Shape, x: int) {
    && s.Linked() && s.Balanced(NO_SIDE) && s.Has(x) && s.color[x] == Red && s.CalmBut(x)
    && (s.color[s.root] == Black || s.root == x)
  }

  /** `x` has a red parent. */
  predicate Clash(s: Shape, x: int)
    requires s.Sized() && s.Has(x)
  {
    s.Has(s.parent[x]) && s.color[s.parent[x]] == Red
  }

  /** When `x` is the root or its parent is black, painting the root black ends it. */
  lemma AddEnds(s: Shape, x: int)
    requires Adding(s, x) && !Clash(s, x)
    ensures Tint(s, s.root, Black, if s.color[s.root] == Black then s.bh[s.root] else s.bh[s.root] + 1).RedBlack()
  {
    assert s.At(x);
    var t := Tint(s, s.root, Black, if s.color[s.root] == Black then s.bh[s.root] else s.bh[s.root] + 1);
    TintLinked(s, t);
    forall i | t.Has(i)
      ensures t.Level(i, NO_SIDE) && t.Calm(i)
    {
      assert s.At(i) && s.Level(i, NO_SIDE);
      assert i != x ==> s.Calm(i);
    }
  }

  /** `x` is the child of a red node `p`, which is on side `d` of a black node `g`. */
  ghost predicate Clashing(s: Shape, x: int, p: int, g: int, d: Side) {
    && Adding(s, x) && s.Has(p) && s.Has(g) && s.At(x) && s.At(p) && s.At(g)
    && p == s.parent[x] && g == s.parent[p] && s.color[p] == Red && s.color[g] == Black
    && s.Kid(d, g) == p && s.Kid(d.Other(), g) != p && (s.left[p] == x || s.right[p] == x)
    && x != p && p != g && x != g
  }

  lemma Grandparent(s: Shape, x: int) returns (p: int, g: int, d: Side)
    requires Adding(s, x) && Clash(s, x)
    ensures Clashing(s, x, p, g, d)
  {
    assert s.At(x);
    p := s.parent[x];
    assert s.At(p) && s.Calm(p);
    g := s.parent[p];
    assert s.At(g);
    d := if s.left[g] == p then Left else Right;
  }

  /** A red uncle: it and the parent turn black, the grandparent red, and the trouble moves up to it. */
  function Recolored(s: Shape, p: int, u: int, g: int): Shape
    requires s.Sized() && s.Has(p) && s.Has(u) && s.Has(g)
  {
    s.(color := s.color[p := Black][u := Black][g := Red], bh := s.bh[p := s.bh[p] + 1][u := s.bh[u] + 1])
  }

  lemma AddRecolors(s: Shape, x: int, p: int, g: int, d: Side)
    requires Clashing(s, x, p, g, d)
    requires s.Has(s.Kid(d.Other(), g)) && s.color[s.Kid(d.Other(), g)] == Red
    ensures Adding(Recolored(s, p, s.Kid(d.Other(), g), g), g)
  {
    var u := s.Kid(d.Other(), g);
    assert s.At(u);
    var t := Recolored(s, p, u, g);
    TintLinked(s, t);
    forall i | t.Has(i)
      ensures t.Level(i, NO_SIDE)
    {
      RecoloredLevel(s, x, p, u, g, d, i);
    }
    forall i | t.Has(i) && i != g
      ensures t.Calm(i)
    {
      RecoloredCalm(s, x, p, u, g, d, i);
    }
  }

  lemma RecoloredLevel(s: Shape, x: int, p: int, u: int, g: int, d: Side, i: int)
    requires Clashing(s, x, p, g, d) && u == s.Kid(d.Other(), g) && s.Has(u) && s.At(u) && s.color[u] == Red && s.Has(i)
    ensures Recolored(s, p, u, g).Level(i, NO_SIDE)
  {
    assert s.At(i) && s.Level(i, NO_SIDE);
    if i == g {
      assert s.Level(p, NO_SIDE) && s.Level(u, NO_SIDE);
    } else {
      assert s.left[i] != p && s.right[i] != p && s.left[i] != u && s.right[i] != u;
    }
  }

  lemma RecoloredCalm(s: Shape, x: int, p: int, u: int, g: int, d: Side, i: int)
    requires Clashing(s, x, p, g, d) && u == s.Kid(d.Other(), g) && s.Has(u) && s.At(u) && s.color[u] == Red
    requires s.Has(i) && i != g
    ensures Recolored(s, p, u, g).Calm(i)
  {
    assert s.At(i);
    if i != x {
      assert s.Calm(i);
    }
  }

  // Rotations and black counts

  /** Off the two rotated nodes a node keeps its children, but for `y` in the place of `x`. */
  lemma RotatedKids(s: Shape, t: Shape, d: Side, x: int, y: int, b: int, p: int, i: int)
    requires Family(s, d, x, y, b, p) && Rotated(s, t, d, x, y, b, p) && s.Has(i) && i != x && i != y
    ensures s.left[i] != y && s.right[i] != y && t.Sized() && t.Has(i)
    ensures t.left[i] == (if s.left[i] == x then y else s.left[i]) && t.right[i] == (if s.right[i] == x then y else s.right[i])
  {
    assert s.At(i);
    if i != b {
      assert Placed(s, t, i);
    }
  }

  /** Off the two rotated nodes the counts stay right, as long as the subtree keeps its count as a whole. */
  lemma RotatedLevel(s: Shape, t: Shape, d: Side, x: int, y: int, b: int, p: int, short: (int, Side), i: int)
    requires Family(s, d, x, y, b, p) && Rotated(s, t, d, x, y, b, p)
    requires t.bh[y] == s.bh[x] && forall j :: s.Has(j) && j != x && j != y ==> t.bh[j] == s.bh[j]
    requires s.Has(i) && i != x && i != y && s.Level(i, short) && t.color[i] == s.color[i]
    ensures t.Level(i, short)
  {
    RotatedKids(s, t, d, x, y, b, p, i);
  }

  /** So only the two rotated nodes have to be looked at. */
  lemma RotatedBalanced(s: Shape, t: Shape, d: Side, x: int, y: int, b: int, p: int, short: (int, Side), short': (int, Side))
    requires Family(s, d, x, y, b, p) && Rotated(s, t, d, x, y, b, p) && s.Balanced(short)
    requires t.bh[y] == s.bh[x] && forall j :: s.Has(j) && j != x && j != y ==> t.bh[j] == s.bh[j] && t.color[j] == s.color[j]
    requires t.Level(x, short') && t.Level(y, short') && short.0 in {x, y, NIL} && short'.0 in {x, y, NIL}
    ensures t.Balanced(short')
  {
    forall i | t.Has(i)
      ensures t.Level(i, short')
    {
      if i != x && i != y {
        assert s.Level(i, short);
        RotatedLevel(s, t, d, x, y, b, p, short, i);
      }
    }
  }

  lemma RotatedTint(s: Shape, r: Shape, t: Shape, d: Side, x: int, y: int, b: int, p: int)
    requires Family(s, d, x, y, b, p) && Rotated(s, r, d, x, y, b, p) && Tinted(r, t)
    ensures Rotated(s, t, d, x, y, b, p)
  {
    forall i | s.Has(i) && i != x && i != y && i != b
      ensures Placed(s, t, i) && (i != p ==> Same(s, t, i))
    {
      assert Placed(s, r, i) && (i != p ==> Same(s, r, i));
    }
  }

  /** Off the rotated nodes and the child that moves, a node keeps its parent. */
  lemma RotatedCalm(s: Shape, t: Shape, d: Side, x: int, y: int, b: int, p: int, i: int)
    requires Family(s, d, x, y, b, p) && Rotated(s, t, d, x, y, b, p)
    requires s.Has(i) && i != x && i != y && i != b && s.Calm(i) && t.color[i] == s.color[i]
    requires s.Has(s.parent[i]) ==> t.color[s.parent[i]] == s.color[s.parent[i]] || t.color[s.parent[i]] == Black
    ensures t.Calm(i)
  {
    assert Placed(s, t, i);
  }

  /** How much room is left above `x` for the trouble to move to. */
  function Room(s: Shape, x: int): nat
    requires s.Sized() && s.Has(x)
  {
    if Clash(s, x) && 0 <= s.hi[x] - s.lo[x] <= |s.left| then |s.left| + 1 - (s.hi[x] - s.lo[x]) else 0
  }

  lemma RoomAbove(s: Shape, x: int, p: int, g: int, d: Side, t: Shape)
    requires Clashing(s, x, p, g, d) && Tinted(s, t)
    ensures Room(t, g) < Room(s, x)
  {
  }

  /** Turning `x` and its red parent: the trouble stays, and `p` is now the lower of the two. */
  lemma AddTurns(s: Shape, t: Shape, x: int, p: int, g: int, d: Side, b: int)
    requires Clashing(s, x, p, g, d) && s.Kid(d.Other(), p) == x
    requires Family(s, d, p, x, b, g) && Rotated(s, t, d, p, x, b, g) && t.Linked() && t.color == s.color && t.bh == s.bh
    ensures Clashing(t, p, x, g, d) && t.Kid(d, x) == p && t.Kid(d.Other(), g) == s.Kid(d.Other(), g)
  {
    assert s.Level(p, NO_SIDE) && s.Level(x, NO_SIDE);
    RotatedBalanced(s, t, d, p, x, b, g, NO_SIDE, NO_SIDE);
    forall i | t.Has(i) && i != p
      ensures t.Calm(i)
    {
      if i != x && i != b {
        RotatedCalm(s, t, d, p, x, b, g, i);
      } else if i == b {
        assert s.Calm(b);
      }
    }
    assert t.At(p) && t.At(x) && t.At(g);
  }

  /** Turning the parent over the grandparent, with their colours exchanged, ends the trouble. */
  lemma AddTurned(s: Shape, t: Shape, x: int, p: int, g: int, d: Side, b: int, q: int)
    requires Clashing(s, x, p, g, d) && s.Kid(d, p) == x
    requires var u := s.Kid(d.Other(), g); u == NIL || s.color[u] == Black
    requires Family(s, d.Other(), g, p, b, q) && Rotated(s, t, d.Other(), g, p, b, q) && t.Linked() && s.bh[g] > 0
    requires t.color == s.color[p := Black][g := Red] && t.bh == s.bh[p := s.bh[g]][g := s.bh[g] - 1]
    ensures Adding(t, x) && !Clash(t, x)
  {
    TurnedLevels(s, t, x, p, g, d, b, q);
    RotatedBalanced(s, t, d.Other(), g, p, b, q, NO_SIDE, NO_SIDE);
    forall i | t.Has(i)
      ensures t.Calm(i)
    {
      TurnedCalm(s, t, x, p, g, d, b, q, i);
    }
    assert t.color[x] == Red && Placed(s, t, x);
  }

  lemma TurnedLevels(s: Shape, t: Shape, x: int, p: int, g: int, d: Side, b: int, q: int)
    requires Clashing(s, x, p, g, d) && s.Kid(d, p) == x && Family(s, d.Other(), g, p, b, q)
    requires Rotated(s, t, d.Other(), g, p, b, q) && s.bh[g] > 0
    requires t.color == s.color[p := Black][g := Red] && t.bh == s.bh[p := s.bh[g]][g := s.bh[g] - 1]
    ensures t.Level(g, NO_SIDE) && t.Level(p, NO_SIDE)
  {
    assert s.Level(g, NO_SIDE) && s.Level(p, NO_SIDE) && s.Level(x, NO_SIDE);
  }

  lemma TurnedCalm(s: Shape, t: Shape, x: int, p: int, g: int, d: Side, b: int, q: int, i: int)
    requires Clashing(s, x, p, g, d) && s.Kid(d, p) == x && Family(s, d.Other(), g, p, b, q)
    requires Rotated(s, t, d.Other(), g, p, b, q) && s.Has(i)
    requires var u := s.Kid(d.Other(), g); u == NIL || s.color[u] == Black
    requires t.color == s.color[p := Black][g := Red]
    ensures t.Calm(i)
  {
    if i == b {
      assert s.Calm(b);
    } else if i == x {
      assert Placed(s, t, x);
    } else if i != g && i != p {
      TurnedCalmOther(s, t, x, p, g, d, b, q, i);
    }
  }

  lemma TurnedCalmOther(s: Shape, t: Shape, x: int, p: int, g: int, d: Side, b: int, q: int, i: int)
    requires Clashing(s, x, p, g, d) && Family(s, d.Other(), g, p, b, q)
    requires Rotated(s, t, d.Other(), g, p, b, q) && s.Has(i) && i != b && i != x && i != g && i != p
    requires var u := s.Kid(d.Other(), g); u == NIL || s.color[u] == Black
    requires t.color == s.color[p := Black][g := Red]
    ensures t.Calm(i)
  {
    assert s.Calm(i) && s.At(i) && Placed(s, t, i);
    if s.parent[i] == g {
      assert i == s.Kid(d.Other(), g);
    }
  }

  // Removal

  /** The state of a rebalancing removal: the paths through `x`, which is the child of `xp` on side `d` or the
      root, have one black node too few, and `x`, if it is red, may have a red parent or red children. */
  ghost predicate Lacking(s: Shape, x: int, xp: int, d: Side) {
    && s.Linked() && s.CalmAround(x)
    && (if xp == NIL then x == s.root && s.Balanced(NO_SIDE)
        else s.Has(xp) && s.Kid(d, xp) == x && s.Balanced((xp, d)) && s.color[s.root] == Black)
  }

  /** `x` with one more black. */
  function Blackened(s: Shape, x: int): (t: Shape)
    requires s.Sized() && (x != NIL ==> s.Has(x))
    ensures Tinted(s, t)
  {
    if x == NIL || s.color[x] == Black then s else Tint(s, x, Black, s.bh[x] + 1)
  }

  /** When `x` is the root or red, painting it black ends it. */
  lemma LackEnds(s: Shape, x: int, xp: int, d: Side)
    requires Lacking(s, x, xp, d) && (x == s.root || (s.Has(x) && s.color[x] == Red))
    ensures (x != NIL ==> s.Has(x)) && Blackened(s, x).RedBlack()
  {
    if x == s.root && xp != NIL {
      assert s.At(xp);
    }
    var t := Blackened(s, x);
    TintLinked(s, t);
    forall i | t.Has(i)
      ensures t.Level(i, NO_SIDE)
    {
      BlackenedLevel(s, x, xp, d, i);
    }
    forall i | t.Has(i)
      ensures t.Calm(i)
    {
      assert s.At(i);
      assert i != x && s.parent[i] != x ==> s.Calm(i);
    }
  }

  lemma BlackenedLevel(s: Shape, x: int, xp: int, d: Side, i: int)
    requires Lacking(s, x, xp, d) && (x == s.root || (s.Has(x) && s.color[x] == Red)) && (x == s.root ==> xp == NIL)
    requires (x != NIL ==> s.Has(x)) && s.Has(i)
    ensures Blackened(s, x).Level(i, NO_SIDE)
  {
    assert s.At(i) && s.Level(i, if xp == NIL then NO_SIDE else (xp, d));
    assert xp != NIL ==> s.At(xp);
  }

  /** The state of the loop: `x` is black or absent, and `w` is its sibling. */
  ghost predicate Sibling(s: Shape, x: int, xp: int, d: Side, w: int) {
    && Lacking(s, x, xp, d) && s.CalmBut(x) && s.Has(xp) && s.At(xp) && w == s.Kid(d.Other(), xp)
    && (x != NIL ==> s.Has(x) && s.color[x] == Black && s.At(x))
    && s.Has(w) && s.At(w) && w != xp && w != x && x != xp && s.parent[w] == xp && s.Level(w, NO_SIDE)
    && s.Bh(w) == s.Bh(x) + 1 && s.bh[xp] == s.bh[w] + (if s.color[xp] == Black then 1 else 0)
    && (s.color[w] == Red ==> s.color[xp] == Black)
  }

  lemma HasSibling(s: Shape, x: int, xp: int, d: Side)
    requires Lacking(s, x, xp, d) && x != s.root && (x == NIL || (s.Has(x) && s.color[x] == Black))
    ensures s.Has(xp) && Sibling(s, x, xp, d, s.Kid(d.Other(), xp))
  {
    assert s.At(xp) && s.Level(xp, (xp, d));
    forall i | s.Has(i) && i != x
      ensures s.Calm(i)
    {
      assert s.At(i);
    }
    var w := s.Kid(d.Other(), xp);
    assert s.At(w) && s.Level(w, (xp, d)) && s.Calm(w);
    if x != NIL {
      assert s.At(x);
    }
  }

  /** A red sibling is turned over `xp`, and the new sibling is black. */
  lemma LackSiblingTurned(s: Shape, t: Shape, x: int, xp: int, d: Side, w: int, b: int, p: int)
    requires Sibling(s, x, xp, d, w) && s.color[w] == Red && s.bh[xp] > 0
    requires Family(s, d, xp, w, b, p) && Rotated(s, t, d, xp, w, b, p) && t.Linked()
    requires t.color == s.color[w := Black][xp := Red] && t.bh == s.bh[w := s.bh[xp]][xp := s.bh[xp] - 1]
    ensures Sibling(t, x, xp, d, b) && t.color[b] == Black && x != t.root
  {
    SiblingTurnedLevels(s, t, x, xp, d, w, b, p);
    RotatedBalanced(s, t, d, xp, w, b, p, (xp, d), (xp, d));
    forall i | t.Has(i) && i != x
      ensures t.Calm(i)
    {
      SiblingTurnedCalm(s, t, x, xp, d, w, b, p, i);
    }
    assert Lacking(t, x, xp, d);
    HasSibling(t, x, xp, d);
  }

  lemma SiblingTurnedLevels(s: Shape, t: Shape, x: int, xp: int, d: Side, w: int, b: int, p: int)
    requires Sibling(s, x, xp, d, w) && s.color[w] == Red && Family(s, d, xp, w, b, p) && Rotated(s, t, d, xp, w, b, p)
    requires t.color == s.color[w := Black][xp := Red] && t.bh == s.bh[w := s.bh[xp]][xp := s.bh[xp] - 1]
    ensures t.Level(xp, (xp, d)) && t.Level(w, (xp, d)) && s.Has(b) && s.color[b] == Black && x != b
  {
    assert s.Level(xp, (xp, d));
    assert b != NIL && s.Calm(b);
  }

  lemma SiblingTurnedCalm(s: Shape, t: Shape, x: int, xp: int, d: Side, w: int, b: int, p: int, i: int)
    requires Sibling(s, x, xp, d, w) && s.color[w] == Red && Family(s, d, xp, w, b, p) && Rotated(s, t, d, xp, w, b, p)
    requires t.color == s.color[w := Black][xp := Red] && s.Has(b) && s.color[b] == Black && s.Has(i) && i != x
    ensures t.Calm(i)
  {
    if i != xp && i != w && i != b {
      assert s.Calm(i) && Placed(s, t, i) && s.At(i);
    }
  }

  /** How much room is left above `x` for the lack to move to. */
  function RoomUp(s: Shape, x: int, xp: int): nat
    requires s.Sized()
  {
    if s.Has(xp) && !(s.Has(x) && s.color[x] == Red) && 0 <= s.hi[xp] - s.lo[xp] <= |s.left|
    then |s.left| + 1 - (s.hi[xp] - s.lo[xp]) else 0
  }

  lemma RoomShrinks(s: Shape, t: Shape, x: int, xp: int, d: Side, w: int)
    requires Sibling(s, x, xp, d, w) && Tinted(s, t)
    ensures RoomUp(t, xp, s.parent[xp]) < RoomUp(s, x, xp)
  {
    if s.parent[xp] != NIL {
      assert s.At(s.parent[xp]);
    }
  }

  /** A black sibling with black children turns red, and `xp` is the one that lacks. */
  function SiblingReddened(s: Shape, xp: int, w: int): (t: Shape)
    requires s.Sized() && s.Has(xp) && s.Has(w) && s.bh[xp] > 0 && s.bh[w] > 0
    ensures Tinted(s, t)
  {
    s.(color := s.color[w := Red], bh := s.bh[w := s.bh[w] - 1][xp := s.bh[xp] - 1])
  }

  function SideOf(s: Shape, x: int): Side
    requires s.Sized() && s.Has(x)
  {
    if s.Has(s.parent[x]) && s.left[s.parent[x]] == x then Left else Right
  }

  lemma LackSiblingReddened(s: Shape, x: int, xp: int, d: Side, w: int)
    requires Sibling(s, x, xp, d, w) && s.color[w] == Black
    requires (s.left[w] == NIL || s.color[s.left[w]] == Black) && (s.right[w] == NIL || s.color[s.right[w]] == Black)
    ensures s.bh[xp] > 0 && s.bh[w] > 0
    ensures Lacking(SiblingReddened(s, xp, w), xp, s.parent[xp], SideOf(s, xp))
  {
    var t := SiblingReddened(s, xp, w);
    TintLinked(s, t);
    var p, e := s.parent[xp], SideOf(s, xp);
    ReddenedBalanced(s, x, xp, d, w, t, p, e, if p == NIL then NO_SIDE else (p, e));
    assert p != NIL ==> s.At(p);
    forall i | t.Has(i) && i != xp && t.parent[i] != xp
      ensures t.Calm(i)
    {
      assert s.Calm(i) && s.At(i);
    }
  }

  lemma ReddenedBalanced(s: Shape, x: int, xp: int, d: Side, w: int, t: Shape, p: int, e: Side, short: (int, Side))
    requires Sibling(s, x, xp, d, w) && s.color[w] == Black && s.bh[xp] > 0 && s.bh[w] > 0
    requires t == SiblingReddened(s, xp, w) && p == s.parent[xp] && e == SideOf(s, xp)
    requires short == if p == NIL then NO_SIDE else (p, e)
    ensures t.Balanced(short)
  {
    forall i | t.Has(i)
      ensures t.Level(i, short)
    {
      if i == xp || i == w {
        ReddenedNear(s, x, xp, d, w, t, short);
      } else {
        ReddenedOther(s, x, xp, d, w, t, p, e, short, i);
      }
    }
  }

  lemma ReddenedNear(s: Shape, x: int, xp: int, d: Side, w: int, t: Shape, short: (int, Side))
    requires Sibling(s, x, xp, d, w) && s.color[w] == Black && s.bh[xp] > 0 && s.bh[w] > 0
    requires t == SiblingReddened(s, xp, w) && short.0 != xp && short.0 != w
    ensures t.Level(xp, short) && t.Level(w, short)
  {
    assert s.Level(xp, (xp, d));
    assert s.left[w] != xp && s.right[w] != xp && s.left[w] != w && s.right[w] != w by {
      ChildBounds(s, w);
      ChildBounds(s, xp);
    }
  }

  lemma ReddenedOther(s: Shape, x: int, xp: int, d: Side, w: int, t: Shape, p: int, e: Side, short: (int, Side), i: int)
    requires Sibling(s, x, xp, d, w) && s.bh[xp] > 0 && s.bh[w] > 0 && s.Has(i) && i != xp && i != w
    requires t == SiblingReddened(s, xp, w) && p == s.parent[xp] && e == SideOf(s, xp)
    requires short == if p == NIL then NO_SIDE else (p, e)
    ensures t.Level(i, short)
  {
    assert s.At(i) && s.Level(i, (xp, d));
    assert s.left[i] != w && s.right[i] != w;
    if i == p {
      assert s.At(p) && s.left[p] != s.right[p];
    } else {
      assert s.left[i] != xp && s.right[i] != xp;
    }
  }

  /** The sibling's near child is red and its far child is not: the near child is turned over the sibling. */
  lemma LackNephewTurned(s: Shape, t: Shape, x: int, xp: int, d: Side, w: int, m: int, b: int)
    requires Sibling(s, x, xp, d, w) && s.color[w] == Black && m == s.Kid(d, w) && s.Has(m) && s.color[m] == Red
    requires var f := s.Kid(d.Other(), w); f == NIL || s.color[f] == Black
    requires Family(s, d.Other(), w, m, b, xp) && Rotated(s, t, d.Other(), w, m, b, xp) && t.Linked() && s.bh[w] > 0
    requires t.color == s.color[m := Black][w := Red] && t.bh == s.bh[m := s.bh[w]][w := s.bh[w] - 1]
    ensures Sibling(t, x, xp, d, m) && t.color[m] == Black && t.Kid(d.Other(), m) == w && t.color[w] == Red
  {
    NephewTurnedLevels(s, t, x, xp, d, w, m, b);
    NephewTurnedBalanced(s, t, x, xp, d, w, m, b);
    forall i | t.Has(i) && i != x
      ensures t.Calm(i)
    {
      NephewTurnedCalm(s, t, x, xp, d, w, m, b, i);
    }
    NephewTurnedLacks(s, t, x, xp, d, w, m, b);
  }

  lemma NephewTurnedLacks(s: Shape, t: Shape, x: int, xp: int, d: Side, w: int, m: int, b: int)
    requires Sibling(s, x, xp, d, w) && s.color[w] == Black && m == s.Kid(d, w) && s.Has(m)
    requires Family(s, d.Other(), w, m, b, xp) && Rotated(s, t, d.Other(), w, m, b, xp) && t.Linked()
    requires t.color == s.color[m := Black][w := Red] && t.Balanced((xp, d)) && t.CalmBut(x)
    ensures Sibling(t, x, xp, d, m) && t.color[m] == Black && t.Kid(d.Other(), m) == w && t.color[w] == Red
  {
    assert Lacking(t, x, xp, d);
    HasSibling(t, x, xp, d);
  }

  lemma NephewTurnedLevels(s: Shape, t: Shape, x: int, xp: int, d: Side, w: int, m: int, b: int)
    requires Sibling(s, x, xp, d, w) && s.color[w] == Black && m == s.Kid(d, w) && s.Has(m) && s.color[m] == Red
    requires Family(s, d.Other(), w, m, b, xp) && Rotated(s, t, d.Other(), w, m, b, xp) && s.bh[w] > 0
    requires t.color == s.color[m := Black][w := Red] && t.bh == s.bh[m := s.bh[w]][w := s.bh[w] - 1]
    ensures t.Level(w, (xp, d)) && t.Level(m, (xp, d))
  {
    assert s.Level(m, (xp, d));
  }

  lemma NephewTurnedBalanced(s: Shape, t: Shape, x: int, xp: int, d: Side, w: int, m: int, b: int)
    requires Sibling(s, x, xp, d, w) && m == s.Kid(d, w) && s.Has(m) && s.bh[w] > 0
    requires Family(s, d.Other(), w, m, b, xp) && Rotated(s, t, d.Other(), w, m, b, xp)
    requires t.color == s.color[m := Black][w := Red] && t.bh == s.bh[m := s.bh[w]][w := s.bh[w] - 1]
    requires t.Level(w, (xp, d)) && t.Level(m, (xp, d))
    ensures t.Balanced((xp, d))
  {
    forall i | t.Has(i)
      ensures t.Level(i, (xp, d))
    {
      if i != w && i != m {
        assert s.Level(i, (xp, d));
        RotatedLevel(s, t, d.Other(), w, m, b, xp, (xp, d), i);
      }
    }
  }

  lemma NephewTurnedCalm(s: Shape, t: Shape, x: int, xp: int, d: Side, w: int, m: int, b: int, i: int)
    requires Sibling(s, x, xp, d, w) && s.color[w] == Black && m == s.Kid(d, w) && s.Has(m) && s.color[m] == Red
    requires var f := s.Kid(d.Other(), w); f == NIL || s.color[f] == Black
    requires Family(s, d.Other(), w, m, b, xp) && Rotated(s, t, d.Other(), w, m, b, xp)
    requires t.color == s.color[m := Black][w := Red] && s.Has(i) && i != x
    ensures t.Calm(i)
  {
    if i == b {
      assert s.Calm(b);
    } else if i != w && i != m {
      assert s.Calm(i) && Placed(s, t, i) && s.At(i);
    }
  }

  /** The sibling's far child is red: the sibling is turned over `xp`, and that ends it. */
  lemma LackFarTurned(s: Shape, t: Shape, x: int, xp: int, d: Side, w: int, f: int, b: int, p: int)
    requires Sibling(s, x, xp, d, w) && s.color[w] == Black && f == s.Kid(d.Other(), w) && s.Has(f) && s.color[f] == Red
    requires Family(s, d, xp, w, b, p) && Rotated(s, t, d, xp, w, b, p) && t.Linked()
    requires t.color == s.color[w := s.color[xp]][xp := Black][f := Black]
    requires t.bh == s.bh[w := s.bh[xp]][xp := s.Bh(x) + 1][f := s.bh[f] + 1]
    ensures t.RedBlack() && (x != NIL ==> t.color[x] == Black)
  {
    forall i | t.Has(i)
      ensures t.Level(i, NO_SIDE)
    {
      FarTurnedLevel(s, t, x, xp, d, w, f, b, p, i);
    }
    forall i | t.Has(i)
      ensures t.Calm(i)
    {
      FarTurnedCalm(s, t, x, xp, d, w, f, b, p, i);
    }
    assert s.At(f) && t.color[t.root] == Black;
  }

  lemma FarTurnedLevel(s: Shape, t: Shape, x: int, xp: int, d: Side, w: int, f: int, b: int, p: int, i: int)
    requires Sibling(s, x, xp, d, w) && s.color[w] == Black && f == s.Kid(d.Other(), w) && s.Has(f) && s.color[f] == Red
    requires Family(s, d, xp, w, b, p) && Rotated(s, t, d, xp, w, b, p) && s.Has(i)
    requires t.color == s.color[w := s.color[xp]][xp := Black][f := Black]
    requires t.bh == s.bh[w := s.bh[xp]][xp := s.Bh(x) + 1][f := s.bh[f] + 1]
    ensures t.Level(i, NO_SIDE)
  {
    assert s.At(f) && s.parent[f] == w && f != x && f != b && f != xp && f != w;
    if i == xp || i == w || i == f {
      FarTurnedNear(s, t, x, xp, d, w, f, b, p);
    } else {
      assert s.Level(i, (xp, d)) && s.At(i);
      FarTurnedOther(s, t, d, xp, w, f, b, p, i);
    }
  }

  lemma FarTurnedNear(s: Shape, t: Shape, x: int, xp: int, d: Side, w: int, f: int, b: int, p: int)
    requires Sibling(s, x, xp, d, w) && s.color[w] == Black && f == s.Kid(d.Other(), w) && s.Has(f) && s.color[f] == Red
    requires Family(s, d, xp, w, b, p) && Rotated(s, t, d, xp, w, b, p)
    requires s.At(f) && s.parent[f] == w && f != x && f != b && f != xp && f != w
    requires t.color == s.color[w := s.color[xp]][xp := Black][f := Black]
    requires t.bh == s.bh[w := s.bh[xp]][xp := s.Bh(x) + 1][f := s.bh[f] + 1]
    ensures t.Level(xp, NO_SIDE) && t.Level(w, NO_SIDE) && t.Level(f, NO_SIDE)
  {
    assert s.Level(f, (xp, d)) && Same(s, t, f);
    assert x == s.Kid(d, xp);
    assert b != NIL ==> b != x && b != xp && b != w;
  }

  lemma FarTurnedOther(s: Shape, t: Shape, d: Side, xp: int, w: int, f: int, b: int, p: int, i: int)
    requires Family(s, d, xp, w, b, p) && Rotated(s, t, d, xp, w, b, p)
    requires s.Has(f) && s.parent[f] == w && f != xp && f != w
    requires s.Has(i) && s.At(i) && i != xp && i != w && i != f && s.Level(i, (xp, d))
    requires t.color[i] == s.color[i] && t.bh[w] == s.bh[xp]
    requires forall j :: s.Has(j) && j != xp && j != w && j != f ==> t.bh[j] == s.bh[j]
    ensures t.Level(i, NO_SIDE)
  {
    RotatedKids(s, t, d, xp, w, b, p, i);
    OtherLevel(s, t, d, xp, w, f, i);
  }

  lemma OtherLevel(s: Shape, t: Shape, d: Side, xp: int, w: int, f: int, i: int)
    requires s.Sized() && t.Sized() && |t.left| == |s.left| && s.Has(xp) && s.Has(w)
    requires s.Has(f) && s.parent[f] == w && s.Has(i) && s.At(i) && i != xp && i != w && s.Level(i, (xp, d))
    requires t.left[i] == (if s.left[i] == xp then w else s.left[i]) && t.right[i] == (if s.right[i] == xp then w else s.right[i])
    requires s.left[i] != w && s.right[i] != w && t.color[i] == s.color[i] && t.bh[w] == s.bh[xp] && t.bh[i] == s.bh[i]
    requires forall j :: s.Has(j) && j != xp && j != w && j != f ==> t.bh[j] == s.bh[j]
    ensures t.Level(i, NO_SIDE)
  {
    assert s.left[i] != f && s.right[i] != f;
  }

  lemma FarTurnedCalm(s: Shape, t: Shape, x: int, xp: int, d: Side, w: int, f: int, b: int, p: int, i: int)
    requires Sibling(s, x, xp, d, w) && s.color[w] == Black && f == s.Kid(d.Other(), w) && s.Has(f) && s.color[f] == Red
    requires Family(s, d, xp, w, b, p) && Rotated(s, t, d, xp, w, b, p) && s.Has(i)
    requires t.color == s.color[w := s.color[xp]][xp := Black][f := Black]
    ensures t.Calm(i)
  {
    assert s.At(f);
    if i == w {
      assert s.Calm(xp);
      assert xp == s.root ==> s.color[xp] == Black;
    } else if i != xp && i != b && i != x {
      FarTurnedCalmOther(s, t, x, xp, d, w, f, b, p, i);
    }
  }

  lemma FarTurnedCalmOther(s: Shape, t: Shape, x: int, xp: int, d: Side, w: int, f: int, b: int, p: int, i: int)
    requires Family(s, d, xp, w, b, p) && Rotated(s, t, d, xp, w, b, p)
    requires s.CalmBut(x) && f == s.Kid(d.Other(), w) && s.Has(f)
    requires s.Has(i) && i != w && i != xp && i != b && i != x
    requires t.color == s.color[w := s.color[xp]][xp := Black][f := Black]
    ensures t.Calm(i)
  {
    assert s.Calm(i) && Placed(s, t, i) && s.At(i);
  }

  // New and lost places

  /** Where a new child of `p` on side `d` stands in the order, and what place `j` becomes. */
  function NewPlace(p: int, d: Side): int {
    if d == Left then p else p + 1
  }

  function Up(j: int, k: int): int {
    if j < k then j else j + 1
  }

  function Down(j: int, k: int): int {
    if j > k then j - 1 else j
  }

  /** `s` with a red leaf added under `p` on side `d`. */
  function Grown(s: Shape, p: int, d: Side): (t: Shape)
    requires s.Sized() && s.Has(p)
    ensures t.Sized() && |t.left| == |s.left| + 1
  {
    var n, k := |s.left| + 1, NewPlace(p, d);
    Shape(
      Up(s.root, k),
      seq(n, i requires 0 <= i < n && s.Sized() && s.Has(p) =>
        if i == k then NIL else if d == Left && Down(i, k) == p then k else Up(s.left[Down(i, k)], k)),
      seq(n, i requires 0 <= i < n && s.Sized() && s.Has(p) =>
        if i == k then NIL else if d == Right && Down(i, k) == p then k else Up(s.right[Down(i, k)], k)),
      seq(n, i requires 0 <= i < n && s.Sized() && s.Has(p) => if i == k then Up(p, k) else Up(s.parent[Down(i, k)], k)),
      seq(n, i requires 0 <= i < n && s.Sized() && s.Has(p) => if i == k then Red else s.color[Down(i, k)]),
      seq(n, i requires 0 <= i < n && s.Sized() && s.Has(p) => if i == k then k else Up(s.lo[Down(i, k)], p + 1)),
      seq(n, i requires 0 <= i < n && s.Sized() && s.Has(p) => if i == k then k + 1 else Up(s.hi[Down(i, k)], p + 1)),
      seq(n, i requires 0 <= i < n && s.Sized() && s.Has(p) => if i == k then 0 else s.bh[Down(i, k)]))
  }

  /** What becomes of node `j`. */
  predicate Lifted(s: Shape, t: Shape, p: int, d: Side, j: int)
    requires s.Sized() && s.Has(p) && s.Has(j) && t.Sized() && |t.left| == |s.left| + 1
  {
    var k := NewPlace(p, d);
    var i := Up(j, k);
    && t.left[i] == (if d == Left && j == p then k else Up(s.left[j], k))
    && t.right[i] == (if d == Right && j == p then k else Up(s.right[j], k))
    && t.parent[i] == Up(s.parent[j], k) && t.color[i] == s.color[j] && t.bh[i] == s.bh[j]
    && t.lo[i] == Up(s.lo[j], p + 1) && t.hi[i] == Up(s.hi[j], p + 1)
  }

  /** `t` is `s` with a red leaf added under `p` on side `d`, at place `k`. */
  ghost predicate Grows(s: Shape, t: Shape, p: int, d: Side, k: int) {
    && s.Linked() && s.Has(p) && s.Kid(d, p) == NIL && k == NewPlace(p, d)
    && t.Sized() && |t.left| == |s.left| + 1 && t.root == Up(s.root, k)
    && t.left[k] == NIL && t.right[k] == NIL && t.parent[k] == Up(p, k) && t.color[k] == Red && t.bh[k] == 0
    && t.lo[k] == k && t.hi[k] == k + 1
    && (forall j {:trigger Lifted(s, t, p, d, j)} :: s.Has(j) ==> Lifted(s, t, p, d, j))
  }

  lemma GrownGrows(s: Shape, p: int, d: Side)
    requires s.Linked() && s.Has(p) && s.Kid(d, p) == NIL
    ensures Grows(s, Grown(s, p, d), p, d, NewPlace(p, d))
  {
    var t, k := Grown(s, p, d), NewPlace(p, d);
    forall j | s.Has(j)
      ensures Lifted(s, t, p, d, j)
    {
      assert Down(Up(j, k), k) == j;
    }
  }

  lemma GrowsNew(s: Shape, t: Shape, p: int, d: Side, k: int)
    requires Grows(s, t, p, d, k)
    ensures t.At(k)
  {
    assert s.At(p) && Lifted(s, t, p, d, p);
  }

  lemma GrowsKids(s: Shape, t: Shape, p: int, d: Side, k: int, j: int)
    requires Grows(s, t, p, d, k) && s.Has(j)
    ensures var i := Up(j, k);
      && 0 <= t.lo[i] <= i < t.hi[i] <= |t.left|
      && (if t.left[i] == NIL then t.lo[i] == i else t.Child(i, t.left[i], t.lo[i], i))
      && (if t.right[i] == NIL then t.hi[i] == i + 1 else t.Child(i, t.right[i], i + 1, t.hi[i]))
  {
    assert s.At(p) && s.At(j) && Lifted(s, t, p, d, j);
    var u, v := s.left[j], s.right[j];
    if u != NIL {
      assert s.At(u) && Lifted(s, t, p, d, u);
    }
    if v != NIL {
      assert s.At(v) && Lifted(s, t, p, d, v);
    }
  }

  lemma GrowsParent(s: Shape, t: Shape, p: int, d: Side, k: int, j: int)
    requires Grows(s, t, p, d, k) && s.Has(j)
    ensures var i := Up(j, k);
      if t.parent[i] == NIL then i == t.root
      else t.Has(t.parent[i]) && (t.left[t.parent[i]] == i || t.right[t.parent[i]] == i)
  {
    assert s.At(p) && s.At(j) && Lifted(s, t, p, d, j);
    var q := s.parent[j];
    if q != NIL {
      assert s.At(q) && Lifted(s, t, p, d, q);
    }
  }

  lemma GrowsLinked(s: Shape, t: Shape, p: int, d: Side, k: int)
    requires Grows(s, t, p, d, k)
    ensures t.Linked()
  {
    forall i | t.Has(i)
      ensures t.At(i)
    {
      if i == k {
        GrowsNew(s, t, p, d, k);
      } else {
        GrowsKids(s, t, p, d, k, Down(i, k));
        GrowsParent(s, t, p, d, k, Down(i, k));
      }
    }
    assert s.At(s.root) && Lifted(s, t, p, d, s.root);
  }

  lemma GrowsLevel(s: Shape, t: Shape, p: int, d: Side, k: int, j: int)
    requires Grows(s, t, p, d, k) && s.Has(j) && s.Level(j, NO_SIDE) && s.Calm(j)
    ensures t.Level(Up(j, k), NO_SIDE) && t.Calm(Up(j, k))
  {
    assert s.At(j) && Lifted(s, t, p, d, j);
    var u, v, q := s.left[j], s.right[j], s.parent[j];
    assert u != NIL ==> Lifted(s, t, p, d, u);
    assert v != NIL ==> Lifted(s, t, p, d, v);
    assert q != NIL ==> Lifted(s, t, p, d, q);
  }

  lemma TintBack(t: Shape, k: int, c: Color)
    requires t.Sized() && t.Has(k) && t.color[k] == Red && t.bh[k] == 0
    ensures Tint(Tint(t, k, c, 0), k, Red, 0) == t
  {
    assert t.color[k := c][k := Red] == t.color && t.bh[k := 0][k := 0] == t.bh;
  }

  /** A new leaf in a red-black tree is the start of a rebalancing insertion. */
  lemma GrowsAdding(s: Shape, t: Shape, p: int, d: Side, k: int)
    requires Grows(s, t, p, d, k) && s.RedBlack()
    ensures Adding(t, k)
  {
    GrowsLinked(s, t, p, d, k);
    forall i | t.Has(i)
      ensures t.Level(i, NO_SIDE) && (i != k ==> t.Calm(i))
    {
      if i != k {
        GrowsLevel(s, t, p, d, k, Down(i, k));
      }
    }
    assert Lifted(s, t, p, d, s.root);
  }

  /** The only child of `k`, or NIL. */
  function Only(s: Shape, k: int): int
    requires s.Sized() && s.Has(k)
  {
    if s.left[k] == NIL then s.right[k] else s.left[k]
  }

  /** `s` with node `k`, which has a child at most, spliced out. */
  function Spliced(s: Shape, k: int): (t: Shape)
    requires s.Sized() && s.Has(k)
    ensures t.Sized() && |t.left| == |s.left| - 1
  {
    var n, x := |s.left| - 1, Only(s, k);
    Shape(
      if s.root == k then Down(x, k) else Down(s.root, k),
      seq(n, i requires 0 <= i < n && s.Sized() && s.Has(k) =>
        if s.left[Up(i, k)] == k then Down(x, k) else Down(s.left[Up(i, k)], k)),
      seq(n, i requires 0 <= i < n && s.Sized() && s.Has(k) =>
        if s.right[Up(i, k)] == k then Down(x, k) else Down(s.right[Up(i, k)], k)),
      seq(n, i requires 0 <= i < n && s.Sized() && s.Has(k) =>
        if s.parent[Up(i, k)] == k then Down(s.parent[k], k) else Down(s.parent[Up(i, k)], k)),
      seq(n, i requires 0 <= i < n && s.Sized() && s.Has(k) => s.color[Up(i, k)]),
      seq(n, i requires 0 <= i < n && s.Sized() && s.Has(k) => Down(s.lo[Up(i, k)], k)),
      seq(n, i requires 0 <= i < n && s.Sized() && s.Has(k) => Down(s.hi[Up(i, k)], k)),
      seq(n, i requires 0 <= i < n && s.Sized() && s.Has(k) => s.bh[Up(i, k)]))
  }

  predicate Dropped(s: Shape, t: Shape, k: int, x: int, j: int)
    requires s.Sized() && s.Has(k) && s.Has(j) && j != k && t.Sized() && |t.left| == |s.left| - 1
  {
    var i := Down(j, k);
    && t.left[i] == (if s.left[j] == k then Down(x, k) else Down(s.left[j], k))
    && t.right[i] == (if s.right[j] == k then Down(x, k) else Down(s.right[j], k))
    && t.parent[i] == (if s.parent[j] == k then Down(s.parent[k], k) else Down(s.parent[j], k))
    && t.color[i] == s.color[j] && t.bh[i] == s.bh[j]
    && t.lo[i] == Down(s.lo[j], k) && t.hi[i] == Down(s.hi[j], k)
  }

  /** `t` is `s` with node `k` spliced out, and `x`, its only child or NIL, in its place. */
  ghost predicate Splices(s: Shape, t: Shape, k: int, x: int) {
    && s.Linked() && s.Has(k) && (s.left[k] == NIL || s.right[k] == NIL) && x == Only(s, k)
    && t.Sized() && |t.left| == |s.left| - 1
    && t.root == (if s.root == k then Down(x, k) else Down(s.root, k))
    && (forall j {:trigger Dropped(s, t, k, x, j)} :: s.Has(j) && j != k ==> Dropped(s, t, k, x, j))
  }

  lemma SplicedSplices(s: Shape, k: int)
    requires s.Linked() && s.Has(k) && (s.left[k] == NIL || s.right[k] == NIL)
    ensures Splices(s, Spliced(s, k), k, Only(s, k))
  {
    var t, x := Spliced(s, k), Only(s, k);
    forall j | s.Has(j) && j != k
      ensures Dropped(s, t, k, x, j)
    {
      assert Up(Down(j, k), k) == j;
    }
  }

  lemma SplicesKids(s: Shape, t: Shape, k: int, x: int, j: int)
    requires Splices(s, t, k, x) && s.Has(j) && j != k
    ensures var i := Down(j, k);
      && 0 <= t.lo[i] <= i < t.hi[i] <= |t.left|
      && (if t.left[i] == NIL then t.lo[i] == i else t.Child(i, t.left[i], t.lo[i], i))
      && (if t.right[i] == NIL then t.hi[i] == i + 1 else t.Child(i, t.right[i], i + 1, t.hi[i]))
  {
    assert s.At(k) && s.At(j) && Dropped(s, t, k, x, j);
    if x != NIL {
      assert s.At(x) && Dropped(s, t, k, x, x);
    }
    var u, v := s.left[j], s.right[j];
    if u != NIL && u != k {
      assert s.At(u) && Dropped(s, t, k, x, u);
    }
    if v != NIL && v != k {
      assert s.At(v) && Dropped(s, t, k, x, v);
    }
  }

  lemma SplicesParent(s: Shape, t: Shape, k: int, x: int, j: int)
    requires Splices(s, t, k, x) && s.Has(j) && j != k
    ensures var i := Down(j, k);
      if t.parent[i] == NIL then i == t.root
      else t.Has(t.parent[i]) && (t.left[t.parent[i]] == i || t.right[t.parent[i]] == i)
  {
    assert s.At(k) && s.At(j) && Dropped(s, t, k, x, j);
    var q := if s.parent[j] == k then s.parent[k] else s.parent[j];
    if q != NIL {
      assert s.At(q) && Dropped(s, t, k, x, q);
    }
  }

  lemma SplicesLinked(s: Shape, t: Shape, k: int, x: int)
    requires Splices(s, t, k, x)
    ensures t.Linked()
  {
    forall i | t.Has(i)
      ensures t.At(i)
    {
      SplicesKids(s, t, k, x, Up(i, k));
      SplicesParent(s, t, k, x, Up(i, k));
    }
    assert s.At(k) && s.At(s.root);
    if s.root != k {
      assert Dropped(s, t, k, x, s.root);
    } else if x != NIL {
      assert s.At(x) && Dropped(s, t, k, x, x);
    }
  }

  lemma SplicesBh(s: Shape, t: Shape, k: int, x: int, j: int)
    requires Splices(s, t, k, x) && s.Has(j) && j != k
    ensures t.Bh(t.left[Down(j, k)]) == s.Bh(if s.left[j] == k then x else s.left[j])
    ensures t.Bh(t.right[Down(j, k)]) == s.Bh(if s.right[j] == k then x else s.right[j])
  {
    assert s.At(k) && s.At(j) && Dropped(s, t, k, x, j);
    if x != NIL {
      assert s.At(x) && Dropped(s, t, k, x, x);
    }
    var u, v := s.left[j], s.right[j];
    if u != NIL && u != k {
      assert Dropped(s, t, k, x, u);
    }
    if v != NIL && v != k {
      assert Dropped(s, t, k, x, v);
    }
  }

  lemma SplicesLevel(s: Shape, t: Shape, k: int, x: int, j: int, short: (int, Side))
    requires Splices(s, t, k, x) && s.Has(j) && j != k && s.Level(j, NO_SIDE) && s.Level(k, NO_SIDE)
    requires short == if s.color[k] == Red || s.parent[k] == NIL then NO_SIDE else (Down(s.parent[k], k), SideOf(s, k))
    ensures t.Level(Down(j, k), short)
  {
    SplicesBh(s, t, k, x, j);
    assert s.At(k) && s.At(j) && Dropped(s, t, k, x, j);
    if s.parent[k] != NIL {
      assert s.At(s.parent[k]);
    }
  }

  lemma SplicesCalm(s: Shape, t: Shape, k: int, x: int, j: int)
    requires Splices(s, t, k, x) && s.Has(j) && j != k && s.Calm(j)
    requires j == x ==> s.color[k] == Red && s.Calm(k)
    ensures t.Calm(Down(j, k))
  {
    assert s.At(k) && s.At(j) && Dropped(s, t, k, x, j);
    var q := s.parent[j];
    if q != NIL && q != k {
      assert Dropped(s, t, k, x, q);
    }
    if q == k && s.parent[k] != NIL {
      assert Dropped(s, t, k, x, s.parent[k]);
    }
  }

  /** Splicing a red node out of a red-black tree leaves one. */
  lemma SplicesRed(s: Shape, t: Shape, k: int, x: int)
    requires Splices(s, t, k, x) && s.RedBlack() && s.color[k] == Red
    ensures t.RedBlack()
  {
    SplicesLinked(s, t, k, x);
    assert s.Level(k, NO_SIDE) && s.Calm(k) && s.At(k) && s.root != k;
    forall i | t.Has(i)
      ensures t.Level(i, NO_SIDE) && t.Calm(i)
    {
      var j := Up(i, k);
      assert s.Level(j, NO_SIDE) && s.Calm(j);
      SplicesLevel(s, t, k, x, j, NO_SIDE);
      SplicesCalm(s, t, k, x, j);
    }
    assert Dropped(s, t, k, x, s.root);
  }

  /** Splicing a black node out is the start of a rebalancing removal. */
  lemma SplicesBlack(s: Shape, t: Shape, k: int, x: int)
    requires Splices(s, t, k, x) && s.RedBlack() && s.color[k] == Black
    ensures Lacking(t, Down(x, k), Down(s.parent[k], k), SideOf(s, k))
  {
    SplicesLinked(s, t, k, x);
    assert s.Level(k, NO_SIDE) && s.At(k);
    var p := s.parent[k];
    var short := if p == NIL then NO_SIDE else (Down(p, k), SideOf(s, k));
    forall i | t.Has(i)
      ensures t.Level(i, short)
    {
      assert s.Level(Up(i, k), NO_SIDE);
      SplicesLevel(s, t, k, x, Up(i, k), short);
    }
    forall i | t.Has(i) && i != Down(x, k)
      ensures t.Calm(i)
    {
      assert s.Calm(Up(i, k));
      SplicesCalm(s, t, k, x, Up(i, k));
    }
    if p != NIL {
      assert s.At(p) && Dropped(s, t, k, x, p) && Dropped(s, t, k, x, s.root);
    }
  }

  /** The links after a node `i` with a child at most has been taken out. The place itself stays. */
  function Unlinked(s: Shape, i: int): (u: Shape)
    requires s.Linked() && s.Has(i) && (s.left[i] == NIL || s.right[i] == NIL)
    ensures u.Sized() && |u.left| == |s.left|
  {
    assert s.At(i);
    var x := Only(s, i);
    Replanted(if x != NIL then s.(parent := s.parent[x := s.parent[i]]) else s, i, x)
  }

  /** The links while the successor of `i`, which has two children, takes over the children of `i`. */
  function Adopted(s: Shape, i: int): (u: Shape)
    requires s.Linked() && s.Has(i) && s.left[i] != NIL && s.right[i] != NIL && s.Has(i + 1) && s.parent[i + 1] != NIL
    ensures u.Sized() && |u.left| == |s.left|
  {
    assert s.At(i) && s.At(i + 1);
    var y, l, r, q, x := i + 1, s.left[i], s.right[i], s.parent[i + 1], s.right[i + 1];
    var s1 := s.(parent := s.parent[l := y], left := s.left[y := l]);
    if y == r then s1 else
    s1.(parent := (if x != NIL then s1.parent[x := q] else s1.parent)[r := y], left := s1.left[q := x], right := s1.right[y := r])
  }

  /** The links after it has been put in its place. */
  function Relinked(s: Shape, i: int): (u: Shape)
    requires s.Linked() && s.Has(i) && s.left[i] != NIL && s.right[i] != NIL && s.Has(i + 1) && s.parent[i + 1] != NIL
    requires Adopted(s, i).parent[i] != NIL ==> s.Has(Adopted(s, i).parent[i])
    ensures u.Sized() && |u.left| == |s.left|
  {
    var y := i + 1;
    var s3 := Replanted(Adopted(s, i), i, y);
    s3.(parent := s3.parent[y := s3.parent[i]], color := s3.color[y := s.color[i]][i := s.color[y]])
  }

  /** The successor of a node with two children is the first node of its right subtree, and has no left child. */
  lemma Successor(s: Shape, i: int)
    requires s.Linked() && s.Has(i) && s.right[i] != NIL
    ensures s.Has(i + 1) && s.At(i) && s.At(i + 1) && s.left[i + 1] == NIL && s.lo[s.right[i]] == i + 1
    ensures s.parent[i + 1] != NIL && (s.parent[i + 1] == i || s.left[s.parent[i + 1]] == i + 1)
    ensures s.parent[i + 1] == i <==> s.right[i] == i + 1
  {
    assert s.At(i) && s.At(s.right[i]) && s.At(i + 1);
    FirstHasNoLeft(s, s.right[i]);
    var q := s.parent[i + 1];
    assert s.root == i + 1 ==> false by {
      Within(s, i);
    }
    assert s.At(q);
  }

  /** The first place of a subtree has no left child. */
  lemma FirstHasNoLeft(s: Shape, i: int)
    requires s.Linked() && s.Has(i)
    ensures s.Has(s.lo[i]) && s.left[s.lo[i]] == NIL && s.lo[s.lo[i]] == s.lo[i]
    decreases i
  {
    assert s.At(i);
    if s.left[i] != NIL {
      assert s.At(s.left[i]);
      FirstHasNoLeft(s, s.left[i]);
    }
  }

  lemma Within(s: Shape, i: int)
    requires s.Linked() && s.Has(i)
    ensures s.lo[s.root] == 0 && s.hi[s.root] == |s.left| && s.At(s.root)
  {
  }

  /** Node `m` of `t` has the links that node `o` of `u` has, with place `i` gone. */
  predicate Follows(u: Shape, t: Shape, i: int, o: int, m: int)
    requires u.Sized() && t.Sized() && u.Has(o) && t.Has(m)
  {
    && u.left[o] != i && u.right[o] != i && u.parent[o] != i
    && t.left[m] == Down(u.left[o], i) && t.right[m] == Down(u.right[o], i) && t.parent[m] == Down(u.parent[o], i)
    && t.color[m] == u.color[o]
  }

  ghost predicate Leaves(u: Shape, t: Shape, i: int) {
    && u.Sized() && t.Sized() && u.Has(i) && |t.left| == |u.left| - 1
    && u.root != i && t.root == Down(u.root, i)
    && (forall m {:trigger Follows(u, t, i, Up(m, i), m)} :: t.Has(m) ==> Follows(u, t, i, Up(m, i), m))
  }

  lemma UnlinkedAt(s: Shape, i: int, o: int)
    requires s.Linked() && s.Has(i) && (s.left[i] == NIL || s.right[i] == NIL) && s.Has(o) && o != i
    ensures var u, x := Unlinked(s, i), Only(s, i);
      && u.left[o] == (if s.left[o] == i then x else s.left[o])
      && u.right[o] == (if s.right[o] == i then x else s.right[o])
      && u.parent[o] == (if s.parent[o] == i then s.parent[i] else s.parent[o])
      && u.color[o] == s.color[o]
  {
    assert s.At(i) && s.At(o);
    if s.parent[i] != NIL {
      assert s.At(s.parent[i]);
    }
    if s.parent[o] != NIL {
      assert s.At(s.parent[o]);
    }
  }

  lemma UnlinkedSelf(s: Shape, i: int)
    requires s.Linked() && s.Has(i) && (s.left[i] == NIL || s.right[i] == NIL)
    ensures var u := Unlinked(s, i);
      u.left[i] == s.left[i] && u.right[i] == s.right[i] && u.parent[i] == s.parent[i] && u.color == s.color
  {
    assert s.At(i);
    if s.parent[i] != NIL {
      assert s.At(s.parent[i]);
    }
  }

  /** Taking a node with one child at most out of the links splices it out. */
  lemma UnlinkedSplices(s: Shape, i: int)
    requires s.Linked() && s.Has(i) && (s.left[i] == NIL || s.right[i] == NIL)
    ensures Leaves(Unlinked(s, i), Spliced(s, i), i)
  {
    var u, t, x := Unlinked(s, i), Spliced(s, i), Only(s, i);
    SplicedSplices(s, i);
    assert s.At(i);
    forall m | t.Has(m)
      ensures Follows(u, t, i, Up(m, i), m)
    {
      UnlinkedAt(s, i, Up(m, i));
      UnlinkedFollows(s, u, t, i, x, m);
    }
  }

  lemma UnlinkedFollows(s: Shape, u: Shape, t: Shape, i: int, x: int, m: int)
    requires Splices(s, t, i, x) && u.Sized() && |u.left| == |s.left| && t.Has(m)
    requires var o := Up(m, i);
      && u.left[o] == (if s.left[o] == i then x else s.left[o])
      && u.right[o] == (if s.right[o] == i then x else s.right[o])
      && u.parent[o] == (if s.parent[o] == i then s.parent[i] else s.parent[o])
      && u.color[o] == s.color[o]
    ensures Follows(u, t, i, Up(m, i), m)
  {
    var o := Up(m, i);
    assert s.At(i) && s.At(o) && Dropped(s, t, i, x, o);
    if s.parent[i] != NIL {
      assert s.At(s.parent[i]);
    }
    if x != NIL {
      assert s.At(x);
    }
  }

  /** The nodes around `i` and its successor `y`, and where they stand. */
  ghost predicate Successive(s: Shape, i: int, y: int, l: int, r: int, p: int, q: int, x: int) {
    && s.Linked() && s.Has(i) && s.Has(y) && y == i + 1 && s.At(i) && s.At(y) && s.left[y] == NIL
    && l == s.left[i] && s.Has(l) && s.parent[l] == i && l < i
    && r == s.right[i] && s.Has(r) && s.parent[r] == i && r >= y
    && q == s.parent[y] && s.Has(q) && (q == i <==> r == y) && (q != i ==> q > y && s.left[q] == y && s.right[q] != y)
    && x == s.right[y] && (x != NIL ==> s.Has(x) && s.parent[x] == y && x > y && x != q && x != r)
    && p == s.parent[i]
    && (p != NIL ==> s.Has(p) && s.At(p) && p != i && p != y && p != l && p != r && p != q && p != x)
    && (p != NIL ==> (s.left[p] == i) != (s.right[p] == i))
  }

  lemma IsSuccessive(s: Shape, i: int) returns (y: int, l: int, r: int, p: int, q: int, x: int)
    requires s.Linked() && s.Has(i) && s.left[i] != NIL && s.right[i] != NIL
    ensures Successive(s, i, y, l, r, p, q, x)
  {
    Successor(s, i);
    y, l, r, p, q, x := i + 1, s.left[i], s.right[i], s.parent[i], s.parent[i + 1], s.right[i + 1];
    assert s.At(l) && s.At(r) && s.At(q);
    if x != NIL {
      assert s.At(x);
    }
    if p != NIL {
      assert s.At(p);
      ChildBounds(s, i);
    }
  }

  /** What the links of node `o` are once `y` has the children of `i`. */
  lemma AdoptedAt(s: Shape, i: int, y: int, l: int, r: int, p: int, q: int, x: int, o: int)
    requires Successive(s, i, y, l, r, p, q, x) && s.Has(o)
    ensures var u := Adopted(s, i);
      && u.left[o] == (if o == y then l else if o == q && q != i then x else s.left[o])
      && u.right[o] == (if o == y && r != y then r else s.right[o])
      && u.parent[o] == (if o == l || (o == r && r != y) then y else if o == x && q != i then q else s.parent[o])
      && u.color == s.color && u.root == s.root
  {
  }

  lemma AdoptedSelf(s: Shape, i: int, y: int, l: int, r: int, p: int, q: int, x: int)
    requires Successive(s, i, y, l, r, p, q, x)
    ensures var u := Adopted(s, i);
      && u.parent[i] == p && u.root == s.root && u.color == s.color && u.bh == s.bh
      && (p != NIL ==> (u.left[p] == i) != (u.right[p] == i))
      && (u.parent[i] == NIL <==> u.root == i)
  {
    AdoptedAt(s, i, y, l, r, p, q, x, i);
    if p != NIL {
      AdoptedAt(s, i, y, l, r, p, q, x, p);
    }
  }

  /** What they are once `y` stands where `i` did. */
  lemma RelinkedAt(s: Shape, i: int, y: int, l: int, r: int, p: int, q: int, x: int, o: int)
    requires Successive(s, i, y, l, r, p, q, x) && s.Has(o) && o != i
    ensures Adopted(s, i).parent[i] == p
    ensures var u := Relinked(s, i);
      && u.left[o] == (if o == y then l else if o == q && q != i then x else if o == p && s.left[p] == i then y else s.left[o])
      && u.right[o] == (if o == y && r != y then r else if o == p && s.left[p] != i then y else s.right[o])
      && u.parent[o] ==
         (if o == y then p else if o == l || o == r then y else if o == x && q != i then q else s.parent[o])
      && u.color[o] == (if o == y then s.color[i] else s.color[o])
      && u.root == (if p == NIL then y else s.root)
  {
    AdoptedAt(s, i, y, l, r, p, q, x, o);
    AdoptedAt(s, i, y, l, r, p, q, x, i);
    if p != NIL {
      AdoptedAt(s, i, y, l, r, p, q, x, p);
    }
    ReplantedAt(Adopted(s, i), i, y, p, o);
  }

  lemma ReplantedAt(u: Shape, i: int, y: int, p: int, o: int)
    requires u.Sized() && u.Has(i) && u.Has(o) && p == u.parent[i] && (p != NIL ==> u.Has(p))
    ensures var r := Replanted(u, i, y);
      && r.left[o] == (if p != NIL && o == p && u.left[p] == i then y else u.left[o])
      && r.right[o] == (if p != NIL && o == p && u.left[p] != i then y else u.right[o])
      && r.parent == u.parent && r.color == u.color && r.root == (if p == NIL then y else u.root)
  {
  }

  /** What `Spliced(s, i + 1)` says about the same node. */
  lemma SuccessorSpliced(s: Shape, t: Shape, i: int, y: int, l: int, r: int, p: int, q: int, x: int, o: int)
    requires Successive(s, i, y, l, r, p, q, x) && Splices(s, t, y, x) && s.Has(o) && o != i
    ensures var m := Down(o, i);
      && t.left[m] == Down(if o == y then l else if o == q && q != i then x else s.left[o], y)
      && t.right[m] == Down(if o == y && r != y then r else s.right[o], y)
      && t.parent[m] == Down(if o == y then p else if o == l || o == r then i else if o == x then q else s.parent[o], y)
      && t.color[m] == (if o == y then s.color[i] else s.color[o])
  {
    var j := if o == y then i else o;
    assert s.At(o) && Dropped(s, t, y, x, j) && Down(j, y) == Down(o, i);
  }

  lemma RelinkedFollows(s: Shape, u: Shape, t: Shape, i: int, y: int, l: int, r: int, p: int, q: int, x: int, o: int)
    requires Successive(s, i, y, l, r, p, q, x) && s.Has(o) && o != i && s.At(o)
    requires u.Sized() && |u.left| == |s.left| && t.Sized() && |t.left| == |s.left| - 1
    requires u.left[o] == if o == y then l else if o == q && q != i then x else if o == p && s.left[p] == i then y else s.left[o]
    requires u.right[o] == if o == y && r != y then r else if o == p && s.left[p] != i then y else s.right[o]
    requires u.parent[o] == if o == y then p else if o == l || o == r then y else if o == x && q != i then q else s.parent[o]
    requires u.color[o] == if o == y then s.color[i] else s.color[o]
    requires var m := Down(o, i);
      && t.left[m] == Down(if o == y then l else if o == q && q != i then x else s.left[o], y)
      && t.right[m] == Down(if o == y && r != y then r else s.right[o], y)
      && t.parent[m] == Down(if o == y then p else if o == l || o == r then i else if o == x then q else s.parent[o], y)
      && t.color[m] == (if o == y then s.color[i] else s.color[o])
    ensures Follows(u, t, i, o, Down(o, i))
  {
    if p != NIL {
      assert s.parent[i] == p;
    }
    assert s.left[o] == y ==> o == q;
    assert s.right[o] == y ==> o == i;
    assert s.left[o] == i || s.right[o] == i ==> o == p;
    assert s.parent[o] == y ==> o == x;
    assert s.parent[o] == i ==> o == l || o == r;
  }

  lemma SuccessorOnly(s: Shape, i: int, y: int, l: int, r: int, p: int, q: int, x: int)
    requires Successive(s, i, y, l, r, p, q, x)
    ensures Splices(s, Spliced(s, y), y, x)
  {
    SplicedSplices(s, y);
  }

  lemma RelinkedRoot(s: Shape, t: Shape, i: int, y: int, l: int, r: int, p: int, q: int, x: int)
    requires Successive(s, i, y, l, r, p, q, x) && Splices(s, t, y, x)
    ensures Adopted(s, i).parent[i] == p && Relinked(s, i).root != i && t.root == Down(Relinked(s, i).root, i)
  {
    RelinkedAt(s, i, y, l, r, p, q, x, y);
    assert s.root != y;
  }

  lemma RelinkedOne(s: Shape, u: Shape, t: Shape, i: int, y: int, l: int, r: int, p: int, q: int, x: int, m: int)
    requires Successive(s, i, y, l, r, p, q, x) && Splices(s, t, y, x) && t.Has(m)
    requires Adopted(s, i).parent[i] == p && u == Relinked(s, i)
    ensures Follows(u, t, i, Up(m, i), m)
  {
    var o := Up(m, i);
    RelinkedAt(s, i, y, l, r, p, q, x, o);
    SuccessorSpliced(s, t, i, y, l, r, p, q, x, o);
    assert s.At(o) && Down(o, i) == m;
    RelinkedFollows(s, u, t, i, y, l, r, p, q, x, o);
  }

  /** Putting the successor in the place of `i` splices out the place where the successor was. */
  lemma RelinkedLeaves(s: Shape, u: Shape, t: Shape, i: int, y: int, l: int, r: int, p: int, q: int, x: int)
    requires Successive(s, i, y, l, r, p, q, x) && Splices(s, t, y, x)
    requires Adopted(s, i).parent[i] == p && u == Relinked(s, i)
    ensures Leaves(u, t, i)
  {
    RelinkedRoot(s, t, i, y, l, r, p, q, x);
    forall m | t.Has(m)
      ensures Follows(u, t, i, Up(m, i), m)
    {
      RelinkedOne(s, u, t, i, y, l, r, p, q, x, m);
    }
  }

  lemma UnlinkPlan(s: Shape, i: int) returns (t: Shape)
    requires s.Linked() && s.Has(i) && (s.left[i] == NIL || s.right[i] == NIL)
    ensures Splices(s, t, i, Only(s, i)) && Leaves(Unlinked(s, i), t, i)
    ensures var u := Unlinked(s, i);
      u.left[i] == s.left[i] && u.right[i] == s.right[i] && u.parent[i] == s.parent[i] && u.color == s.color
  {
    UnlinkedSplices(s, i);
    UnlinkedSelf(s, i);
    t := Spliced(s, i);
    SplicedSplices(s, i);
  }

  /** The whole plan of the relinking: the links it ends with, and the shape they make without `i`. */
  lemma RelinkPlan(s: Shape, i: int) returns (y: int, l: int, r: int, p: int, q: int, x: int, t: Shape)
    requires s.Linked() && s.Has(i) && s.left[i] != NIL && s.right[i] != NIL
    ensures Successive(s, i, y, l, r, p, q, x) && Splices(s, t, y, x)
    ensures Adopted(s, i).parent[i] == p && Leaves(Relinked(s, i), t, i)
  {
    y, l, r, p, q, x := IsSuccessive(s, i);
    RelinkedAt(s, i, y, l, r, p, q, x, y);
    t := Spliced(s, y);
    SuccessorOnly(s, i, y, l, r, p, q, x);
    RelinkedLeaves(s, Relinked(s, i), t, i, y, l, r, p, q, x);
  }

  /** The neighbour of the first node, and of the last. */
  lemma EdgeOf(s: Shape, i: int)
    requires s.Linked() && s.Has(i)
    ensures i == 0 && s.right[i] == NIL ==> s.parent[i] == if |s.left| == 1 then NIL else 1
    ensures i == |s.left| - 1 && s.left[i] == NIL ==> s.parent[i] == i - 1
  {
    assert s.At(i);
    if s.parent[i] != NIL {
      assert s.At(s.parent[i]);
    }
  }

  /** The child that takes the place of the first node begins the order, and likewise at the other end. */
  lemma EdgeChild(s: Shape, t: Shape, i: int, x: int)
    requires Splices(s, t, i, x)
    ensures i == 0 && s.right[i] != NIL ==> t.Has(Down(x, i)) && t.lo[Down(x, i)] == 0
    ensures i == |s.left| - 1 && s.left[i] != NIL ==> t.Has(Down(x, i)) && t.hi[Down(x, i)] == |t.left|
  {
    assert s.At(i);
    if x != NIL {
      assert Dropped(s, t, i, x, x);
    }
  }

  // Height

  function Size(s: Shape, i: int): nat
    requires s.Sized()
  {
    if s.Has(i) && s.lo[i] < s.hi[i] then s.hi[i] - s.lo[i] else 0
  }

  /** The length of the longest path down from `i`. */
  ghost function Height(s: Shape, i: int): nat
    requires s.Linked()
    decreases Size(s, i)
  {
    if !s.Has(i) then 0 else
      assert s.At(i);
      assert s.left[i] != NIL ==> s.At(s.left[i]);
      assert s.right[i] != NIL ==> s.At(s.right[i]);
      var l, r := Height(s, s.left[i]), Height(s, s.right[i]);
      1 + if l < r then r else l
  }

  /** The black count of a node bounds its size from below and its height from above. */
  lemma {:induction false} CountBounds(s: Shape, i: int)
    requires s.RedBlack() && (i == NIL || s.Has(i))
    ensures Pow2(s.Bh(i)) <= Size(s, i) + 1
    ensures Height(s, i) <= 2 * s.Bh(i) + if s.Has(i) && s.color[i] == Red then 1 else 0
    decreases Size(s, i)
  {
    if s.Has(i) {
      var l, r := s.left[i], s.right[i];
      assert s.At(i) && s.Level(i, NO_SIDE);
      if l != NIL {
        assert s.At(l) && s.Calm(l);
      }
      if r != NIL {
        assert s.At(r) && s.Calm(r);
      }
      CountBounds(s, l);
      CountBounds(s, r);
    }
  }

  /** The height of a red-black tree is at most twice the logarithm of its size plus one. */
  lemma HeightBound(s: Shape)
    requires s.RedBlack()
    ensures Pow2((Height(s, s.root) + 1) / 2) <= |s.left| + 1
  {
    CountBounds(s, s.root);
    Pow2Mono((Height(s, s.root) + 1) / 2, s.Bh(s.root));
  }
}
