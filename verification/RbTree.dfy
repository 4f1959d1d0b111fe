/** The red-black tree (`_Rb_tree`), on its nodes. */
module RbTree {
  import opened RbShape

  class Node {
    const key: int
    var color: Color
    var parent: Node?
    var left: Node?
    var right: Node?

    constructor (key: int)
      ensures this.key == key
    {
      this.key := key;
    }
  }

  class Tree {
    /** Its parent is the root, its left the leftmost node and its right the rightmost. */
    const header: Node
    var count: nat

    /** The nodes in order, and the shape they carry. */
    ghost var nodes: seq<Node>
    ghost var s: Shape

    /** The node that stands for `j` as a child, and as a parent. */
    ghost function Ref(j: int): Node?
      reads this`nodes
    {
      if 0 <= j < |nodes| then nodes[j] else null
    }

    ghost function Above(j: int): Node
      reads this`nodes
    {
      if 0 <= j < |nodes| then nodes[j] else header
    }

    ghost predicate Distinct()
      reads this`nodes
    {
      && header !in nodes
      && forall i, j :: 0 <= i < |nodes| && 0 <= j < |nodes| && nodes[i] == nodes[j] ==> i == j
    }

    ghost predicate NodeAt(i: int)
      requires s.Sized() && |s.left| == |nodes| && s.Has(i)
      reads this`s, this`nodes, nodes
    {
      && nodes[i].left == Ref(s.left[i]) && nodes[i].right == Ref(s.right[i]) && nodes[i].parent == Above(s.parent[i])
      && nodes[i].color == s.color[i]
    }

    /** The nodes carry the links and colours of the shape. */
    ghost predicate Carries()
      reads this`s, this`nodes, header, nodes
    {
      && s.Sized() && |nodes| == |s.left| && Distinct()
      && header.parent == Ref(s.root) && header.color == Red
      && (forall i :: 0 <= i < |nodes| ==> NodeAt(i))
    }

    constructor ()
      ensures Valid() && nodes == []
    {
      var h := new Node(0);
      h.color, h.parent, h.left, h.right := Red, null, h, h;
      header, count, nodes, s := h, 0, [], Shape(NIL, [], [], [], [], [], [], []);
    }

    // One write, with the shape following it

    method SetLeft(x: Node, ghost i: int, y: Node?, ghost j: int)
      requires Carries() && s.Has(i) && x == nodes[i] && y == Ref(j)
      modifies this`s, x`left
      ensures Carries() && s == old(s).(left := old(s).left[i := j])
    {
      x.left := y;
      s := s.(left := s.left[i := j]);
      forall m | 0 <= m < |nodes|
        ensures NodeAt(m)
      {
        assert old(NodeAt(m));
      }
    }

    method SetRight(x: Node, ghost i: int, y: Node?, ghost j: int)
      requires Carries() && s.Has(i) && x == nodes[i] && y == Ref(j)
      modifies this`s, x`right
      ensures Carries() && s == old(s).(right := old(s).right[i := j])
    {
      x.right := y;
      s := s.(right := s.right[i := j]);
      forall m | 0 <= m < |nodes|
        ensures NodeAt(m)
      {
        assert old(NodeAt(m));
      }
    }

    method SetParent(x: Node, ghost i: int, y: Node?, ghost j: int)
      requires Carries() && s.Has(i) && x == nodes[i] && y == Above(j)
      modifies this`s, x`parent
      ensures Carries() && s == old(s).(parent := old(s).parent[i := j])
    {
      x.parent := y;
      s := s.(parent := s.parent[i := j]);
      forall m | 0 <= m < |nodes|
        ensures NodeAt(m)
      {
        assert old(NodeAt(m));
      }
    }

    method SetRoot(y: Node?, ghost j: int)
      requires Carries() && y == Ref(j)
      modifies this`s, header`parent
      ensures Carries() && s == old(s).(root := j)
    {
      header.parent := y;
      s := s.(root := j);
      forall m | 0 <= m < |nodes|
        ensures NodeAt(m)
      {
        assert old(NodeAt(m));
      }
    }

    method SetColor(x: Node, ghost i: int, c: Color, ghost k: nat)
      requires Carries() && s.Has(i) && x == nodes[i]
      modifies this`s, x`color
      ensures Carries() && s == Tint(old(s), i, c, k)
    {
      x.color := c;
      s := Tint(s, i, c, k);
      forall m | 0 <= m < |nodes|
        ensures NodeAt(m)
      {
        assert old(NodeAt(m));
      }
    }

    ghost method SetBounds(lo: seq<int>, hi: seq<int>)
      requires Carries() && |lo| == |hi| == |nodes|
      modifies this`s
      ensures Carries() && s == old(s).(lo := lo, hi := hi)
    {
      s := s.(lo := lo, hi := hi);
      forall m | 0 <= m < |nodes|
        ensures NodeAt(m)
      {
        assert old(NodeAt(m));
      }
    }

    /** Puts `y` where `x` is under its parent. */
    method Replant(x: Node, ghost i: int, y: Node?, ghost j: int)
      requires Carries() && s.Has(i) && x == nodes[i] && y == Ref(j)
      requires s.parent[i] == NIL <==> s.root == i
      requires s.parent[i] != NIL ==> s.Has(s.parent[i])
      modifies this`s, header`parent, nodes
      ensures Carries() && s == Replanted(old(s), i, j)
    {
      assert NodeAt(i);
      ghost var p := s.parent[i];
      assert p != NIL ==> NodeAt(p);
      if x == header.parent {
        SetRoot(y, j);
      } else if x == x.parent.left {
        SetLeft(x.parent, p, y, j);
      } else {
        SetRight(x.parent, p, y, j);
      }
    }

    /** `_Rb_tree_rotate_left` */
    method RotateLeft(x: Node, ghost i: int)
      requires Carries() && s.Linked() && s.Has(i) && x == nodes[i] && s.right[i] != NIL
      modifies this`s, header`parent, nodes
      ensures Carries() && s == Rotate(old(s), Left, i)
    {
      ghost var j, b, p := RotateFamily(s, Left, i);
      assert NodeAt(i) && NodeAt(j);
      var y := x.right;
      SetRight(x, i, y.left, b);
      if y.left != null {
        SetParent(y.left, b, x, i);
      }
      SetParent(y, j, x.parent, p);
      Replant(x, i, y, j);
      HangBelowLeft(x, i, y, j);
      SetBounds(s.lo[j := s.lo[i]], s.hi[i := j]);
    }

    method HangBelowLeft(x: Node, ghost i: int, y: Node, ghost j: int)
      requires Carries() && s.Has(i) && s.Has(j) && x == nodes[i] && y == nodes[j]
      modifies this`s, nodes
      ensures Carries() && s == old(s).(left := old(s).left[j := i], parent := old(s).parent[i := j])
    {
      SetLeft(y, j, x, i);
      SetParent(x, i, y, j);
    }

    /** `_Rb_tree_rotate_right` */
    method RotateRight(x: Node, ghost i: int)
      requires Carries() && s.Linked() && s.Has(i) && x == nodes[i] && s.left[i] != NIL
      modifies this`s, header`parent, nodes
      ensures Carries() && s == Rotate(old(s), Right, i)
    {
      ghost var j, b, p := RotateFamily(s, Right, i);
      assert NodeAt(i) && NodeAt(j);
      var y := x.left;
      SetLeft(x, i, y.right, b);
      if y.right != null {
        SetParent(y.right, b, x, i);
      }
      SetParent(y, j, x.parent, p);
      ReplantRight(x, i, y, j);
      HangBelowRight(x, i, y, j);
      SetBounds(s.lo[i := j + 1], s.hi[j := s.hi[i]]);
    }

    method HangBelowRight(x: Node, ghost i: int, y: Node, ghost j: int)
      requires Carries() && s.Has(i) && s.Has(j) && x == nodes[i] && y == nodes[j]
      modifies this`s, nodes
      ensures Carries() && s == old(s).(right := old(s).right[j := i], parent := old(s).parent[i := j])
    {
      SetRight(y, j, x, i);
      SetParent(x, i, y, j);
    }

    /** Replant, asking for the right child first. */
    method ReplantRight(x: Node, ghost i: int, y: Node?, ghost j: int)
      requires Carries() && s.Has(i) && x == nodes[i] && y == Ref(j)
      requires s.parent[i] == NIL <==> s.root == i
      requires s.parent[i] != NIL ==> s.Has(s.parent[i]) && (s.left[s.parent[i]] == i <==> s.right[s.parent[i]] != i)
      modifies this`s, header`parent, nodes
      ensures Carries() && s == Replanted(old(s), i, j)
    {
      assert NodeAt(i);
      ghost var p := s.parent[i];
      assert p != NIL ==> NodeAt(p);
      if x == header.parent {
        SetRoot(y, j);
      } else if x == x.parent.right {
        SetRight(x.parent, p, y, j);
      } else {
        SetLeft(x.parent, p, y, j);
      }
    }

    /** Two nodes painted, then a left rotation at `x`. */
    method PaintRotateLeft(u: Node, ghost i: int, c: Color, ghost ci: nat, v: Node, ghost j: int, e: Color, ghost cj: nat,
                           x: Node, ghost m: int) returns (ghost y: int, ghost b: int, ghost q: int)
      requires Carries() && s.Linked() && s.Has(i) && s.Has(j) && u == nodes[i] && v == nodes[j]
      requires s.Has(m) && x == nodes[m] && s.right[m] != NIL
      modifies this`s, header`parent, nodes
      ensures Carries() && Family(old(s), Left, m, y, b, q) && Rotated(old(s), s, Left, m, y, b, q) && s.Linked()
      ensures s.color == old(s).color[i := c][j := e] && s.bh == old(s).bh[i := ci][j := cj]
    {
      ghost var s0 := s;
      SetColor(u, i, c, ci);
      SetColor(v, j, e, cj);
      y, b, q := TurnFacts(s0, s, Left, m);
      RotateLeft(x, m);
    }

    method PaintRotateRight(u: Node, ghost i: int, c: Color, ghost ci: nat, v: Node, ghost j: int, e: Color, ghost cj: nat,
                            x: Node, ghost m: int) returns (ghost y: int, ghost b: int, ghost q: int)
      requires Carries() && s.Linked() && s.Has(i) && s.Has(j) && u == nodes[i] && v == nodes[j]
      requires s.Has(m) && x == nodes[m] && s.left[m] != NIL
      modifies this`s, header`parent, nodes
      ensures Carries() && Family(old(s), Right, m, y, b, q) && Rotated(old(s), s, Right, m, y, b, q) && s.Linked()
      ensures s.color == old(s).color[i := c][j := e] && s.bh == old(s).bh[i := ci][j := cj]
    {
      ghost var s0 := s;
      SetColor(u, i, c, ci);
      SetColor(v, j, e, cj);
      y, b, q := TurnFacts(s0, s, Right, m);
      RotateRight(x, m);
    }

    // Insertion

    /** `_Rb_tree_rebalance`, for a node `x` that has just been linked in. */
    method Rebalance(x0: Node, ghost k0: int)
      requires Carries() && s.Has(k0) && x0 == nodes[k0] && Adding(Tint(s, k0, Red, 0), k0)
      modifies this`s, header`parent, nodes
      ensures Carries() && s.RedBlack()
    {
      var x := x0;
      ghost var k := k0;
      SetColor(x, k, Red, 0);
      ParentOf(k);
      while x != header.parent && x.parent.color == Red
        invariant Carries() && Adding(s, k) && x == nodes[k] && x.parent != null
        invariant x == header.parent <==> s.root == k
        invariant x != header.parent ==> (x.parent.color == Red <==> Clash(s, k))
        decreases Room(s, k)
      {
        x, k := RebalanceStep(x, k);
        ParentOf(k);
      }
      assert Clash(s, k) ==> s.root != k by {
        assert s.At(k) && s.At(s.root);
      }
      AddEnds(s, k);
      SetColor(header.parent, s.root, Black, if s.color[s.root] == Black then s.bh[s.root] else s.bh[s.root] + 1);
    }

    /** What the parent link of a node says. */
    lemma ParentOf(k: int)
      requires Carries() && s.Linked() && s.Has(k)
      ensures nodes[k].parent != null && (nodes[k] == header.parent <==> s.root == k)
      ensures if s.root == k then nodes[k].parent == header
              else s.Has(s.parent[k]) && nodes[k].parent == nodes[s.parent[k]] && nodes[k].parent.color == s.color[s.parent[k]]
    {
      assert s.At(k) && NodeAt(k);
      if s.parent[k] != NIL {
        assert NodeAt(s.parent[k]);
      }
    }

    /** One turn of the loop. */
    method RebalanceStep(x: Node, ghost k: int) returns (x': Node, ghost k': int)
      requires Carries() && Adding(s, k) && x == nodes[k] && Clash(s, k)
      modifies this`s, header`parent, nodes
      ensures Carries() && Adding(s, k') && x' == nodes[k'] && Room(s, k') < old(Room(s, k))
    {
      ghost var p, g, d := Grandparent(s, k);
      assert NodeAt(k) && NodeAt(p) && NodeAt(g);
      if x.parent == x.parent.parent.left {
        x', k' := RebalanceLeft(x, k, p, g);
      } else {
        x', k' := RebalanceRight(x, k, p, g);
      }
    }

    method RebalanceLeft(x: Node, ghost k: int, ghost p: int, ghost g: int) returns (x': Node, ghost k': int)
      requires Carries() && Clashing(s, k, p, g, Left) && x == nodes[k]
      modifies this`s, header`parent, nodes
      ensures Carries() && Adding(s, k') && x' == nodes[k'] && Room(s, k') < old(Room(s, k))
    {
      assert NodeAt(k) && NodeAt(p) && NodeAt(g);
      var y := x.parent.parent.right;
      assert s.right[g] != NIL ==> NodeAt(s.right[g]);
      if y != null && y.color == Red {
        x', k' := Recolor(x, k, p, g, Left, y);
      } else {
        x', k' := TurnLeftSide(x, k, p, g);
      }
    }

    method TurnLeftSide(x: Node, ghost k: int, ghost p: int, ghost g: int) returns (x': Node, ghost k': int)
      requires Carries() && Clashing(s, k, p, g, Left) && x == nodes[k]
      requires s.right[g] == NIL || s.color[s.right[g]] == Black
      modifies this`s, header`parent, nodes
      ensures Carries() && Adding(s, k') && x' == nodes[k'] && !Clash(s, k')
    {
      assert NodeAt(k) && NodeAt(p);
      if x == x.parent.right {
        x', k' := x.parent, p;
        StraightenLeft(x', k, p, g);
        TurnRight(x', p, k, g);
      } else {
        x', k' := x, k;
        TurnRight(x', k, p, g);
      }
    }

    method StraightenLeft(x: Node, ghost k: int, ghost p: int, ghost g: int)
      requires Carries() && Clashing(s, k, p, g, Left) && x == nodes[p] && s.right[p] == k
      modifies this`s, header`parent, nodes
      ensures Carries() && Clashing(s, p, k, g, Left) && s.left[k] == p
      ensures s.right[g] == old(s).right[g] && s.color == old(s).color
    {
      ghost var s0 := s;
      ghost var y, b, q := TurnFacts(s, s, Left, p);
      RotateLeft(x, p);
      AddTurns(s0, s, k, p, g, Left, b);
    }

    method RebalanceRight(x: Node, ghost k: int, ghost p: int, ghost g: int) returns (x': Node, ghost k': int)
      requires Carries() && Clashing(s, k, p, g, Right) && x == nodes[k]
      modifies this`s, header`parent, nodes
      ensures Carries() && Adding(s, k') && x' == nodes[k'] && Room(s, k') < old(Room(s, k))
    {
      assert NodeAt(k) && NodeAt(p) && NodeAt(g);
      var y := x.parent.parent.left;
      assert s.left[g] != NIL ==> NodeAt(s.left[g]);
      if y != null && y.color == Red {
        x', k' := Recolor(x, k, p, g, Right, y);
      } else {
        x', k' := TurnRightSide(x, k, p, g);
      }
    }

    method TurnRightSide(x: Node, ghost k: int, ghost p: int, ghost g: int) returns (x': Node, ghost k': int)
      requires Carries() && Clashing(s, k, p, g, Right) && x == nodes[k]
      requires s.left[g] == NIL || s.color[s.left[g]] == Black
      modifies this`s, header`parent, nodes
      ensures Carries() && Adding(s, k') && x' == nodes[k'] && !Clash(s, k')
    {
      assert NodeAt(k) && NodeAt(p);
      if x == x.parent.left {
        x', k' := x.parent, p;
        StraightenRight(x', k, p, g);
        TurnLeft(x', p, k, g);
      } else {
        x', k' := x, k;
        TurnLeft(x', k, p, g);
      }
    }

    method StraightenRight(x: Node, ghost k: int, ghost p: int, ghost g: int)
      requires Carries() && Clashing(s, k, p, g, Right) && x == nodes[p] && s.left[p] == k
      modifies this`s, header`parent, nodes
      ensures Carries() && Clashing(s, p, k, g, Right) && s.right[k] == p
      ensures s.left[g] == old(s).left[g] && s.color == old(s).color
    {
      ghost var s0 := s;
      ghost var y, b, q := TurnFacts(s, s, Right, p);
      RotateRight(x, p);
      AddTurns(s0, s, k, p, g, Right, b);
    }

    /** The uncle `y` is red. */
    method Recolor(x: Node, ghost k: int, ghost p: int, ghost g: int, ghost d: Side, y: Node) returns (x': Node, ghost k': int)
      requires Carries() && Clashing(s, k, p, g, d) && x == nodes[k]
      requires s.Has(s.Kid(d.Other(), g)) && y == nodes[s.Kid(d.Other(), g)] && y.color == Red
      modifies this`s, nodes
      ensures Carries() && Adding(s, k') && x' == nodes[k'] && Room(s, k') < old(Room(s, k))
    {
      ghost var s0, u := s, s.Kid(d.Other(), g);
      assert NodeAt(k) && NodeAt(p) && NodeAt(g) && NodeAt(u);
      AddRecolors(s, k, p, g, d);
      PaintFamily(x, k, y, u, p, g);
      RoomAbove(s0, k, p, g, d, s);
      assert NodeAt(k) && NodeAt(p);
      x', k' := x.parent.parent, g;
    }

    /** The parent and the uncle turn black, the grandparent red. */
    method PaintFamily(x: Node, ghost k: int, y: Node, ghost u: int, ghost p: int, ghost g: int)
      requires Carries() && s.Has(k) && s.Has(p) && s.Has(g) && s.Has(u) && x == nodes[k] && y == nodes[u]
      requires p == s.parent[k] && g == s.parent[p] && p != u && p != g && u != g
      modifies this`s, nodes
      ensures Carries() && s == Recolored(old(s), p, u, g)
    {
      assert NodeAt(k);
      SetColor(x.parent, p, Black, s.bh[p] + 1);
      SetColor(y, u, Black, s.bh[u] + 1);
      assert NodeAt(k) && NodeAt(p);
      SetColor(x.parent.parent, g, Red, s.bh[g]);
    }

    /** The uncle is black, and `x` is the outer grandchild. */
    method TurnRight(x: Node, ghost k: int, ghost p: int, ghost g: int)
      requires Carries() && Clashing(s, k, p, g, Left) && x == nodes[k] && s.left[p] == k
      requires s.right[g] == NIL || s.color[s.right[g]] == Black
      modifies this`s, header`parent, nodes
      ensures Carries() && Adding(s, k) && !Clash(s, k)
    {
      ghost var s0 := s;
      assert s.Level(g, NO_SIDE) && NodeAt(k) && NodeAt(p);
      ghost var y, b, q := PaintRotateRight(x.parent, p, Black, s.bh[g], x.parent.parent, g, Red, s.bh[g] - 1, x.parent.parent, g);
      AddTurned(s0, s, k, p, g, Left, b, q);
    }

    method TurnLeft(x: Node, ghost k: int, ghost p: int, ghost g: int)
      requires Carries() && Clashing(s, k, p, g, Right) && x == nodes[k] && s.right[p] == k
      requires s.left[g] == NIL || s.color[s.left[g]] == Black
      modifies this`s, header`parent, nodes
      ensures Carries() && Adding(s, k) && !Clash(s, k)
    {
      ghost var s0 := s;
      assert s.Level(g, NO_SIDE) && NodeAt(k) && NodeAt(p);
      ghost var y, b, q := PaintRotateLeft(x.parent, p, Black, s.bh[g], x.parent.parent, g, Red, s.bh[g] - 1, x.parent.parent, g);
      AddTurned(s0, s, k, p, g, Right, b, q);
    }

    // Removal

    ghost method SetBh(i: int, k: nat)
      requires Carries() && s.Has(i)
      modifies this`s
      ensures Carries() && s == old(s).(bh := old(s).bh[i := k])
    {
      s := s.(bh := s.bh[i := k]);
      forall m | 0 <= m < |nodes|
        ensures NodeAt(m)
      {
        assert old(NodeAt(m));
      }
    }

    /** The loop that ends `_Rb_tree_rebalance_for_erase`: `x` is short of a black node. */
    method Restore(x0: Node?, xp0: Node?, ghost k0: int, ghost kp0: int, ghost d0: Side)
      requires Carries() && Lacking(s, k0, kp0, d0) && x0 == Ref(k0) && xp0 == Above(kp0)
      modifies this`s, header`parent, nodes
      ensures Carries() && s.RedBlack()
    {
      var x, xp := x0, xp0;
      ghost var k, kp, d := k0, kp0, d0;
      var done := false;
      Position(k, kp, d);
      while x != header.parent && (x == null || x.color == Black)
        invariant Carries() && Lacking(s, k, kp, d) && x == Ref(k) && xp == Above(kp) && Stands(k)
        decreases RoomUp(s, k, kp)
      {
        done, x, xp, k, kp, d := RestoreStep(x, xp, k, kp, d);
        if done {
          break;
        }
        Position(k, kp, d);
      }
      if !done {
        LackEnds(s, k, kp, d);
      }
      PaintBlack(x, k);
    }

    method PaintBlack(x: Node?, ghost k: int)
      requires Carries() && x == Ref(k) && (k != NIL ==> s.Has(k))
      modifies this`s, nodes
      ensures Carries() && s == Blackened(old(s), k)
    {
      if x != null {
        ghost var s0 := s;
        SetColor(x, k, Black, if s.color[k] == Black then s.bh[k] else s.bh[k] + 1);
        assert s == Blackened(s0, k);
      }
    }

    /** What comparing `x` with the root and looking at its colour says. */
    ghost predicate Stands(k: int)
      reads this`s, this`nodes, header, nodes
    {
      && Carries() && (k == NIL || s.Has(k)) && (Ref(k) == header.parent <==> s.root == k)
      && (Ref(k) != null ==> Ref(k).color == s.color[k])
    }

    lemma Position(k: int, kp: int, d: Side)
      requires Carries() && Lacking(s, k, kp, d)
      ensures Stands(k)
    {
      if kp != NIL {
        assert s.At(kp);
      }
      if k != NIL {
        assert NodeAt(k);
      }
    }

    /** One turn of that loop; `done` when it breaks. */
    method RestoreStep(x: Node?, xp: Node?, ghost k: int, ghost kp: int, ghost d: Side)
      returns (done: bool, x': Node?, xp': Node?, ghost k': int, ghost kp': int, ghost d': Side)
      requires Carries() && Lacking(s, k, kp, d) && x == Ref(k) && xp == Above(kp) && k != s.root
      requires k == NIL || (s.Has(k) && s.color[k] == Black)
      modifies this`s, header`parent, nodes
      ensures Carries() && x' == Ref(k') && xp' == Above(kp')
      ensures if done then s.RedBlack() && (k' == NIL || (s.Has(k') && s.color[k'] == Black))
              else Lacking(s, k', kp', d') && RoomUp(s, k', kp') < old(RoomUp(s, k, kp))
    {
      HasSibling(s, k, kp, d);
      assert NodeAt(kp);
      if x == xp.left {
        done, x', xp', k', kp', d' := RestoreLeft(x, xp, k, kp, s.right[kp]);
      } else {
        done, x', xp', k', kp', d' := RestoreRight(x, xp, k, kp, s.left[kp]);
      }
    }

    method RestoreLeft(x: Node?, xp: Node, ghost k: int, ghost kp: int, ghost kw: int)
      returns (done: bool, x': Node?, xp': Node?, ghost k': int, ghost kp': int, ghost d': Side)
      requires Carries() && Sibling(s, k, kp, Left, kw) && x == Ref(k) && xp == nodes[kp] && k != s.root
      modifies this`s, header`parent, nodes
      ensures Carries() && x' == Ref(k') && xp' == Above(kp')
      ensures if done then s.RedBlack() && (k' == NIL || (s.Has(k') && s.color[k'] == Black))
              else Lacking(s, k', kp', d') && RoomUp(s, k', kp') < old(RoomUp(s, k, kp))
    {
      ghost var red := s.color[kw] == Red;
      ghost var w';
      var w;
      w, w' := BlackSiblingLeft(x, xp, k, kp, kw);
      done, x', xp', k', kp', d' := RestoreLeftBlack(x, xp, k, kp, w, w', red);
    }

    /** The sibling, turned black if it is red. */
    method BlackSiblingLeft(x: Node?, xp: Node, ghost k: int, ghost kp: int, ghost kw: int) returns (w: Node, ghost w': int)
      requires Carries() && Sibling(s, k, kp, Left, kw) && x == Ref(k) && xp == nodes[kp] && k != s.root
      modifies this`s, header`parent, nodes
      ensures Carries() && Sibling(s, k, kp, Left, w') && w == nodes[w'] && s.color[w'] == Black
      ensures if old(s).color[kw] == Red then s.color[kp] == Red else s == old(s)
    {
      assert NodeAt(kp) && NodeAt(kw);
      w, w' := xp.right, kw;
      if w.color == Red {
        w' := SiblingLeft(x, xp, k, kp, kw, w);
        assert NodeAt(kp);
        w := xp.right;
      }
    }

    /** The sibling `w` is red. */
    method SiblingLeft(x: Node?, xp: Node, ghost k: int, ghost kp: int, ghost kw: int, w: Node) returns (ghost w': int)
      requires Carries() && Sibling(s, k, kp, Left, kw) && x == Ref(k) && xp == nodes[kp] && w == nodes[kw] && w.color == Red
      modifies this`s, header`parent, nodes
      ensures Carries() && Sibling(s, k, kp, Left, w') && s.color[w'] == Black && s.color[kp] == Red && k != s.root
    {
      ghost var s0 := s;
      assert NodeAt(kw);
      ghost var y, b, p := PaintRotateLeft(w, kw, Black, s.bh[kp], xp, kp, Red, s.bh[kp] - 1, xp, kp);
      LackSiblingTurned(s0, s, k, kp, Left, kw, b, p);
      w' := b;
    }

    /** The sibling `w` is black. */
    method RestoreLeftBlack(x: Node?, xp: Node, ghost k: int, ghost kp: int, w0: Node, ghost kw0: int, ghost red: bool)
      returns (done: bool, x': Node?, xp': Node?, ghost k': int, ghost kp': int, ghost d': Side)
      requires Carries() && Sibling(s, k, kp, Left, kw0) && s.color[kw0] == Black && (red ==> s.color[kp] == Red)
      requires x == Ref(k) && xp == nodes[kp] && w0 == nodes[kw0]
      modifies this`s, header`parent, nodes
      ensures Carries() && x' == Ref(k') && xp' == Above(kp')
      ensures if done then s.RedBlack() && (k' == NIL || (s.Has(k') && s.color[k'] == Black))
              else Lacking(s, k', kp', d')
                   && RoomUp(s, k', kp') <= (if red then 0 else old(RoomUp(s, k, kp)) - 1)
    {
      assert NodeAt(kp) && NodeAt(kw0) && s.At(kw0);
      assert s.left[kw0] != NIL ==> NodeAt(s.left[kw0]);
      assert s.right[kw0] != NIL ==> NodeAt(s.right[kw0]);
      if (w0.left == null || w0.left.color == Black) && (w0.right == null || w0.right.color == Black) {
        x', xp', k', kp', d' := Redden(xp, k, kp, Left, w0, kw0);
        done := false;
      } else {
        done, x', xp', k', kp', d' := true, x, xp, k, kp, Left;
        RestoreLeftFar(xp, k, kp, w0, kw0);
      }
    }

    /** The sibling `w0` is black and has a red child. */
    method RestoreLeftFar(xp: Node, ghost k: int, ghost kp: int, w0: Node, ghost kw0: int)
      requires Carries() && Sibling(s, k, kp, Left, kw0) && s.color[kw0] == Black && xp == nodes[kp] && w0 == nodes[kw0]
      requires !((s.left[kw0] == NIL || s.color[s.left[kw0]] == Black) && (s.right[kw0] == NIL || s.color[s.right[kw0]] == Black))
      modifies this`s, header`parent, nodes
      ensures Carries() && s.RedBlack() && (k == NIL || (s.Has(k) && s.color[k] == Black))
    {
      var w := w0;
      ghost var kw := kw0;
      assert NodeAt(kw);
      assert s.right[kw] != NIL ==> NodeAt(s.right[kw]);
      if w.right == null || w.right.color == Black {
        kw := NephewLeft(xp, k, kp, w, kw);
        assert NodeAt(kp);
        w := xp.right;
      }
      FarLeft(xp, k, kp, w, kw);
    }

    method Redden(xp: Node, ghost k: int, ghost kp: int, ghost d: Side, w: Node, ghost kw: int)
      returns (x': Node?, xp': Node?, ghost k': int, ghost kp': int, ghost d': Side)
      requires Carries() && Sibling(s, k, kp, d, kw) && s.color[kw] == Black && xp == nodes[kp] && w == nodes[kw]
      requires (s.left[kw] == NIL || s.color[s.left[kw]] == Black) && (s.right[kw] == NIL || s.color[s.right[kw]] == Black)
      modifies this`s, nodes
      ensures Carries() && x' == Ref(k') && xp' == Above(kp') && Lacking(s, k', kp', d')
      ensures RoomUp(s, k', kp') <= (if old(s.color[kp]) == Red then 0 else old(RoomUp(s, k, kp)) - 1)
    {
      ghost var s0 := s;
      LackSiblingReddened(s, k, kp, d, kw);
      SetColor(w, kw, Red, s.bh[kw] - 1);
      SetBh(kp, s.bh[kp] - 1);
      assert s == SiblingReddened(s0, kp, kw);
      RoomShrinks(s0, s, k, kp, d, kw);
      assert NodeAt(kp);
      x', xp', k', kp', d' := xp, xp.parent, kp, s.parent[kp], SideOf(s0, kp);
    }

    method NephewLeft(xp: Node, ghost k: int, ghost kp: int, w: Node, ghost kw: int) returns (ghost kw': int)
      requires Carries() && Sibling(s, k, kp, Left, kw) && s.color[kw] == Black && xp == nodes[kp] && w == nodes[kw]
      requires s.Has(s.left[kw]) && s.color[s.left[kw]] == Red
      requires s.right[kw] == NIL || s.color[s.right[kw]] == Black
      modifies this`s, header`parent, nodes
      ensures Carries() && Sibling(s, k, kp, Left, kw') && s.color[kw'] == Black && s.Has(s.right[kw']) && s.color[s.right[kw']] == Red
    {
      ghost var s0, m := s, s.left[kw];
      assert NodeAt(kw) && NodeAt(m);
      ghost var y, b, p := PaintRotateRight(w.left, m, Black, s.bh[kw], w, kw, Red, s.bh[kw] - 1, w, kw);
      LackNephewTurned(s0, s, k, kp, Left, kw, m, b);
      kw' := m;
    }

    method FarLeft(xp: Node, ghost k: int, ghost kp: int, w: Node, ghost kw: int)
      requires Carries() && Sibling(s, k, kp, Left, kw) && s.color[kw] == Black && xp == nodes[kp] && w == nodes[kw]
      requires s.Has(s.right[kw]) && s.color[s.right[kw]] == Red
      modifies this`s, header`parent, nodes
      ensures Carries() && s.RedBlack() && (k == NIL || (s.Has(k) && s.color[k] == Black))
    {
      ghost var s0, f := s, s.right[kw];
      assert s.At(kw) && s.At(f);
      ghost var y, b, p := FarPaintLeft(xp, kp, w, kw, f, s.Bh(k) + 1);
      LackFarTurned(s0, s, k, kp, Left, kw, f, b, p);
    }

    method FarPaintLeft(xp: Node, ghost kp: int, w: Node, ghost kw: int, ghost f: int, ghost cx: nat)
      returns (ghost y: int, ghost b: int, ghost p: int)
      requires Carries() && s.Linked() && s.Has(kp) && s.Has(kw) && s.Has(f) && xp == nodes[kp] && w == nodes[kw]
      requires s.right[kp] == kw && s.right[kw] == f
      modifies this`s, header`parent, nodes
      ensures Carries() && Family(old(s), Left, kp, y, b, p) && Rotated(old(s), s, Left, kp, y, b, p) && s.Linked()
      ensures s.color == old(s).color[kw := old(s).color[kp]][kp := Black][f := Black]
      ensures s.bh == old(s).bh[kw := old(s).bh[kp]][kp := cx][f := old(s).bh[f] + 1]
    {
      ghost var s0 := s;
      assert NodeAt(kp);
      SetColor(w, kw, xp.color, s.bh[kp]);
      SetColor(xp, kp, Black, cx);
      assert NodeAt(kw);
      if w.right != null {
        SetColor(w.right, f, Black, s0.bh[f] + 1);
      }
      y, b, p := TurnFacts(s0, s, Left, kp);
      RotateLeft(xp, kp);
    }

    // The same on the other side

    method RestoreRight(x: Node?, xp: Node, ghost k: int, ghost kp: int, ghost kw: int)
      returns (done: bool, x': Node?, xp': Node?, ghost k': int, ghost kp': int, ghost d': Side)
      requires Carries() && Sibling(s, k, kp, Right, kw) && x == Ref(k) && xp == nodes[kp] && k != s.root
      modifies this`s, header`parent, nodes
      ensures Carries() && x' == Ref(k') && xp' == Above(kp')
      ensures if done then s.RedBlack() && (k' == NIL || (s.Has(k') && s.color[k'] == Black))
              else Lacking(s, k', kp', d') && RoomUp(s, k', kp') < old(RoomUp(s, k, kp))
    {
      ghost var red := s.color[kw] == Red;
      ghost var w';
      var w;
      w, w' := BlackSiblingRight(x, xp, k, kp, kw);
      done, x', xp', k', kp', d' := RestoreRightBlack(x, xp, k, kp, w, w', red);
    }

    /** The sibling, turned black if it is red. */
    method BlackSiblingRight(x: Node?, xp: Node, ghost k: int, ghost kp: int, ghost kw: int) returns (w: Node, ghost w': int)
      requires Carries() && Sibling(s, k, kp, Right, kw) && x == Ref(k) && xp == nodes[kp] && k != s.root
      modifies this`s, header`parent, nodes
      ensures Carries() && Sibling(s, k, kp, Right, w') && w == nodes[w'] && s.color[w'] == Black
      ensures if old(s).color[kw] == Red then s.color[kp] == Red else s == old(s)
    {
      assert NodeAt(kp) && NodeAt(kw);
      w, w' := xp.left, kw;
      if w.color == Red {
        w' := SiblingRight(x, xp, k, kp, kw, w);
        assert NodeAt(kp);
        w := xp.left;
      }
    }

    method SiblingRight(x: Node?, xp: Node, ghost k: int, ghost kp: int, ghost kw: int, w: Node) returns (ghost w': int)
      requires Carries() && Sibling(s, k, kp, Right, kw) && x == Ref(k) && xp == nodes[kp] && w == nodes[kw] && w.color == Red
      modifies this`s, header`parent, nodes
      ensures Carries() && Sibling(s, k, kp, Right, w') && s.color[w'] == Black && s.color[kp] == Red && k != s.root
    {
      ghost var s0 := s;
      assert NodeAt(kw);
      ghost var y, b, p := PaintRotateRight(w, kw, Black, s.bh[kp], xp, kp, Red, s.bh[kp] - 1, xp, kp);
      LackSiblingTurned(s0, s, k, kp, Right, kw, b, p);
      w' := b;
    }

    method RestoreRightBlack(x: Node?, xp: Node, ghost k: int, ghost kp: int, w0: Node, ghost kw0: int, ghost red: bool)
      returns (done: bool, x': Node?, xp': Node?, ghost k': int, ghost kp': int, ghost d': Side)
      requires Carries() && Sibling(s, k, kp, Right, kw0) && s.color[kw0] == Black && (red ==> s.color[kp] == Red)
      requires x == Ref(k) && xp == nodes[kp] && w0 == nodes[kw0]
      modifies this`s, header`parent, nodes
      ensures Carries() && x' == Ref(k') && xp' == Above(kp')
      ensures if done then s.RedBlack() && (k' == NIL || (s.Has(k') && s.color[k'] == Black))
              else Lacking(s, k', kp', d')
                   && RoomUp(s, k', kp') <= (if red then 0 else old(RoomUp(s, k, kp)) - 1)
    {
      assert NodeAt(kp) && NodeAt(kw0) && s.At(kw0);
      assert s.right[kw0] != NIL ==> NodeAt(s.right[kw0]);
      assert s.left[kw0] != NIL ==> NodeAt(s.left[kw0]);
      if (w0.right == null || w0.right.color == Black) && (w0.left == null || w0.left.color == Black) {
        x', xp', k', kp', d' := Redden(xp, k, kp, Right, w0, kw0);
        done := false;
      } else {
        done, x', xp', k', kp', d' := true, x, xp, k, kp, Right;
        RestoreRightFar(xp, k, kp, w0, kw0);
      }
    }

    /** The sibling `w0` is black and has a red child. */
    method RestoreRightFar(xp: Node, ghost k: int, ghost kp: int, w0: Node, ghost kw0: int)
      requires Carries() && Sibling(s, k, kp, Right, kw0) && s.color[kw0] == Black && xp == nodes[kp] && w0 == nodes[kw0]
      requires !((s.left[kw0] == NIL || s.color[s.left[kw0]] == Black) && (s.right[kw0] == NIL || s.color[s.right[kw0]] == Black))
      modifies this`s, header`parent, nodes
      ensures Carries() && s.RedBlack() && (k == NIL || (s.Has(k) && s.color[k] == Black))
    {
      var w := w0;
      ghost var kw := kw0;
      assert NodeAt(kw);
      assert s.left[kw] != NIL ==> NodeAt(s.left[kw]);
      if w.left == null || w.left.color == Black {
        kw := NephewRight(xp, k, kp, w, kw);
        assert NodeAt(kp);
        w := xp.left;
      }
      FarRight(xp, k, kp, w, kw);
    }

    method NephewRight(xp: Node, ghost k: int, ghost kp: int, w: Node, ghost kw: int) returns (ghost kw': int)
      requires Carries() && Sibling(s, k, kp, Right, kw) && s.color[kw] == Black && xp == nodes[kp] && w == nodes[kw]
      requires s.Has(s.right[kw]) && s.color[s.right[kw]] == Red
      requires s.left[kw] == NIL || s.color[s.left[kw]] == Black
      modifies this`s, header`parent, nodes
      ensures Carries() && Sibling(s, k, kp, Right, kw') && s.color[kw'] == Black && s.Has(s.left[kw']) && s.color[s.left[kw']] == Red
    {
      ghost var s0, m := s, s.right[kw];
      assert NodeAt(kw) && NodeAt(m);
      ghost var y, b, p := PaintRotateLeft(w.right, m, Black, s.bh[kw], w, kw, Red, s.bh[kw] - 1, w, kw);
      LackNephewTurned(s0, s, k, kp, Right, kw, m, b);
      kw' := m;
    }

    method FarRight(xp: Node, ghost k: int, ghost kp: int, w: Node, ghost kw: int)
      requires Carries() && Sibling(s, k, kp, Right, kw) && s.color[kw] == Black && xp == nodes[kp] && w == nodes[kw]
      requires s.Has(s.left[kw]) && s.color[s.left[kw]] == Red
      modifies this`s, header`parent, nodes
      ensures Carries() && s.RedBlack() && (k == NIL || (s.Has(k) && s.color[k] == Black))
    {
      ghost var s0, f := s, s.left[kw];
      assert s.At(kw) && s.At(f);
      ghost var y, b, p := FarPaintRight(xp, kp, w, kw, f, s.Bh(k) + 1);
      LackFarTurned(s0, s, k, kp, Right, kw, f, b, p);
    }

    method FarPaintRight(xp: Node, ghost kp: int, w: Node, ghost kw: int, ghost f: int, ghost cx: nat)
      returns (ghost y: int, ghost b: int, ghost p: int)
      requires Carries() && s.Linked() && s.Has(kp) && s.Has(kw) && s.Has(f) && xp == nodes[kp] && w == nodes[kw]
      requires s.left[kp] == kw && s.left[kw] == f
      modifies this`s, header`parent, nodes
      ensures Carries() && Family(old(s), Right, kp, y, b, p) && Rotated(old(s), s, Right, kp, y, b, p) && s.Linked()
      ensures s.color == old(s).color[kw := old(s).color[kp]][kp := Black][f := Black]
      ensures s.bh == old(s).bh[kw := old(s).bh[kp]][kp := cx][f := old(s).bh[f] + 1]
    {
      ghost var s0 := s;
      assert NodeAt(kp);
      SetColor(w, kw, xp.color, s.bh[kp]);
      SetColor(xp, kp, Black, cx);
      assert NodeAt(kw);
      if w.left != null {
        SetColor(w.left, f, Black, s0.bh[f] + 1);
      }
      y, b, p := TurnFacts(s0, s, Right, kp);
      RotateRight(xp, kp);
    }

    // Erasing a node

    /** Lets go of node `i`, which no link leads to any more. */
    ghost method Drop(i: int, t: Shape)
      requires Carries() && s.Has(i) && Leaves(s, t, i)
      modifies this`nodes, this`s
      ensures Carries() && s == t && nodes == old(nodes)[..i] + old(nodes)[i + 1..]
    {
      ghost var was := nodes;
      nodes := nodes[..i] + nodes[i + 1..];
      s := t;
      assert forall m :: 0 <= m < |nodes| ==> nodes[m] == was[Up(m, i)];
      forall m | 0 <= m < |nodes|
        ensures NodeAt(m)
      {
        assert old(NodeAt(Up(m, i))) && Follows(old(s), t, i, Up(m, i), m);
      }
    }

    /** `_S_minimum` and `_S_maximum`, of the subtree at place `i`. */
    method Minimum(x0: Node, ghost i: int) returns (x: Node)
      requires Carries() && s.Linked() && s.Has(i) && x0 == nodes[i]
      ensures s.Has(s.lo[i]) && x == nodes[s.lo[i]]
    {
      x := x0;
      ghost var j := i;
      assert NodeAt(j) && s.At(j);
      while x.left != null
        invariant s.Has(j) && s.At(j) && NodeAt(j) && x == nodes[j] && s.lo[j] == s.lo[i]
        decreases j
      {
        j := s.left[j];
        x := x.left;
        assert NodeAt(j) && s.At(j);
      }
    }

    method Maximum(x0: Node, ghost i: int) returns (x: Node)
      requires Carries() && s.Linked() && s.Has(i) && x0 == nodes[i]
      ensures s.Has(s.hi[i] - 1) && x == nodes[s.hi[i] - 1]
    {
      x := x0;
      ghost var j := i;
      assert NodeAt(j) && s.At(j);
      while x.right != null
        invariant s.Has(j) && s.At(j) && NodeAt(j) && x == nodes[j] && s.hi[j] == s.hi[i]
        decreases |nodes| - j
      {
        j := s.right[j];
        x := x.right;
        assert NodeAt(j) && s.At(j);
      }
    }

    /** The header knows the first and the last node. */
    ghost predicate Caches()
      reads this`nodes, header
    {
      && header.left == (if |nodes| == 0 then header else nodes[0])
      && header.right == (if |nodes| == 0 then header else nodes[|nodes| - 1])
    }

    /** A node `z` with one child `x` at most leaves the links. */
    method Unlink(z: Node, x: Node?, ghost i: int) returns (xp: Node?)
      requires Carries() && s.Linked() && s.Has(i) && z == nodes[i] && (s.left[i] == NIL || s.right[i] == NIL)
      requires x == Ref(Only(s, i))
      modifies this`s, this`nodes, header`parent, nodes
      ensures Carries() && Splices(old(s), s, i, Only(old(s), i)) && nodes == old(nodes)[..i] + old(nodes)[i + 1..]
      ensures xp == old(z.parent) == z.parent && z.left == old(z.left) && z.right == old(z.right) && z.color == old(z.color)
    {
      ghost var s0, j := s, Only(s, i);
      assert s.At(i) && NodeAt(i);
      ghost var t := UnlinkPlan(s, i);
      xp := z.parent;
      if x != null {
        SetParent(x, j, z.parent, s.parent[i]);
      }
      Replant(z, i, x, j);
      assert s == Unlinked(s0, i) && NodeAt(i);
      Drop(i, t);
    }

    /** The successor `y` of a node `z` with two children takes its place, and `x` the place of `y`. */
    method Relink(z: Node, y: Node, x: Node?, ghost i: int) returns (xp: Node?)
      requires Carries() && s.Linked() && s.Has(i) && z == nodes[i] && s.left[i] != NIL && s.right[i] != NIL
      requires s.Has(i + 1) && y == nodes[i + 1] && x == Ref(s.right[i + 1])
      modifies this`s, this`nodes, header`parent, nodes
      ensures Carries() && Splices(old(s), s, i + 1, old(s).right[i + 1]) && nodes == old(nodes)[..i] + old(nodes)[i + 1..]
      ensures xp == Above(Down(old(s).parent[i + 1], i + 1)) && z.color == old(s).color[i + 1]
    {
      ghost var j, l, r, p, q, k, t := RelinkPlan(s, i);
      xp := MoveUp(z, y, x, i, j, l, r, p, q, k);
      assert NodeAt(i);
      Drop(i, t);
    }

    method MoveUp(z: Node, y: Node, x: Node?, ghost i: int, ghost j: int, ghost l: int, ghost r: int, ghost p: int, ghost q: int, ghost k: int)
      returns (xp: Node?)
      requires Carries() && Successive(s, i, j, l, r, p, q, k) && z == nodes[i] && y == nodes[j] && x == Ref(k)
      requires Adopted(s, i).parent[i] == p
      modifies this`s, header`parent, nodes
      ensures Carries() && s == Relinked(old(s), i) && s.color[i] == old(s).color[j]
      ensures xp == if q == i then y else nodes[q]
    {
      AdoptedSelf(s, i, j, l, r, p, q, k);
      xp := Adopt(z, y, x, i, j, l, r, p, q, k);
      Place(z, y, i, j);
    }

    /** `y` takes the place and the colour of `z`, which gets the colour of `y`. */
    method Place(z: Node, y: Node, ghost i: int, ghost j: int)
      requires Carries() && s.Has(i) && s.Has(j) && i != j && z == nodes[i] && y == nodes[j]
      requires s.parent[i] == NIL <==> s.root == i
      requires s.parent[i] != NIL ==> s.Has(s.parent[i])
      modifies this`s, header`parent, nodes
      ensures Carries()
      ensures var u := Replanted(old(s), i, j);
        s == u.(parent := u.parent[j := u.parent[i]], color := u.color[j := old(s).color[i]][i := old(s).color[j]])
    {
      ghost var bh := s.bh;
      Replant(z, i, y, j);
      assert NodeAt(i) && NodeAt(j);
      SetParent(y, j, z.parent, s.parent[i]);
      var c := y.color;
      assert NodeAt(i) && NodeAt(j);
      SetColor(y, j, z.color, s.bh[j]);
      SetColor(z, i, c, s.bh[i]);
      assert s.bh == bh;
    }

    /** `y` takes over the children of `z`. */
    method Adopt(z: Node, y: Node, x: Node?, ghost i: int, ghost j: int, ghost l: int, ghost r: int, ghost p: int, ghost q: int, ghost k: int)
      returns (xp: Node?)
      requires Carries() && Successive(s, i, j, l, r, p, q, k) && z == nodes[i] && y == nodes[j] && x == Ref(k)
      modifies this`s, nodes
      ensures Carries() && s == Adopted(old(s), i)
      ensures xp == if q == i then y else nodes[q]
    {
      assert NodeAt(i) && NodeAt(j);
      SetParent(z.left, l, y, j);
      assert NodeAt(i);
      SetLeft(y, j, z.left, l);
      assert NodeAt(i) && NodeAt(j);
      if y != z.right {
        xp := y.parent;
        if x != null {
          SetParent(x, k, y.parent, q);
        }
        assert NodeAt(i) && NodeAt(j);
        SetLeft(y.parent, q, x, k);
        assert NodeAt(i);
        SetRight(y, j, z.right, r);
        assert NodeAt(i);
        SetParent(z.right, r, y, j);
      } else {
        xp := y;
      }
    }

    /** A red-black tree with its caches; keys ascend along the nodes. */
    ghost predicate Valid()
      reads this, header, nodes
    {
      Carries() && s.RedBlack() && Caches() && Sorted() && count == |nodes|
    }

    ghost predicate Sorted()
      reads this`nodes
    {
      forall i, j :: 0 <= i < j < |nodes| ==> nodes[i].key < nodes[j].key
    }

    /** `_Rb_tree_rebalance_for_erase`: takes node `i` out, and no other. */
    method RebalanceForErase(z: Node, ghost i: int)
      requires Carries() && s.RedBlack() && Caches() && s.Has(i) && z == nodes[i]
      modifies this`s, this`nodes, header`parent, header`left, header`right, nodes
      ensures Carries() && s.RedBlack() && Caches() && nodes == old(nodes)[..i] + old(nodes)[i + 1..]
    {
      ghost var s0 := s;
      assert NodeAt(i) && s.At(i);
      var x, xp;
      ghost var k := i;
      if z.left == null || z.right == null {
        x := if z.left == null then z.right else z.left;
        xp := EraseLow(z, x, i);
      } else {
        x, xp := EraseHigh(z, i);
        k := i + 1;
      }
      EraseEnd(z, x, xp, s0, k);
    }

    method EraseEnd(z: Node, x: Node?, xp: Node?, ghost s0: Shape, ghost k: int)
      requires Carries() && s0.RedBlack() && s0.Has(k) && Splices(s0, s, k, Only(s0, k))
      requires x == Ref(Down(Only(s0, k), k)) && xp == Above(Down(s0.parent[k], k)) && z.color == s0.color[k]
      modifies this`s, header`parent, nodes
      ensures Carries() && s.RedBlack()
    {
      if z.color == Black {
        SplicesBlack(s0, s, k, Only(s0, k));
        Restore(x, xp, Down(Only(s0, k), k), Down(s0.parent[k], k), SideOf(s0, k));
      } else {
        SplicesRed(s0, s, k, Only(s0, k));
      }
    }

    /** The node taken out has two children; its successor is relinked in its place, and the first and the last
        node stay. */
    method EraseHigh(z: Node, ghost i: int) returns (x: Node?, xp: Node?)
      requires Carries() && s.Linked() && Caches() && s.Has(i) && z == nodes[i] && s.left[i] != NIL && s.right[i] != NIL
      modifies this`s, this`nodes, header`parent, nodes
      ensures old(s).Has(i + 1) && Carries() && Splices(old(s), s, i + 1, Only(old(s), i + 1))
      ensures nodes == old(nodes)[..i] + old(nodes)[i + 1..] && Caches() && z.color == old(s).color[i + 1]
      ensures x == Ref(Down(Only(old(s), i + 1), i + 1)) && xp == Above(Down(old(s).parent[i + 1], i + 1))
    {
      ghost var s0 := s;
      Successor(s, i);
      assert NodeAt(i) && s.At(s.left[i]) && 0 < i;
      var y := Minimum(z.right, s.right[i]);
      assert NodeAt(i + 1);
      x := y.right;
      assert s.right[i + 1] != NIL ==> s.At(s.right[i + 1]);
      xp := Relink(z, y, x, i);
    }

    /** The node taken out has one child `x` at most: the header may have to learn a new first or last node. */
    method EraseLow(z: Node, x: Node?, ghost i: int) returns (xp: Node?)
      requires Carries() && s.Linked() && Caches() && s.Has(i) && z == nodes[i] && (s.left[i] == NIL || s.right[i] == NIL)
      requires x == Ref(Only(s, i))
      modifies this`s, this`nodes, header`parent, header`left, header`right, nodes
      ensures Carries() && Splices(old(s), s, i, Only(old(s), i)) && nodes == old(nodes)[..i] + old(nodes)[i + 1..]
      ensures Caches() && x == Ref(Down(Only(old(s), i), i)) && xp == Above(Down(old(s).parent[i], i)) && z.color == old(s).color[i]
    {
      ghost var s0 := s;
      assert NodeAt(i) && s.At(i);
      xp := Unlink(z, x, i);
      SplicesLinked(s0, s, i, Only(s0, i));
      RepairCaches(z, x, i, s0);
    }

    method RepairCaches(z: Node, x: Node?, ghost i: int, ghost s0: Shape)
      requires Carries() && s.Linked() && s0.Linked() && s0.Has(i) && Splices(s0, s, i, Only(s0, i))
      requires x == Ref(Down(Only(s0, i), i)) && z !in nodes
      requires z.parent == Above(Down(s0.parent[i], i)) && (z.left == null <==> s0.left[i] == NIL) && (z.right == null <==> s0.right[i] == NIL)
      requires header.left == (if i == 0 then z else nodes[0])
      requires header.right == (if i == |nodes| then z else nodes[|nodes| - 1])
      modifies header`left, header`right
      ensures Carries() && Caches()
    {
      EdgeOf(s0, i);
      EdgeChild(s0, s, i, Only(s0, i));
      if header.left == z {
        if z.right == null {
          header.left := z.parent;
        } else {
          var m := Minimum(x, Down(Only(s0, i), i));
          header.left := m;
        }
      }
      if header.right == z {
        if z.left == null {
          header.right := z.parent;
        } else {
          var m := Maximum(x, Down(Only(s0, i), i));
          header.right := m;
        }
      }
    }

    /** `erase( iterator )`: removes the node, and no other. */
    method Erase(z: Node, ghost i: int)
      requires Valid() && 0 <= i < |nodes| && z == nodes[i]
      modifies this, header, nodes
      ensures Valid() && nodes == old(nodes)[..i] + old(nodes)[i + 1..]
    {
      RebalanceForErase(z, i);
      count := count - 1;
      assert forall m :: 0 <= m < |nodes| ==> nodes[m] == old(nodes)[Up(m, i)];
    }

    // Iteration

    /** `_M_increment`: the next node in order, or the header. */
    method Increment(x0: Node, ghost i: int) returns (x: Node)
      requires Valid() && 0 <= i < |nodes| && x0 == nodes[i]
      ensures x == if i + 1 == |nodes| then header else nodes[i + 1]
    {
      assert NodeAt(i) && s.At(i);
      x := x0;
      if x.right != null {
        assert s.At(s.right[i]);
        x := Minimum(x.right, s.right[i]);
      } else {
        x := ClimbRight(x, i);
      }
    }

    /** From a right child up to its parent. */
    lemma ClimbsRight(j: int)
      requires Valid() && s.Has(j) && s.At(j) && s.Has(s.parent[j])
      ensures var q := s.parent[j];
        && NodeAt(q) && s.At(q) && (nodes[q].right == nodes[j] <==> s.right[q] == j)
        && nodes[q].parent == Above(s.parent[q]) && s.hi[q] <= |nodes| && 0 <= s.lo[q]
        && (s.right[q] == j ==> s.hi[q] == s.hi[j] && s.lo[q] < s.lo[j]) && (s.parent[q] == NIL <==> q == s.root)
    {
      assert NodeAt(s.parent[j]) && s.At(s.parent[j]);
      ParentOf(s.parent[j]);
      assert NodeAt(j);
    }

    /** The climb of `_M_increment`. When the root is the last node it climbs past it into the header, and has to
        notice. */
    method ClimbRight(x0: Node, ghost i: int) returns (x: Node)
      requires Valid() && 0 <= i < |nodes| && x0 == nodes[i] && s.right[i] == NIL
      ensures x == if i + 1 == |nodes| then header else nodes[i + 1]
    {
      x := x0;
      ghost var j := i;
      ParentOf(j);
      assert s.At(j);
      var y := x.parent;
      while x == y.right
        invariant y != null && Climbing(x, y, i, j)
        decreases if x == header then 0 else 1 + |nodes| - (s.hi[j] - s.lo[j])
      {
        assert x != header by {
          assert NodeAt(s.root);
        }
        ghost var q := s.parent[j];
        if q != NIL {
          ClimbsRight(j);
        }
        x := y;
        y := y.parent;
        j := q;
      }
      x := TopOfClimb(x, y, i, j);
    }

    /** Where the climb ends: at the parent, unless it has gone past the root. */
    method TopOfClimb(x0: Node, y: Node, ghost i: int, ghost j: int) returns (x: Node)
      requires Valid() && 0 <= i < |nodes| && Climbing(x0, y, i, j) && x0 != y.right
      ensures x == if i + 1 == |nodes| then header else nodes[i + 1]
    {
      x := x0;
      assert x != header && s.parent[j] != NIL ==> NodeAt(s.parent[j]) && s.At(s.parent[j]);
      assert NodeAt(s.root) && s.At(s.root);
      assert x != header ==> NodeAt(j);
      if x.right != y {
        x := y;
      }
    }

    /** The climb from `i` is at `x`, the place `j`, whose parent is `y`; or it has gone past the root. */
    ghost predicate Climbing(x: Node, y: Node?, i: int, j: int)
      requires Valid() && 0 <= i < |nodes|
      reads this, header, nodes
    {
      && (x == header ==> s.root == i == |nodes| - 1 && y == nodes[i])
      && (x != header ==> s.Has(j) && s.At(j) && s.hi[j] == i + 1 && x == nodes[j] && y == Above(s.parent[j]))
    }

    /** `_M_decrement`: the node before, from the header the last one. */
    method Decrement(x0: Node, ghost i: int) returns (x: Node)
      requires Valid() && 0 < i <= |nodes| && x0 == (if i == |nodes| then header else nodes[i])
      ensures x == nodes[i - 1]
    {
      x := x0;
      HeaderOnly(i);
      assert i < |nodes| ==> NodeAt(i) && s.At(i);
      if x.color == Red && x.parent.parent == x {
        x := x.right;
      } else if x.left != null {
        assert s.At(s.left[i]);
        var y := x.left;
        x := Maximum(y, s.left[i]);
      } else {
        x := ClimbLeft(x, i);
      }
    }

    /** A red node whose grandparent it is itself is the header. */
    lemma HeaderOnly(i: int)
      requires Valid() && 0 < i <= |nodes|
      ensures header.parent != null && header.parent.parent == header
      ensures i < |nodes| ==> nodes[i].parent != null
      ensures i < |nodes| && nodes[i].color == Red ==> nodes[i].parent.parent != nodes[i]
    {
      ParentOf(s.root);
      if i < |nodes| {
        ParentOf(i);
        assert s.At(i) && NodeAt(i);
        if nodes[i].color == Red {
          var p := s.parent[i];
          ParentOf(p);
          assert s.At(p) && s.parent[p] != i;
        }
      }
    }

    method ClimbLeft(x0: Node, ghost i: int) returns (x: Node)
      requires Valid() && 0 < i < |nodes| && x0 == nodes[i] && s.left[i] == NIL
      ensures x == nodes[i - 1]
    {
      x := x0;
      ghost var j := i;
      ParentOf(j);
      assert s.At(j) && s.At(s.root);
      var y := x.parent;
      while x == y.left
        invariant s.Has(j) && s.At(j) && s.lo[j] == i && x == nodes[j] && j != s.root && y == Above(s.parent[j])
        decreases |nodes| - (s.hi[j] - s.lo[j])
      {
        ghost var q := s.parent[j];
        assert NodeAt(q) && s.At(q);
        ParentOf(q);
        x := y;
        y := y.parent;
        j := q;
      }
      assert NodeAt(s.parent[j]) && s.At(s.parent[j]);
      x := y;
    }

    // Inserting a node

    /** Where a new node goes: under `p` on side `d`, or as the root of an empty tree. */
    ghost predicate Spot(p: int, d: Side)
      reads this`s, this`nodes
    {
      s.Sized() && if |nodes| == 0 then p == NIL && d == Left else s.Has(p) && s.Kid(d, p) == NIL
    }

    ghost function Place0(p: int, d: Side): int {
      if p == NIL then 0 else NewPlace(p, d)
    }

    /** `_M_insert_link`: links `z` in under `y`, on the left if `x` is given or the key is less. */
    method InsertLink(x: Node?, y: Node, z: Node, ghost p: int, ghost d: Side)
      requires Valid() && Spot(p, d) && y == Above(p) && z !in nodes && z != header
      requires d == Left <==> y == header || x != null || z.key < y.key
      modifies this, header, nodes, z
      ensures Carries() && s.RedBlack() && Caches() && count == |nodes|
      ensures var k := Place0(p, d); nodes == old(nodes)[..k] + [z] + old(nodes)[k..]
    {
      LinkUnder(x, y, z, p, d);
      Rebalance(z, Place0(p, d));
      count := count + 1;
    }

    method LinkUnder(x: Node?, y: Node, z: Node, ghost p: int, ghost d: Side)
      requires Valid() && Spot(p, d) && y == Above(p) && z !in nodes && z != header
      requires d == Left <==> y == header || x != null || z.key < y.key
      modifies this`s, this`nodes, header, nodes, z
      ensures var k := Place0(p, d);
        && nodes == old(nodes)[..k] + [z] + old(nodes)[k..] && 0 <= k <= |old(nodes)|
        && Carries() && Caches() && s.Has(k) && Adding(Tint(s, k, Red, 0), k)
    {
      if y == header {
        LinkRoot(z);
      } else if x != null || z.key < y.key {
        LinkLeft(y, z, p);
      } else {
        LinkRight(y, z, p);
      }
    }

    method LinkRoot(z: Node)
      requires Valid() && nodes == [] && z != header
      modifies this`s, this`nodes, header, z
      ensures Carries() && Caches() && nodes == [z] && Adding(Tint(s, 0, Red, 0), 0)
    {
      header.left := z;
      header.parent := z;
      header.right := z;
      z.parent := header;
      z.left := null;
      z.right := null;
      nodes := [z];
      s := Shape(0, [NIL], [NIL], [NIL], [z.color], [0], [1], [0]);
      assert s.At(0);
    }

    method LinkLeft(y: Node, z: Node, ghost p: int)
      requires Valid() && s.Has(p) && s.left[p] == NIL && y == nodes[p] && z !in nodes && z != header
      modifies this`s, this`nodes, header`left, y`left, z
      ensures Carries() && Caches() && nodes == old(nodes)[..p] + [z] + old(nodes)[p..] && Adding(Tint(s, p, Red, 0), p)
    {
      y.left := z;
      if y == header.left {
        header.left := z;
      }
      z.parent := y;
      z.left := null;
      z.right := null;
      forall i | 0 <= i < |nodes|
        ensures HangsAt(z, p, Left, s, nodes, i)
      {
        assert old(NodeAt(i));
      }
      LinkedIn(z, p, Left, p);
    }

    method LinkRight(y: Node, z: Node, ghost p: int)
      requires Valid() && s.Has(p) && s.right[p] == NIL && y == nodes[p] && z !in nodes && z != header
      modifies this`s, this`nodes, header`right, y`right, z
      ensures Carries() && Caches() && nodes == old(nodes)[..p + 1] + [z] + old(nodes)[p + 1..] && Adding(Tint(s, p + 1, Red, 0), p + 1)
    {
      y.right := z;
      if y == header.right {
        header.right := z;
      }
      z.parent := y;
      z.left := null;
      z.right := null;
      forall i | 0 <= i < |nodes|
        ensures HangsAt(z, p, Right, s, nodes, i)
      {
        assert old(NodeAt(i));
      }
      LinkedIn(z, p, Right, p + 1);
    }

    /** Node `i` when the new node `z` hangs under `p`, and the shape does not know it yet. */
    ghost predicate HangsAt(z: Node, p: int, d: Side, s0: Shape, was: seq<Node>, i: int)
      requires s0.Sized() && |s0.left| == |was| && s0.Has(p) && s0.Has(i)
      reads was
    {
      && was[i].left == (if i == p && d == Left then z else if s0.Has(s0.left[i]) then was[s0.left[i]] else null)
      && was[i].right == (if i == p && d == Right then z else if s0.Has(s0.right[i]) then was[s0.right[i]] else null)
      && was[i].parent == (if s0.Has(s0.parent[i]) then was[s0.parent[i]] else header) && was[i].color == s0.color[i]
    }

    ghost predicate Hangs(z: Node, p: int, d: Side, s0: Shape, was: seq<Node>)
      requires s0.Sized() && |s0.left| == |was| && s0.Has(p)
      reads was, z, header
    {
      && header !in was && z !in was && z != header
      && (forall i, j :: 0 <= i < |was| && 0 <= j < |was| && was[i] == was[j] ==> i == j)
      && header.parent == (if s0.Has(s0.root) then was[s0.root] else null) && header.color == Red
      && z.parent == was[p] && z.left == null && z.right == null
      && (forall i :: 0 <= i < |was| ==> HangsAt(z, p, d, s0, was, i))
    }

    ghost method LinkedIn(z: Node, p: int, d: Side, k: int)
      requires s.RedBlack() && |nodes| == |s.left| && s.Has(p) && s.Kid(d, p) == NIL && k == NewPlace(p, d)
      requires Hangs(z, p, d, s, nodes)
      modifies this`s, this`nodes
      ensures Carries() && nodes == old(nodes)[..k] + [z] + old(nodes)[k..] && Adding(Tint(s, k, Red, 0), k)
    {
      ghost var s0, was, t := s, nodes, Grown(s, p, d);
      GrownGrows(s, p, d);
      GrowsAdding(s, t, p, d, k);
      TintBack(t, k, z.color);
      nodes := nodes[..k] + [z] + nodes[k..];
      s := Tint(t, k, z.color, 0);
      Carried(z, p, d, k, s0, was, t);
    }

    lemma Carried(z: Node, p: int, d: Side, k: int, s0: Shape, was: seq<Node>, t: Shape)
      requires Grows(s0, t, p, d, k) && |was| == |s0.left| && nodes == was[..k] + [z] + was[k..] && s == Tint(t, k, z.color, 0)
      requires Hangs(z, p, d, s0, was)
      ensures Carries()
    {
      Shifted(z, k, was);
      forall m | 0 <= m < |nodes|
        ensures NodeAt(m)
      {
        if m != k {
          CarriedAt(z, p, d, k, s0, was, t, Down(m, k));
        }
      }
      assert s0.At(s0.root);
    }

    lemma Shifted(z: Node, k: int, was: seq<Node>)
      requires 0 <= k <= |was| && nodes == was[..k] + [z] + was[k..] && header !in was && z !in was && z != header
      requires forall i, j :: 0 <= i < |was| && 0 <= j < |was| && was[i] == was[j] ==> i == j
      ensures nodes[k] == z && forall j :: 0 <= j < |was| ==> nodes[Up(j, k)] == was[j]
      ensures Distinct()
    {
    }

    lemma CarriedAt(z: Node, p: int, d: Side, k: int, s0: Shape, was: seq<Node>, t: Shape, j: int)
      requires Grows(s0, t, p, d, k) && |was| == |s0.left| && |nodes| == |was| + 1 && s == Tint(t, k, z.color, 0) && s0.Has(j)
      requires HangsAt(z, p, d, s0, was, j)
      requires nodes[k] == z && forall i :: 0 <= i < |was| ==> nodes[Up(i, k)] == was[i]
      ensures NodeAt(Up(j, k))
    {
      assert Lifted(s0, t, p, d, j) && s0.At(j);
    }

    // Searching

    /** Place `k` divides the keys up to `v` from those beyond, or those below `v` from the rest. */
    ghost predicate Divides(k: int, v: int, upTo: bool)
      reads this`nodes
    {
      && 0 <= k <= |nodes|
      && (forall j :: 0 <= j < k ==> if upTo then nodes[j].key <= v else nodes[j].key < v)
      && (forall j :: k <= j < |nodes| ==> if upTo then v < nodes[j].key else v <= nodes[j].key)
    }

    /** A search has come down to `x`, which stands for the places from `a` to `b`; all the others are known to be
        before or after `v`. */
    ghost predicate Searching(x: Node?, m: int, a: int, b: int, v: int, upTo: bool)
      reads this`s, this`nodes
    {
      && s.Sized() && |nodes| == |s.left| && 0 <= a <= b <= |nodes| && x == Ref(m)
      && (if m == NIL then a == b else s.Has(m) && s.At(m) && s.lo[m] == a && s.hi[m] == b)
      && (forall j :: 0 <= j < a ==> if upTo then nodes[j].key <= v else nodes[j].key < v)
      && (forall j :: b <= j < |nodes| ==> if upTo then v < nodes[j].key else v <= nodes[j].key)
    }

    /** `lower_bound`: the first node whose key is not less, or the header. */
    method LowerBound(v: int) returns (y: Node, ghost k: int)
      requires Valid()
      ensures Divides(k, v, false) && y == Above(k)
    {
      y := header;
      var x := header.parent;
      ghost var m, a, b := s.root, 0, |nodes|;
      assert |nodes| > 0 ==> s.At(s.root);
      while x != null
        invariant Searching(x, m, a, b, v, false) && y == Above(b)
        decreases b - a
      {
        assert NodeAt(m);
        if !(x.key < v) {
          y := x;
          x, m, b := x.left, s.left[m], m;
        } else {
          x, m, a := x.right, s.right[m], m + 1;
        }
        assert m != NIL ==> s.At(m);
      }
      k := a;
    }

    /** `upper_bound`: the first node whose key is greater, or the header. */
    method UpperBound(v: int) returns (y: Node, ghost k: int)
      requires Valid()
      ensures Divides(k, v, true) && y == Above(k)
    {
      y := header;
      var x := header.parent;
      ghost var m, a, b := s.root, 0, |nodes|;
      assert |nodes| > 0 ==> s.At(s.root);
      while x != null
        invariant Searching(x, m, a, b, v, true) && y == Above(b)
        decreases b - a
      {
        assert NodeAt(m);
        if v < x.key {
          y := x;
          x, m, b := x.left, s.left[m], m;
        } else {
          x, m, a := x.right, s.right[m], m + 1;
        }
        assert m != NIL ==> s.At(m);
      }
      k := a;
    }

    /** `find`: the node with key `v`, or the header. */
    method Find(v: int) returns (y: Node)
      requires Valid()
      ensures if y == header then forall n :: n in nodes ==> n.key != v else y in nodes && y.key == v
    {
      ghost var k;
      y, k := LowerBound(v);
      if y == header || v < y.key {
        y := header;
      }
    }

    /** The descent of `insert_unique`. */
    method Descend(v: int) returns (y: Node, comp: bool, ghost p: int, ghost d: Side)
      requires Valid()
      ensures Spot(p, d) && y == Above(p) && (comp <==> d == Left) && Divides(Place0(p, d), v, true)
      ensures comp <==> y == header || v < y.key
    {
      y, comp := header, true;
      var x := header.parent;
      p, d := NIL, Left;
      ghost var m, a, b := s.root, 0, |nodes|;
      assert |nodes| > 0 ==> s.At(s.root);
      while x != null
        invariant Searching(x, m, a, b, v, true) && y == Above(p) && (comp <==> d == Left)
        invariant if p == NIL then d == Left && m == s.root && (|nodes| > 0 ==> m != NIL) && a == 0
                  else s.Has(p) && s.Kid(d, p) == m && (m == NIL ==> a == NewPlace(p, d)) && (comp <==> v < y.key)
        decreases b - a
      {
        assert NodeAt(m);
        y, p := x, m;
        comp := v < x.key;
        if comp {
          x, m, b, d := x.left, s.left[m], m, Left;
        } else {
          x, m, a, d := x.right, s.right[m], m + 1, Right;
        }
        assert m != NIL ==> s.At(m);
      }
    }

    /** `insert_unique`: adds a node with key `v` in its place, unless there is one. */
    method InsertUnique(v: int) returns (r: Node, added: bool, ghost k: int)
      requires Valid()
      modifies this, header, nodes
      ensures Valid() && r in nodes && r.key == v
      ensures added <==> forall n :: n in old(nodes) ==> n.key != v
      ensures added ==> fresh(r) && 0 <= k <= |old(nodes)| && nodes == old(nodes)[..k] + [r] + old(nodes)[k..]
      ensures !added ==> nodes == old(nodes)
    {
      var y, comp;
      ghost var p, d;
      y, comp, p, d := Descend(v);
      k := Place0(p, d);
      var j := y;
      if comp {
        if j == header.left {
          r := InsertValue(y, v, p, d);
          return r, true, k;
        }
        j := Decrement(j, p);
      }
      assert j == nodes[k - 1];
      if j.key < v {
        r := InsertValue(y, v, p, d);
        added := true;
      } else {
        r, added := j, false;
      }
    }

    method InsertValue(y: Node, v: int, ghost p: int, ghost d: Side) returns (z: Node)
      requires Valid() && Spot(p, d) && y == Above(p) && (d == Left <==> y == header || v < y.key)
      requires Divides(Place0(p, d), v, true) && forall n :: n in nodes ==> n.key != v
      modifies this, header, nodes
      ensures Valid() && z in nodes && fresh(z) && z.key == v
      ensures var k := Place0(p, d); nodes == old(nodes)[..k] + [z] + old(nodes)[k..]
    {
      ghost var was, k := nodes, Place0(p, d);
      z := new Node(v);
      InsertLink(null, y, z, p, d);
      Ascending(was, k, z);
    }

    /** A key in its place keeps the keys ascending. */
    lemma Ascending(was: seq<Node>, k: int, z: Node)
      requires 0 <= k <= |was| && nodes == was[..k] + [z] + was[k..]
      requires forall i, j :: 0 <= i < j < |was| ==> was[i].key < was[j].key
      requires (forall j :: 0 <= j < k ==> was[j].key < z.key) && forall j :: k <= j < |was| ==> z.key < was[j].key
      ensures Sorted() && z in nodes
    {
      assert nodes[k] == z;
      forall i, j | 0 <= i < j < |nodes|
        ensures nodes[i].key < nodes[j].key
      {
        assert i != k ==> nodes[i] == was[Down(i, k)];
        assert j != k ==> nodes[j] == was[Down(j, k)];
      }
    }
  }
}
